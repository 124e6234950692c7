/** Byte strings in the order std::string gives them, and the sorted key list of an ordered map. */
module ByteStrings {
  type Byte = b: int | 0 <= b < 256
  type Bytes = seq<Byte>

  /** Byte by byte, a proper prefix first. */
  predicate Less(a: Bytes, b: Bytes) {
    b != [] && (a == [] || a[0] < b[0] || (a[0] == b[0] && Less(a[1..], b[1..])))
  }

  /** Up to a position the strings agree, and there the first ends or has the smaller byte. */
  predicate FirstDifference(a: Bytes, b: Bytes, n: nat) {
    n <= |a| && n < |b| && a[..n] == b[..n] && (n == |a| || a[n] < b[n])
  }

  /** The order of strings, by the first difference: a proper prefix or a smaller byte after a common one. */
  lemma {:induction false} LessByFirstDifference(a: Bytes, b: Bytes)
    ensures Less(a, b) <==> exists n: nat :: FirstDifference(a, b, n)
  {
    if a == [] || b == [] || a[0] != b[0] {
      assert Less(a, b) ==> FirstDifference(a, b, 0);
    } else {
      LessByFirstDifference(a[1..], b[1..]);
      forall n: nat | n > 0 && n <= |a| && n < |b|
        ensures FirstDifference(a, b, n) <==> FirstDifference(a[1..], b[1..], n - 1)
      {
        assert a[..n] == [a[0]] + a[1..][..n - 1] && b[..n] == [b[0]] + b[1..][..n - 1];
      }
      if n: nat :| FirstDifference(a[1..], b[1..], n) {
        assert FirstDifference(a, b, n + 1);
      }
    }
  }

  /** The string read as a base-257 fraction: it embeds the order into the reals. */
  ghost function Rank(s: Bytes): (r: real)
    ensures 0.0 <= r < 1.0
    ensures s != [] ==> 0.0 < r
  {
    if s == [] then 0.0 else (1.0 + s[0] as real + Rank(s[1..])) / 257.0
  }

  lemma {:induction false} LessIsRank(a: Bytes, b: Bytes)
    ensures Less(a, b) <==> Rank(a) < Rank(b)
    ensures Rank(a) == Rank(b) ==> a == b
  {
    if a != [] && b != [] {
      LessIsRank(a[1..], b[1..]);
      assert a == [a[0]] + a[1..] && b == [b[0]] + b[1..];
    }
  }

  /** Less is a strict total order: it is the order of the ranks, and distinct strings have distinct ranks. */
  lemma LessIsTotalOrder()
    ensures forall a, b {:trigger Less(a, b)} :: Less(a, b) <==> Rank(a) < Rank(b)
    ensures forall a, b {:trigger Rank(a), Rank(b)} :: Rank(a) == Rank(b) ==> a == b
  {
    forall a, b
      ensures Less(a, b) <==> Rank(a) < Rank(b)
      ensures Rank(a) == Rank(b) ==> a == b
    {
      LessIsRank(a, b);
    }
  }

  predicate Sorted(s: seq<Bytes>) {
    forall i, j :: 0 <= i < j < |s| ==> Less(s[i], s[j])
  }

  /** In order, with repetitions. */
  predicate Ascending(keys: seq<Bytes>) {
    forall i, j :: 0 <= i < j < |keys| ==> !Less(keys[j], keys[i])
  }

  lemma LessOrders(a: Bytes, b: Bytes, c: Bytes)
    ensures a == b || Less(a, b) || Less(b, a)
    ensures Less(a, b) && Less(b, c) ==> Less(a, c)
  {
    hide Less, Rank;
    LessIsRank(a, b);
    LessIsRank(b, a);
    LessIsRank(b, c);
    LessIsRank(a, c);
  }

  predicate IsLeast(s: set<Bytes>, k: Bytes) {
    k in s && forall o :: o in s && o != k ==> Less(k, o)
  }

  lemma {:induction false} LeastExists(s: set<Bytes>)
    requires s != {}
    ensures exists k :: IsLeast(s, k)
  {
    hide Less, Rank;
    var x :| x in s;
    if s == {x} {
      assert IsLeast(s, x);
    } else {
      LeastExists(s - {x});
      var y :| IsLeast(s - {x}, y);
      var k := if Less(x, y) then x else y;
      forall o | o in s && o != k
        ensures Less(k, o)
      {
        assert o != x ==> o in s - {x};
        LessOrders(x, y, o);
      }
      assert IsLeast(s, k);
    }
  }

  lemma LeastIsUnique(s: set<Bytes>)
    ensures forall k, l :: IsLeast(s, k) && IsLeast(s, l) ==> k == l
  {
    forall k, l | IsLeast(s, k) && IsLeast(s, l)
      ensures k == l
    {
      LessIsRank(k, l);
      LessIsRank(l, k);
    }
  }

  function Least(s: set<Bytes>): (k: Bytes)
    requires s != {}
    ensures k in s && forall o :: o in s && o != k ==> Less(k, o)
  {
    LeastExists(s);
    LeastIsUnique(s);
    var k :| k in s && IsLeast(s, k);
    k
  }

  /** The keys in iteration order. */
  function SortedKeys(s: set<Bytes>): (r: seq<Bytes>)
    ensures Sorted(r)
    ensures forall k :: k in r <==> k in s
    ensures |r| == |s|
  {
    if s == {} then [] else [Least(s)] + SortedKeys(s - {Least(s)})
  }

  /** The position of the first key that is not below k. */
  function LowerBound(s: seq<Bytes>, k: Bytes): (n: nat)
    ensures n <= |s|
    ensures forall i :: 0 <= i < n ==> Less(s[i], k)
    ensures n < |s| ==> !Less(s[n], k)
  {
    if s == [] || !Less(s[0], k) then 0 else 1 + LowerBound(s[1..], k)
  }

  /** In a sorted list every key from the lower bound on is at or above k. */
  lemma LowerBoundSplits(s: seq<Bytes>, k: Bytes)
    requires Sorted(s)
    ensures forall i :: LowerBound(s, k) <= i < |s| ==> s[i] == k || Less(k, s[i])
    ensures k in s <==> LowerBound(s, k) < |s| && s[LowerBound(s, k)] == k
  {
    LessIsTotalOrder();
  }
}
