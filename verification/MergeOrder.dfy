/**
 * The orders and the position invariants behind the merge iterator: which key of which delta a
 * reader can see, how the sub-iterators are ordered, and where they stand.
 */
module MergeOrder {
  import opened ByteStrings
  import opened Deltas

  // ---------- live keys ----------

  /** Delta i holds the key and no newer delta touches it. */
  ghost predicate Live(deltas: seq<Delta>, i: nat, key: Bytes) {
    && i < |deltas|
    && key in deltas[i].backend
    && !Dirty(deltas, i, key)
  }

  /** Some delta newer than i has written or removed the key. */
  ghost predicate Dirty(deltas: seq<Delta>, i: nat, key: Bytes) {
    exists j :: i < j < |deltas| && deltas[j].Modified(key)
  }

  lemma {:induction false} LiveIsVisible(deltas: seq<Delta>, i: nat, key: Bytes)
    requires Live(deltas, i, key)
    ensures key in Flatten(deltas) && Flatten(deltas)[key] == deltas[i].backend[key]
  {
    if i < |deltas| - 1 {
      var init := deltas[..|deltas| - 1];
      assert !deltas[|deltas| - 1].Modified(key);
      assert forall j :: i < j < |init| ==> init[j] == deltas[j];
      LiveIsVisible(init, i, key);
    }
  }

  /** Every visible key has an owner, and only one. */
  lemma {:induction false} Owner(deltas: seq<Delta>, key: Bytes) returns (o: nat)
    requires key in Flatten(deltas)
    ensures Live(deltas, o, key)
    ensures forall i :: Live(deltas, i, key) ==> i == o
  {
    var init, last := deltas[..|deltas| - 1], deltas[|deltas| - 1];
    if key in last.backend {
      o := |deltas| - 1;
    } else {
      o := Owner(init, key);
      assert !last.Modified(key);
    }
    forall i: nat | Live(deltas, i, key)
      ensures i == o
    {
      assert i < o ==> deltas[o].Modified(key);
      assert o < i ==> deltas[i].Modified(key);
    }
  }

  // ---------- where a position stands ----------

  /** What the merge iterator is a cursor into: the visible keys in order. */
  ghost function LiveKeys(deltas: seq<Delta>): seq<Bytes> {
    SortedKeys(Flatten(deltas).Keys)
  }

  lemma LiveKeysDiffer(deltas: seq<Delta>, i: nat, j: nat)
    requires i < |LiveKeys(deltas)| && j < |LiveKeys(deltas)|
    ensures LiveKeys(deltas)[i] == LiveKeys(deltas)[j] <==> i == j
  {
    LessIsTotalOrder();
  }

  /** The key under a cursor, if it is not at the end. */
  ghost function Target(deltas: seq<Delta>, cursor: nat): Option<Bytes> {
    if cursor < |LiveKeys(deltas)| then Some(LiveKeys(deltas)[cursor]) else None
  }

  /** The lower bound of a target in a delta's own keys, or the end. */
  ghost function Bound(keys: seq<Bytes>, target: Option<Bytes>): (n: nat)
    ensures n <= |keys|
  {
    if target.None? then |keys| else LowerBound(keys, target.value)
  }

  ghost predicate Below(key: Bytes, target: Option<Bytes>) {
    target.None? || Less(key, target.value)
  }

  lemma BelowBound(keys: seq<Bytes>, target: Option<Bytes>, x: nat)
    requires Sorted(keys) && x < |keys|
    ensures Below(keys[x], target) <==> x < Bound(keys, target)
  {
    hide Less, Rank, LowerBound, SortedKeys, Flatten;
    LessIsTotalOrder();
    if target.Some? {
      LowerBoundSplits(keys, target.value);
    }
  }

  /** Between a cursor's key and the next there is nothing to see. */
  lemma NothingBetween(deltas: seq<Delta>, cursor: nat, key: Bytes)
    requires cursor <= |LiveKeys(deltas)|
    requires key in Flatten(deltas) && Below(key, Target(deltas, cursor))
    ensures cursor > 0 && (key == LiveKeys(deltas)[cursor - 1] || Less(key, LiveKeys(deltas)[cursor - 1]))
  {
    hide Less, Rank, LowerBound, SortedKeys, Flatten;
    LessIsTotalOrder();
    var keys := LiveKeys(deltas);
    var x :| 0 <= x < |keys| && keys[x] == key;
  }

  // ---------- sub-iterators ----------

  /** A sub-iterator: a position in a delta's sorted keys, |keys| being end(). */
  datatype Wrapper = Wrapper(keys: seq<Bytes>, pos: nat, revision: nat) {
    predicate Valid() {
      pos < |keys|
    }

    function Key(): Bytes
      requires Valid()
    {
      keys[pos]
    }
  }

  datatype Direction = Forward | Reverse

  /** iterator_compare_less and iterator_compare_greater. */
  predicate Compare(dir: Direction, lhs: Wrapper, rhs: Wrapper) {
    if !lhs.Valid() && !rhs.Valid() then lhs.revision > rhs.revision
    else if !lhs.Valid() then false
    else if !rhs.Valid() then true
    else if dir.Forward? then Less(lhs.Key(), rhs.Key())
    else Less(rhs.Key(), lhs.Key())
  }

  /** The composite key of the two ordered indices: position first, then the newer revision. */
  predicate Before(dir: Direction, lhs: Wrapper, rhs: Wrapper) {
    Compare(dir, lhs, rhs) || (!Compare(dir, rhs, lhs) && lhs.revision > rhs.revision)
  }

  /** Both indices are unique: wrappers of distinct revisions are never equivalent, so moving one never drops it. */
  lemma BeforeIsStrictTotalOrder(dir: Direction, a: Wrapper, b: Wrapper, c: Wrapper)
    ensures !Before(dir, a, a)
    ensures Before(dir, a, b) && Before(dir, b, c) ==> Before(dir, a, c)
    ensures a.revision != b.revision ==> (Before(dir, a, b) <==> !Before(dir, b, a))
  {
    hide Less, Rank, LowerBound, SortedKeys, Flatten;
    LessIsTotalOrder();
  }

  function Indices(n: nat): (s: set<nat>)
    ensures forall i: nat :: i in s <==> i < n
    ensures n > 0 ==> s != {}
  {
    var s := set i: nat {:trigger i < n} | i < n;
    assert n > 0 ==> 0 in s;
    s
  }

  ghost predicate IsFirst(dir: Direction, itrs: seq<Wrapper>, among: set<nat>, f: nat) {
    && f in among && f < |itrs|
    && forall i :: i in among && i < |itrs| && i != f ==> Before(dir, itrs[f], itrs[i])
  }

  ghost predicate Increasing(revisions: seq<nat>) {
    forall i, j :: 0 <= i < j < |revisions| ==> revisions[i] < revisions[j]
  }

  /** One wrapper per delta, over that delta's keys, revisions increasing from the root. */
  ghost predicate Shape(deltas: seq<Delta>, itrs: seq<Wrapper>) {
    && |itrs| == |deltas| > 0
    && (forall i :: 0 <= i < |itrs| ==> itrs[i].keys == SortedKeys(deltas[i].backend.Keys) && itrs[i].pos <= |itrs[i].keys|)
    && (forall i, j :: 0 <= i < j < |itrs| ==> itrs[i].revision < itrs[j].revision)
  }

  function MoveTo(itrs: seq<Wrapper>, i: nat, pos: nat): seq<Wrapper>
    requires i < |itrs|
  {
    itrs[i := itrs[i].(pos := pos)]
  }

  /** The resting state: every sub-iterator at its own lower bound of the target. */
  ghost predicate At(itrs: seq<Wrapper>, target: Option<Bytes>) {
    forall i :: 0 <= i < |itrs| ==> itrs[i].pos == Bound(itrs[i].keys, target)
  }

  /** The state resolve_conflicts works from: at or before the bound, with only dirty keys in between. */
  ghost predicate Poised(deltas: seq<Delta>, itrs: seq<Wrapper>, target: Option<Bytes>) {
    forall i :: 0 <= i < |itrs| ==> PoisedAt(deltas, i, itrs[i].keys, itrs[i].pos, target)
  }

  ghost predicate PoisedAt(deltas: seq<Delta>, i: nat, keys: seq<Bytes>, pos: nat, target: Option<Bytes>) {
    && pos <= Bound(keys, target)
    && forall x :: pos <= x < Bound(keys, target) ==> !Live(deltas, i, keys[x])
  }

  ghost predicate NotBeyond(itrs: seq<Wrapper>, target: Option<Bytes>) {
    forall i :: 0 <= i < |itrs| ==> itrs[i].pos <= Bound(itrs[i].keys, target)
  }

  lemma AtIsPoised(deltas: seq<Delta>, itrs: seq<Wrapper>, target: Option<Bytes>)
    requires At(itrs, target)
    ensures Poised(deltas, itrs, target)
  {
  }

  ghost predicate IsTarget(deltas: seq<Delta>, target: Option<Bytes>) {
    target.Some? ==> target.value in Flatten(deltas)
  }

  lemma TargetIsVisible(deltas: seq<Delta>, cursor: nat)
    ensures IsTarget(deltas, Target(deltas, cursor))
  {
    if cursor < |LiveKeys(deltas)| {
      assert LiveKeys(deltas)[cursor] in LiveKeys(deltas);
    }
  }

  /** The wrapper that owns the target is valid and not beyond it; it bounds the first wrapper from above. */
  lemma OwnerBoundsFirst(deltas: seq<Delta>, itrs: seq<Wrapper>, target: Bytes, f: nat) returns (o: nat)
    requires Shape(deltas, itrs) && NotBeyond(itrs, Some(target)) && target in Flatten(deltas)
    requires IsFirst(Forward, itrs, Indices(|itrs|), f)
    ensures Live(deltas, o, target)
    ensures itrs[f].Valid() && !Less(target, itrs[f].Key())
    ensures itrs[f].Key() == target && f != o ==> o < f
  {
    hide Less, Rank, LowerBound, SortedKeys, Flatten;
    LessIsTotalOrder();
    o := Owner(deltas, target);
    var keys := itrs[o].keys;
    assert target in keys;
    LowerBoundSplits(keys, target);
    BelowBound(keys, Some(target), itrs[o].pos);
    assert o != f ==> Before(Forward, itrs[f], itrs[o]);
  }

  /** One round of resolve_conflicts: a first wrapper that is at the end or clean means rest, a dirty one may step. */
  lemma ResolveRound(deltas: seq<Delta>, itrs: seq<Wrapper>, target: Option<Bytes>, f: nat)
    requires Shape(deltas, itrs) && Poised(deltas, itrs, target) && IsTarget(deltas, target)
    requires IsFirst(Forward, itrs, Indices(|itrs|), f)
    ensures !itrs[f].Valid() || !Dirty(deltas, f, itrs[f].Key()) ==> At(itrs, target)
    ensures itrs[f].Valid() && Dirty(deltas, f, itrs[f].Key()) ==> Poised(deltas, MoveTo(itrs, f, itrs[f].pos + 1), target)
  {
    hide Less, Rank, LowerBound, SortedKeys, Flatten;
    LessIsTotalOrder();
    assert PoisedAt(deltas, f, itrs[f].keys, itrs[f].pos, target);
    assert NotBeyond(itrs, target) by {
      assert forall i :: 0 <= i < |itrs| ==> PoisedAt(deltas, i, itrs[i].keys, itrs[i].pos, target);
    }
    var o := 0;
    if target.Some? {
      o := OwnerBoundsFirst(deltas, itrs, target.value, f);
    }
    if itrs[f].Valid() {
      var c := itrs[f].Key();
      BelowBound(itrs[f].keys, target, itrs[f].pos);
      if Dirty(deltas, f, c) {
        if target.Some? && c == target.value {
          assert false;
        }
        assert itrs[f].pos < Bound(itrs[f].keys, target);
        var moved := MoveTo(itrs, f, itrs[f].pos + 1);
        forall i | 0 <= i < |moved|
          ensures PoisedAt(deltas, i, moved[i].keys, moved[i].pos, target)
        {
          assert PoisedAt(deltas, i, itrs[i].keys, itrs[i].pos, target);
        }
      } else {
        assert Live(deltas, f, c);
        assert target.Some? && c == target.value;
        FirstAtTarget(deltas, itrs, target, f);
      }
    } else {
      FirstAtTarget(deltas, itrs, target, f);
    }
  }

  /** Once the first wrapper has reached the target (or the end), every wrapper has. */
  lemma FirstAtTarget(deltas: seq<Delta>, itrs: seq<Wrapper>, target: Option<Bytes>, f: nat)
    requires Shape(deltas, itrs) && NotBeyond(itrs, target)
    requires IsFirst(Forward, itrs, Indices(|itrs|), f)
    requires itrs[f].Valid() ==> !Below(itrs[f].Key(), target)
    ensures At(itrs, target)
  {
    hide Less, Rank, LowerBound, SortedKeys, Flatten;
    LessIsTotalOrder();
    forall i | 0 <= i < |itrs|
      ensures itrs[i].pos == Bound(itrs[i].keys, target)
    {
      assert i != f ==> Before(Forward, itrs[f], itrs[i]);
      if itrs[i].Valid() {
        BelowBound(itrs[i].keys, target, itrs[i].pos);
      }
    }
  }

  // ---------- increment ----------

  /** At rest on a key, the first wrapper is the one that owns the key. */
  lemma FirstOwnsTarget(deltas: seq<Delta>, itrs: seq<Wrapper>, target: Bytes, f: nat)
    requires Shape(deltas, itrs) && At(itrs, Some(target)) && target in Flatten(deltas)
    requires IsFirst(Forward, itrs, Indices(|itrs|), f)
    ensures itrs[f].Valid() && itrs[f].Key() == target && Live(deltas, f, target)
  {
    hide Less, Rank, LowerBound, SortedKeys, Flatten;
    LessIsTotalOrder();
    AtIsPoised(deltas, itrs, Some(target));
    var o := OwnerBoundsFirst(deltas, itrs, target, f);
    BelowBound(itrs[f].keys, Some(target), itrs[f].pos);
    if f != o {
      assert false;
    }
  }

  lemma FirstAtEnd(deltas: seq<Delta>, itrs: seq<Wrapper>, f: nat)
    requires Shape(deltas, itrs) && At(itrs, None) && f < |itrs|
    ensures !itrs[f].Valid()
  {
  }

  /** Stepping the first wrapper off a key leaves the others poised for the next one. */
  lemma IncrementPoises(deltas: seq<Delta>, itrs: seq<Wrapper>, cursor: nat, f: nat)
    requires Shape(deltas, itrs) && cursor < |LiveKeys(deltas)| && At(itrs, Target(deltas, cursor))
    requires IsFirst(Forward, itrs, Indices(|itrs|), f)
    ensures itrs[f].Valid() && Poised(deltas, MoveTo(itrs, f, itrs[f].pos + 1), Target(deltas, cursor + 1))
  {
    hide Less, Rank, LowerBound, SortedKeys, Flatten;
    LessIsTotalOrder();
    var target, next := LiveKeys(deltas)[cursor], Target(deltas, cursor + 1);
    var moved := MoveTo(itrs, f, itrs[f].pos + 1);
    FirstOwnsTarget(deltas, itrs, target, f);
    var o := Owner(deltas, target);
    forall i | 0 <= i < |moved|
      ensures PoisedAt(deltas, i, moved[i].keys, moved[i].pos, next)
    {
      StepPoises(deltas, i, itrs[i].keys, cursor, moved[i].pos);
    }
  }

  lemma StepPoises(deltas: seq<Delta>, i: nat, keys: seq<Bytes>, cursor: nat, pos: nat)
    requires Sorted(keys) && cursor < |LiveKeys(deltas)|
    requires var target := LiveKeys(deltas)[cursor];
             if Live(deltas, i, target) then pos == LowerBound(keys, target) + 1 <= |keys| && keys[pos - 1] == target
             else pos == LowerBound(keys, target)
    ensures PoisedAt(deltas, i, keys, pos, Target(deltas, cursor + 1))
  {
    hide Less, Rank, LowerBound, SortedKeys, Flatten;
    LessIsTotalOrder();
    var target, next := LiveKeys(deltas)[cursor], Target(deltas, cursor + 1);
    if pos > 0 {
      BelowBound(keys, Some(target), pos - 1);
      BelowBound(keys, next, pos - 1);
    }
    forall x | pos <= x < Bound(keys, next)
      ensures !Live(deltas, i, keys[x])
    {
      if Live(deltas, i, keys[x]) {
        LiveIsVisible(deltas, i, keys[x]);
        BelowBound(keys, next, x);
        BelowBound(keys, Some(target), x);
        NothingBetween(deltas, cursor + 1, keys[x]);
        assert false;
      }
    }
  }

  // ---------- construction ----------

  /** Starting every wrapper at its lower bound of any key is poised for the first visible key from there. */
  lemma StartPoised(deltas: seq<Delta>, itrs: seq<Wrapper>, start: Option<Bytes>, cursor: nat)
    requires Shape(deltas, itrs) && At(itrs, start)
    requires cursor == Bound(LiveKeys(deltas), start)
    ensures Poised(deltas, itrs, Target(deltas, cursor))
  {
    var target := Target(deltas, cursor);
    forall i | 0 <= i < |itrs|
      ensures PoisedAt(deltas, i, itrs[i].keys, itrs[i].pos, target)
    {
      StartPoisedAt(deltas, i, itrs[i].keys, start, cursor);
    }
  }

  lemma StartPoisedAt(deltas: seq<Delta>, i: nat, keys: seq<Bytes>, start: Option<Bytes>, cursor: nat)
    requires Sorted(keys) && cursor == Bound(LiveKeys(deltas), start)
    ensures PoisedAt(deltas, i, keys, Bound(keys, start), Target(deltas, cursor))
  {
    hide Less, Rank, LowerBound, SortedKeys, Flatten;
    LessIsTotalOrder();
    var pos, target := Bound(keys, start), Target(deltas, cursor);
    if pos > 0 {
      BelowBound(keys, start, pos - 1);
      BelowBound(keys, target, pos - 1);
    }
    forall x | pos <= x < Bound(keys, target)
      ensures !Live(deltas, i, keys[x])
    {
      if Live(deltas, i, keys[x]) {
        LiveIsVisible(deltas, i, keys[x]);
        BelowBound(keys, target, x);
        BelowBound(keys, start, x);
        NothingBetween(deltas, cursor, keys[x]);
        BelowBound(LiveKeys(deltas), start, cursor - 1);
        assert false;
      }
    }
  }

  // ---------- decrement ----------

  /** Where the rewind leaves a sub-iterator: on a clean key below the target or at begin, only dirty keys skipped. */
  ghost predicate Rewound(deltas: seq<Delta>, i: nat, keys: seq<Bytes>, pos: nat, target: Option<Bytes>) {
    && (keys == [] ==> pos == 0)
    && (keys != [] ==> pos < |keys|)
    && (pos > 0 ==> pos < Bound(keys, target) && !Dirty(deltas, i, keys[pos]))
    && forall x :: pos < x < Bound(keys, target) ==> !Live(deltas, i, keys[x])
  }

  ghost predicate AllRewound(deltas: seq<Delta>, itrs: seq<Wrapper>, target: Option<Bytes>) {
    forall i :: 0 <= i < |itrs| ==> Rewound(deltas, i, itrs[i].keys, itrs[i].pos, target)
  }

  /** What the search for the new least value walks past. */
  ghost predicate Skipped(deltas: seq<Delta>, i: nat, itr: Wrapper, target: Option<Bytes>)
    requires itr.Valid()
  {
    Dirty(deltas, i, itr.Key()) || !Below(itr.Key(), target)
  }

  /** After the rewind the owner of the previous key stands on it, and every candidate is at or below it. */
  lemma RewoundOwner(deltas: seq<Delta>, itrs: seq<Wrapper>, cursor: nat) returns (o: nat)
    requires Shape(deltas, itrs) && 0 < cursor <= |LiveKeys(deltas)|
    requires AllRewound(deltas, itrs, Target(deltas, cursor))
    ensures var previous := LiveKeys(deltas)[cursor - 1];
            && Live(deltas, o, previous) && itrs[o].Valid() && itrs[o].Key() == previous
            && Below(previous, Target(deltas, cursor))
            && forall i :: 0 <= i < |itrs| && itrs[i].Valid() && !Skipped(deltas, i, itrs[i], Target(deltas, cursor))
                 ==> itrs[i].Key() == previous || Less(itrs[i].Key(), previous)
  {
    hide Less, Rank, LowerBound, SortedKeys, Flatten;
    LessIsTotalOrder();
    var previous, target := LiveKeys(deltas)[cursor - 1], Target(deltas, cursor);
    o := Owner(deltas, previous);
    var keys := itrs[o].keys;
    assert previous in keys;
    var x :| 0 <= x < |keys| && keys[x] == previous;
    BelowBound(keys, target, x);
    assert Rewound(deltas, o, keys, itrs[o].pos, target);
    assert x <= itrs[o].pos;
    if x < itrs[o].pos {
      CandidateAtMost(deltas, o, itrs[o], cursor);
      assert false;
    }
    forall i | 0 <= i < |itrs| && itrs[i].Valid() && !Skipped(deltas, i, itrs[i], target)
      ensures itrs[i].Key() == previous || Less(itrs[i].Key(), previous)
    {
      CandidateAtMost(deltas, i, itrs[i], cursor);
    }
  }

  lemma CandidateAtMost(deltas: seq<Delta>, i: nat, itr: Wrapper, cursor: nat)
    requires i < |deltas| && itr.keys == SortedKeys(deltas[i].backend.Keys) && itr.Valid()
    requires 0 < cursor <= |LiveKeys(deltas)|
    requires !Dirty(deltas, i, itr.Key())
    requires Below(itr.Key(), Target(deltas, cursor)) || itr.pos < Bound(itr.keys, Target(deltas, cursor))
    ensures itr.Key() == LiveKeys(deltas)[cursor - 1] || Less(itr.Key(), LiveKeys(deltas)[cursor - 1])
  {
    assert itr.Key() in itr.keys;
    BelowBound(itr.keys, Target(deltas, cursor), itr.pos);
    LiveIsVisible(deltas, i, itr.Key());
    NothingBetween(deltas, cursor, itr.Key());
  }

  /** The first candidate in reverse order is the owner of the previous key. */
  lemma LeastIsOwner(deltas: seq<Delta>, itrs: seq<Wrapper>, cursor: nat, rest: set<nat>, l: nat)
    requires Shape(deltas, itrs) && 0 < cursor <= |LiveKeys(deltas)|
    requires AllRewound(deltas, itrs, Target(deltas, cursor))
    requires forall i :: 0 <= i < |itrs| && i !in rest ==> itrs[i].Valid() && Skipped(deltas, i, itrs[i], Target(deltas, cursor))
    requires IsFirst(Reverse, itrs, rest, l)
    ensures itrs[l].Valid()
    ensures !Skipped(deltas, l, itrs[l], Target(deltas, cursor)) ==> itrs[l].Key() == LiveKeys(deltas)[cursor - 1]
  {
    hide Less, Rank, LowerBound, SortedKeys, Flatten;
    LessIsTotalOrder();
    var o := RewoundOwner(deltas, itrs, cursor);
    assert o in rest;
    assert o != l ==> Before(Reverse, itrs[l], itrs[o]);
  }

  lemma SomeCandidateLeft(deltas: seq<Delta>, itrs: seq<Wrapper>, cursor: nat, rest: set<nat>)
    requires Shape(deltas, itrs) && 0 < cursor <= |LiveKeys(deltas)|
    requires AllRewound(deltas, itrs, Target(deltas, cursor))
    requires forall i :: 0 <= i < |itrs| && i !in rest ==> itrs[i].Valid() && Skipped(deltas, i, itrs[i], Target(deltas, cursor))
    ensures rest != {}
  {
    var o := RewoundOwner(deltas, itrs, cursor);
  }

  /** With a single delta the rewind already ends on the previous key. */
  lemma RewoundSingle(deltas: seq<Delta>, itrs: seq<Wrapper>, cursor: nat)
    requires Shape(deltas, itrs) && 0 < cursor <= |LiveKeys(deltas)| && |deltas| == 1
    requires AllRewound(deltas, itrs, Target(deltas, cursor))
    ensures At(itrs, Some(LiveKeys(deltas)[cursor - 1]))
  {
    hide Less, Rank, LowerBound, SortedKeys, Flatten, LiveKeys;
    LessIsTotalOrder();
    var o := RewoundOwner(deltas, itrs, cursor);
    BelowBound(itrs[o].keys, Some(LiveKeys(deltas)[cursor - 1]), itrs[o].pos);
    RewoundNotBeyond(deltas, itrs, cursor);
  }

  /** Rewound wrappers are never beyond the lower bound of the previous key, so only forward steps remain. */
  lemma RewoundNotBeyond(deltas: seq<Delta>, itrs: seq<Wrapper>, cursor: nat)
    requires Shape(deltas, itrs) && 0 < cursor <= |LiveKeys(deltas)|
    requires AllRewound(deltas, itrs, Target(deltas, cursor))
    ensures NotBeyond(itrs, Some(LiveKeys(deltas)[cursor - 1]))
  {
    forall i | 0 <= i < |itrs|
      ensures itrs[i].pos <= Bound(itrs[i].keys, Some(LiveKeys(deltas)[cursor - 1]))
    {
      RewoundBeforePrevious(deltas, itrs, cursor, i);
    }
  }

  lemma OnlyOwner(deltas: seq<Delta>, i: nat, key: Bytes)
    requires Live(deltas, i, key)
    ensures forall j: nat :: Live(deltas, j, key) ==> j == i
  {
    LiveIsVisible(deltas, i, key);
    var o := Owner(deltas, key);
  }

  /** A rewound wrapper is never beyond the lower bound of the previous key, so only forward steps remain. */
  lemma RewoundBeforePrevious(deltas: seq<Delta>, itrs: seq<Wrapper>, cursor: nat, i: nat)
    requires Shape(deltas, itrs) && 0 < cursor <= |LiveKeys(deltas)| && i < |itrs|
    requires AllRewound(deltas, itrs, Target(deltas, cursor))
    ensures itrs[i].pos <= Bound(itrs[i].keys, Some(LiveKeys(deltas)[cursor - 1]))
  {
    hide Less, Rank, LowerBound, SortedKeys, Flatten;
    LessIsTotalOrder();
    assert Rewound(deltas, i, itrs[i].keys, itrs[i].pos, Target(deltas, cursor));
    if itrs[i].pos > 0 {
      CandidateAtMost(deltas, i, itrs[i], cursor);
      LowerBoundSplits(itrs[i].keys, LiveKeys(deltas)[cursor - 1]);
      var previous := LiveKeys(deltas)[cursor - 1];
    }
  }
}
