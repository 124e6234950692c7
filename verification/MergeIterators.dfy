/**
 * The merge iterator over a chain of deltas. Its whole state is one position per delta; its
 * specification is a cursor into the sorted list of visible keys.
 */
module MergeIterators {
  import opened ByteStrings
  import opened Deltas
  import opened MergeOrder
  import opened StateDeltas

  datatype Start = Begin | End | AtLowerBound(key: Bytes)

  /** Where a backend's begin(), end() or lower_bound(key) stands in its keys. */
  function StartPosition(keys: seq<Bytes>, start: Start): (n: nat)
    ensures n <= |keys|
  {
    match start
    case Begin => 0
    case End => |keys|
    case AtLowerBound(key) => LowerBound(keys, key)
  }

  class MergeIterator {
    const deltas: seq<Delta>
    const revisions: seq<nat>
    var itrs: seq<Wrapper>
    ghost var cursor: nat

    ghost function Keys(): seq<Bytes> {
      LiveKeys(deltas)
    }

    ghost predicate Shaped()
      reads this
    {
      && |revisions| == |deltas| == |itrs| > 0
      && Shape(deltas, itrs)
      && forall i :: 0 <= i < |itrs| ==> itrs[i].revision == revisions[i]
    }

    /** Every sub-iterator rests at its own lower bound of the key under the cursor. */
    ghost predicate Valid()
      reads this
    {
      && Shaped()
      && cursor <= |Keys()|
      && At(itrs, Target(deltas, cursor))
    }

    constructor (head: StateDelta, start: Start, ghost nodes: set<StateDelta>)
      requires head in nodes && Linked(nodes)
      ensures Valid() && deltas == head.Chain(nodes) && revisions == head.Revisions(nodes)
      ensures cursor == StartPosition(Keys(), start)
    {
      hide Less, Rank, LowerBound, SortedKeys, Flatten, LiveKeys, Live, StartWrappers, Target, Poised, Shape, At, Increasing,
        StartPosition, Linked, StateDelta.Chain, StateDelta.Revisions;
      var deque, levels, wrappers := Walk(head, start, nodes);
      deltas, revisions, itrs := deque, levels, wrappers;
      cursor := StartPosition(LiveKeys(deque), start);
      new;
      StartShape(deltas, revisions, start);
      StartRests(deltas, itrs, start);
      ResolveConflicts();
    }

    /** From the head up its parents, pushing each delta to the front with a sub-iterator over its backend. */
    static method Walk(head: StateDelta, start: Start, ghost nodes: set<StateDelta>)
      returns (deque: seq<Delta>, levels: seq<nat>, wrappers: seq<Wrapper>)
      requires head in nodes && Linked(nodes)
      ensures deque == head.Chain(nodes) && levels == head.Revisions(nodes) && |levels| == |wrappers| == |deque|
      ensures Increasing(levels) && wrappers == StartWrappers(deque, levels, start)
    {
      hide StartWrappers, Increasing, StartWrapper, Flatten, Less, Rank, LowerBound, SortedKeys, StartPosition;
      deque, levels, wrappers := [], [], [];
      StartWrappersEmpty(start);
      var current: StateDelta? := head;
      while current != null
        invariant |deque| == |levels| && wrappers == StartWrappers(deque, levels, start)
        invariant current != null ==> current in nodes && current.Chain(nodes) + deque == head.Chain(nodes)
        invariant current != null && levels != [] ==> current.revision < levels[0]
        invariant current != null ==> current.Revisions(nodes) + levels == head.Revisions(nodes)
        invariant current == null ==> deque == head.Chain(nodes) && levels == head.Revisions(nodes)
        invariant Increasing(levels)
        decreases if current == null then 0 else current.revision + 1
      {
        var delta := current.Snapshot();
        StartWrappersCons(delta, current.revision, deque, levels, start);
        IncreasingCons(current.revision, levels);
        current.WalkStep(nodes, deque, levels);
        deque := [delta] + deque;
        levels := [current.revision] + levels;
        wrappers := [StartWrapper(delta, current.revision, start)] + wrappers;
        current := current.parent;
      }
    }

    /** The sub-iterator that comes first in an index, among some. */
    method First(dir: Direction, among: set<nat>) returns (f: nat)
      requires Shaped() && among != {} && among <= Indices(|itrs|)
      ensures f < |itrs| && IsFirst(dir, itrs, among, f)
    {
      f :| f in among;
      var rest := among - {f};
      while rest != {}
        invariant rest <= among && f in among && f !in rest
        invariant forall i :: i in among && i !in rest && i != f ==> Before(dir, itrs[f], itrs[i])
      {
        var i :| i in rest;
        assert i in Indices(|itrs|) && f in Indices(|itrs|);
        BeforeIsTransitive(dir);
        if Before(dir, itrs[i], itrs[f]) {
          f := i;
        }
        rest := rest - {i};
      }
      assert f in Indices(|itrs|);
    }

    /** Walks the deltas from the newest down to the sub-iterator's own. */
    method IsDirty(i: nat, itr: Wrapper) returns (dirty: bool)
      requires Shaped() && i < |itrs| && itr.revision == revisions[i] && itr.Valid()
      ensures dirty <==> Dirty(deltas, i, itr.Key())
    {
      hide Less, Rank, LowerBound, SortedKeys, Flatten, Before, LiveKeys, Live;
      dirty := false;
      var level := |deltas| - 1;
      while itr.revision < revisions[level] && !dirty
        invariant i <= level < |deltas|
        invariant dirty ==> Dirty(deltas, i, itr.Key())
        invariant !dirty ==> forall j :: level < j < |deltas| ==> !deltas[j].Modified(itr.Key())
        decreases level, !dirty
      {
        assert i != level;
        dirty := deltas[level].Modified(itr.Key());
        level := level - 1;
      }
    }

    /** Skips first sub-iterators whose key is dirty until the first is clean or at its end. */
    method Advance(i: nat)
      requires Shaped() && i < |itrs| && itrs[i].Valid()
      modifies this`itrs
      ensures Shaped() && itrs == MoveTo(old(itrs), i, old(itrs)[i].pos + 1)
      ensures 0 <= Remaining(itrs) < old(Remaining(itrs))
    {
      hide Less, Rank, LowerBound, SortedKeys, Remaining;
      RemainingDrops(itrs, i);
      itrs := MoveTo(itrs, i, itrs[i].pos + 1);
    }

    method ResolveConflicts()
      requires Shaped() && cursor <= |Keys()| && Poised(deltas, itrs, Target(deltas, cursor))
      modifies this`itrs
      ensures Valid()
    {
      hide Less, Rank, LowerBound, SortedKeys, Flatten, Before, LiveKeys, Live, Dirty, Poised, At, Target, IsFirst, Remaining, MoveTo, Shape;
      var target := Target(deltas, cursor);
      TargetIsVisible(deltas, cursor);
      var dirty := true;
      var first: nat := First(Forward, Indices(|itrs|));
      while dirty && itrs[first].Valid()
        invariant Shaped() && IsFirst(Forward, itrs, Indices(|itrs|), first) && first < |itrs|
        invariant if dirty then Poised(deltas, itrs, target) else At(itrs, target)
        decreases Remaining(itrs), dirty
      {
        ResolveRound(deltas, itrs, target, first);
        dirty := IsDirty(first, itrs[first]);
        if dirty {
          Advance(first);
        }
        first := First(Forward, Indices(|itrs|));
      }
      if dirty {
        ResolveRound(deltas, itrs, target, first);
      }
    }

    method Increment() returns (ok: bool)
      requires Valid()
      modifies this
      ensures Valid()
      ensures ok <==> old(cursor) < |Keys()|
      ensures cursor == if ok then old(cursor) + 1 else old(cursor)
    {
      hide Less, Rank, LowerBound, SortedKeys, Flatten, Before, LiveKeys, Live, Poised, Dirty, IsFirst;
      var first: nat := First(Forward, Indices(|itrs|));
      if !itrs[first].Valid() {
        if cursor < |Keys()| {
          TargetIsVisible(deltas, cursor);
          FirstOwnsTarget(deltas, itrs, Keys()[cursor], first);
        }
        return false;
      }
      if cursor == |Keys()| {
        FirstAtEnd(deltas, itrs, first);
      }
      IncrementPoises(deltas, itrs, cursor, first);
      itrs := MoveTo(itrs, first, itrs[first].pos + 1);
      cursor := cursor + 1;
      ResolveConflicts();
      ok := true;
    }

    method Key() returns (key: Option<Bytes>)
      requires Valid()
      ensures key == Target(deltas, cursor)
    {
      var first := Settled();
      key := if itrs[first].Valid() then Some(itrs[first].Key()) else None;
    }

    method Value() returns (value: Option<Bytes>)
      requires Valid()
      ensures value == if cursor < |Keys()| then Get(Flatten(deltas), Keys()[cursor]) else None
    {
      hide Less, Rank, LowerBound, SortedKeys, Flatten, LiveKeys;
      var first := Settled();
      if !itrs[first].Valid() {
        return None;
      }
      LiveIsVisible(deltas, first, itrs[first].Key());
      value := Some(deltas[first].backend[itrs[first].Key()]);
    }

    /** At rest, the first sub-iterator owns the key under the cursor, or all are at the end. */
    method Settled() returns (first: nat)
      requires Valid()
      ensures first < |itrs| && IsFirst(Forward, itrs, Indices(|itrs|), first)
      ensures if cursor < |Keys()| then itrs[first].Valid() && itrs[first].Key() == Keys()[cursor] && Live(deltas, first, Keys()[cursor])
              else !itrs[first].Valid()
    {
      hide Less, Rank, LowerBound, SortedKeys, Flatten, Before, LiveKeys, Live;
      first := First(Forward, Indices(|itrs|));
      if cursor < |Keys()| {
        TargetIsVisible(deltas, cursor);
        FirstOwnsTarget(deltas, itrs, Keys()[cursor], first);
      } else {
        FirstAtEnd(deltas, itrs, first);
      }
    }

    /** The two stand on one key of deltas of one revision. */
    ghost predicate SamePlace(other: MergeIterator)
      requires |revisions| == |deltas| && |other.revisions| == |other.deltas|
      reads this, other
    {
      var key := Target(deltas, cursor);
      && key == Target(other.deltas, other.cursor)
      && (key.Some? ==> exists i: nat, j: nat ::
                          Live(deltas, i, key.value) && Live(other.deltas, j, key.value) && revisions[i] == other.revisions[j])
    }

    method Equals(other: MergeIterator) returns (same: bool)
      requires Valid() && other.Valid()
      ensures same <==> SamePlace(other)
      ensures deltas == other.deltas && revisions == other.revisions ==> (same <==> cursor == other.cursor)
    {
      hide Rank, LowerBound, Flatten, Before, LiveKeys, Less, SortedKeys, At, Dirty;
      var mine := Settled();
      var theirs := other.Settled();
      if !itrs[mine].Valid() && !other.itrs[theirs].Valid() {
        return true;
      }
      if !itrs[mine].Valid() || !other.itrs[theirs].Valid() {
        return false;
      }
      ghost var key := Keys()[cursor];
      OnlyOwner(deltas, mine, key);
      OnlyOwner(other.deltas, theirs, other.Keys()[other.cursor]);
      if deltas == other.deltas {
        LiveKeysDiffer(deltas, cursor, other.cursor);
      }
      if itrs[mine].revision != other.itrs[theirs].revision {
        return false;
      }
      same := itrs[mine].Key() == other.itrs[theirs].Key();
    }

    /** Steps back past dirty keys, never before begin. */
    method SkipDirtyBack(i: nat, from: Wrapper, ghost headKey: Option<Bytes>) returns (itr: Wrapper)
      requires Shaped() && i < |itrs| && from == itrs[i].(pos := from.pos) && from.Valid()
      requires from.pos + 1 >= Bound(from.keys, headKey) && (from.pos > 0 ==> from.pos < Bound(from.keys, headKey))
      ensures itr == itrs[i].(pos := itr.pos) && Rewound(deltas, i, itr.keys, itr.pos, headKey)
    {
      hide Less, Rank, LowerBound, SortedKeys, Flatten, Dirty, Bound;
      itr := from;
      var dirty := true;
      while dirty && itr.Valid() && itr.pos != 0
        invariant itr == itrs[i].(pos := itr.pos) && itr.Valid()
        invariant itr.pos > 0 ==> itr.pos < Bound(itr.keys, headKey)
        invariant forall x :: itr.pos < x < Bound(itr.keys, headKey) ==> !Live(deltas, i, itr.keys[x])
        invariant !dirty ==> !Dirty(deltas, i, itr.Key())
        decreases itr.pos, dirty
      {
        dirty := IsDirty(i, itr);
        if dirty {
          itr := itr.(pos := itr.pos - 1);
        }
      }
    }

    /** Moves one sub-iterator back below the head key and then past its dirty keys, never before its begin. */
    method RewindOne(i: nat, headKey: Option<Bytes>)
      requires Shaped() && i < |itrs| && itrs[i].pos == Bound(itrs[i].keys, headKey)
      modifies this`itrs
      ensures Shaped() && itrs == MoveTo(old(itrs), i, itrs[i].pos)
      ensures Rewound(deltas, i, itrs[i].keys, itrs[i].pos, headKey)
    {
      hide Less, Rank, LowerBound, SortedKeys, Flatten, Dirty;
      var itr := itrs[i];
      if |itr.keys| != 0 {
        if headKey.None? {
          itr := itr.(pos := itr.pos - 1);
        } else {
          if !itr.Valid() {
            itr := itr.(pos := itr.pos - 1);
          }
          BelowBound(itr.keys, headKey, itr.pos);
          while !Less(itr.Key(), headKey.value) && itr.pos != 0
            invariant itrs == old(itrs) && itr == itrs[i].(pos := itr.pos) && itr.Valid()
            invariant itr.pos <= Bound(itr.keys, headKey) <= itr.pos + 1
            invariant Below(itr.Key(), headKey) <==> itr.pos < Bound(itr.keys, headKey)
            decreases itr.pos
          {
            itr := itr.(pos := itr.pos - 1);
            BelowBound(itr.keys, headKey, itr.pos);
          }
        }
        itr := SkipDirtyBack(i, itr, headKey);
      }
      itrs := MoveTo(itrs, i, itr.pos);
    }

    method Rewind(headKey: Option<Bytes>)
      requires Shaped() && At(itrs, headKey)
      modifies this`itrs
      ensures Shaped() && AllRewound(deltas, itrs, headKey)
    {
      hide Rewound, Bound, Shape;
      for i := 0 to |itrs|
        invariant Shaped() && |itrs| == |old(itrs)|
        invariant forall j :: 0 <= j < i ==> Rewound(deltas, j, itrs[j].keys, itrs[j].pos, headKey)
        invariant forall j :: i <= j < |itrs| ==> itrs[j] == old(itrs)[j]
      {
        RewindOne(i, headKey);
      }
    }

    /** Walks the reverse index past dirty values and values that are not below the head key. */
    method FindLeast(headKey: Option<Bytes>) returns (least: nat)
      requires Shaped() && 0 < cursor <= |Keys()| && headKey == Target(deltas, cursor)
      requires AllRewound(deltas, itrs, headKey)
      ensures least < |itrs| && itrs[least].Valid() && itrs[least].Key() == Keys()[cursor - 1]
    {
      hide Less, Rank, LowerBound, SortedKeys, Flatten, Before, LiveKeys, Target, AllRewound, Dirty, Shape;
      var rest := Indices(|itrs|);
      least := First(Reverse, rest);
      LeastIsOwner(deltas, itrs, cursor, rest, least);
      var dirty := IsDirty(least, itrs[least]);
      while itrs[least].Valid() && (dirty || (headKey.Some? && !Less(itrs[least].Key(), headKey.value)))
        invariant rest <= Indices(|itrs|) && least < |itrs| && IsFirst(Reverse, itrs, rest, least)
        invariant itrs[least].Valid() && (dirty <==> Dirty(deltas, least, itrs[least].Key()))
        invariant forall i :: 0 <= i < |itrs| && i !in rest ==> itrs[i].Valid() && Skipped(deltas, i, itrs[i], headKey)
        decreases rest
      {
        rest := rest - {least};
        SomeCandidateLeft(deltas, itrs, cursor, rest);
        least := First(Reverse, rest);
        LeastIsOwner(deltas, itrs, cursor, rest, least);
        dirty := IsDirty(least, itrs[least]);
      }
      LeastIsOwner(deltas, itrs, cursor, rest, least);
    }

    /** Steps first sub-iterators forward until none is below a key. */
    method ForwardTo(key: Bytes)
      requires Shaped() && key in Flatten(deltas) && NotBeyond(itrs, Some(key))
      modifies this`itrs
      ensures Shaped() && At(itrs, Some(key))
    {
      hide Rank, LowerBound, SortedKeys, Flatten, Before, LiveKeys, Less, Remaining, At;
      var first: nat := First(Forward, Indices(|itrs|));
      ghost var o := OwnerBoundsFirst(deltas, itrs, key, first);
      while Less(itrs[first].Key(), key)
        invariant Shaped() && NotBeyond(itrs, Some(key))
        invariant first < |itrs| && itrs[first].Valid() && IsFirst(Forward, itrs, Indices(|itrs|), first)
        decreases Remaining(itrs)
      {
        BelowBound(itrs[first].keys, Some(key), itrs[first].pos);
        Advance(first);
        first := First(Forward, Indices(|itrs|));
        o := OwnerBoundsFirst(deltas, itrs, key, first);
      }
      FirstAtTarget(deltas, itrs, Some(key), first);
    }

    method Decrement()
      requires Valid() && cursor > 0
      modifies this
      ensures Valid() && cursor == old(cursor) - 1
    {
      hide Rank, LowerBound, SortedKeys, Flatten, Before, LiveKeys, Less, Shape, At, AllRewound;
      var head := Settled();
      var headKey := if itrs[head].Valid() then Some(itrs[head].Key()) else None;
      Rewind(headKey);
      ghost var previous := Keys()[cursor - 1];
      TargetIsVisible(deltas, cursor - 1);
      if |deltas| > 1 {
        var least := FindLeast(headKey);
        RewoundNotBeyond(deltas, itrs, cursor);
        ForwardTo(itrs[least].Key());
        cursor := cursor - 1;
        AtIsPoised(deltas, itrs, Some(previous));
        ResolveConflicts();
      } else {
        RewoundSingle(deltas, itrs, cursor);
        cursor := cursor - 1;
      }
    }
  }

  function StartWrapper(delta: Delta, revision: nat, start: Start): Wrapper {
    var keys := SortedKeys(delta.backend.Keys);
    Wrapper(keys, StartPosition(keys, start), revision)
  }

  function StartWrappers(deltas: seq<Delta>, revisions: seq<nat>, start: Start): (itrs: seq<Wrapper>)
    requires |deltas| == |revisions|
    ensures |itrs| == |deltas|
    ensures forall i :: 0 <= i < |itrs| ==> itrs[i] == StartWrapper(deltas[i], revisions[i], start)
  {
    if deltas == [] then []
    else [StartWrapper(deltas[0], revisions[0], start)] + StartWrappers(deltas[1..], revisions[1..], start)
  }

  lemma StartWrappersEmpty(start: Start)
    ensures Increasing([]) && StartWrappers([], [], start) == []
  {
  }

  lemma StartWrappersCons(delta: Delta, revision: nat, deltas: seq<Delta>, revisions: seq<nat>, start: Start)
    requires |deltas| == |revisions|
    ensures StartWrappers([delta] + deltas, [revision] + revisions, start)
            == [StartWrapper(delta, revision, start)] + StartWrappers(deltas, revisions, start)
  {
    hide StartWrapper;
    assert ([delta] + deltas)[1..] == deltas && ([revision] + revisions)[1..] == revisions;
  }

  lemma IncreasingCons(revision: nat, revisions: seq<nat>)
    requires Increasing(revisions) && (revisions != [] ==> revision < revisions[0])
    ensures Increasing([revision] + revisions)
  {
  }

  lemma StartShape(deltas: seq<Delta>, revisions: seq<nat>, start: Start)
    requires |deltas| == |revisions| > 0 && Increasing(revisions)
    ensures var itrs := StartWrappers(deltas, revisions, start);
            && Shape(deltas, itrs)
            && forall i :: 0 <= i < |itrs| ==> itrs[i].pos == StartPosition(itrs[i].keys, start) && itrs[i].revision == revisions[i]
  {
    hide Less, Rank, LowerBound, SortedKeys;
  }

  /** Sub-iterators freshly placed at begin, at end or at a lower bound are poised for the same place in the view. */
  lemma StartRests(deltas: seq<Delta>, itrs: seq<Wrapper>, start: Start)
    requires Shape(deltas, itrs)
    requires forall i :: 0 <= i < |itrs| ==> itrs[i].pos == StartPosition(itrs[i].keys, start)
    ensures Poised(deltas, itrs, Target(deltas, StartPosition(LiveKeys(deltas), start)))
  {
    // begin() is the lower bound of the empty key
    var from := match start case Begin => Some([]) case End => None case AtLowerBound(key) => Some(key);
    assert forall keys, k :: Sorted(keys) ==> !Less(k, []);
    StartPoised(deltas, itrs, from, StartPosition(LiveKeys(deltas), start));
  }

  lemma BeforeIsTransitive(dir: Direction)
    ensures forall a, b, c {:trigger Before(dir, a, b), Before(dir, b, c)} :: Before(dir, a, b) && Before(dir, b, c) ==> Before(dir, a, c)
    ensures forall a: Wrapper, b: Wrapper {:trigger Before(dir, a, b)} :: a.revision != b.revision ==> (Before(dir, a, b) <==> !Before(dir, b, a))
  {
    forall a, b, c
      ensures Before(dir, a, b) && Before(dir, b, c) ==> Before(dir, a, c)
      ensures a.revision != b.revision ==> (Before(dir, a, b) <==> !Before(dir, b, a))
    {
      BeforeIsStrictTotalOrder(dir, a, b, c);
    }
  }

  /** Steps left before every sub-iterator is at its end. */
  ghost function Remaining(itrs: seq<Wrapper>): int {
    if itrs == [] then 0 else Remaining(itrs[1..]) + |itrs[0].keys| - itrs[0].pos
  }

  lemma {:induction false} RemainingDrops(itrs: seq<Wrapper>, i: nat)
    requires forall j :: 0 <= j < |itrs| ==> itrs[j].pos <= |itrs[j].keys|
    requires i < |itrs| && itrs[i].Valid()
    ensures 0 <= Remaining(MoveTo(itrs, i, itrs[i].pos + 1)) < Remaining(itrs)
  {
    RemainingBounded(itrs);
    var moved := MoveTo(itrs, i, itrs[i].pos + 1);
    RemainingBounded(moved);
    if i == 0 {
      assert moved[1..] == itrs[1..];
    } else {
      RemainingDrops(itrs[1..], i - 1);
      assert moved[1..] == MoveTo(itrs[1..], i - 1, itrs[i].pos + 1);
    }
  }

  lemma {:induction false} RemainingBounded(itrs: seq<Wrapper>)
    requires forall j :: 0 <= j < |itrs| ==> itrs[j].pos <= |itrs[j].keys|
    ensures Remaining(itrs) >= 0
  {
    if itrs != [] {
      RemainingBounded(itrs[1..]);
    }
  }

  // ---------- whole traversals ----------

  datatype Pair = Pair(key: Bytes, value: Bytes)

  predicate AtOrAfter(key: Bytes, start: Start) {
    match start
    case Begin => true
    case End => false
    case AtLowerBound(from) => !Less(key, from)
  }

  /** The keys from a start on are those the point lookup finds there. */
  lemma KeysFrom(deltas: seq<Delta>, start: Start, key: Bytes)
    requires deltas != []
    ensures key in LiveKeys(deltas)[StartPosition(LiveKeys(deltas), start)..] <==> Find(deltas, key).Some? && AtOrAfter(key, start)
  {
    hide Less, Rank, LowerBound, SortedKeys, Flatten, Find;
    FindReadsTheView(deltas, key);
    LessIsTotalOrder();
    var keys := LiveKeys(deltas);
    if start.AtLowerBound? {
      LowerBoundSplits(keys, start.key);
    }
    if key in keys {
      var i :| 0 <= i < |keys| && keys[i] == key;
      assert i >= StartPosition(keys, start) ==> keys[StartPosition(keys, start)..][i - StartPosition(keys, start)] == key;
    }
  }

  /** Increments from a start until the iterator equals end(). */
  method Traverse(head: StateDelta, start: Start, ghost nodes: set<StateDelta>) returns (visited: seq<Pair>)
    requires head in nodes && Linked(nodes)
    ensures forall i, j :: 0 <= i < j < |visited| ==> Less(visited[i].key, visited[j].key)
    ensures forall key, value :: Pair(key, value) in visited <==> AtOrAfter(key, start) && Find(head.Chain(nodes), key) == Some(value)
  {
    hide Less, Rank, LowerBound, SortedKeys, Flatten, Find, At, Shape, LiveKeys, StateDelta.Chain, StateDelta.Revisions, AtOrAfter;
    var itr := new MergeIterator(head, start, nodes);
    var end := new MergeIterator(head, End, nodes);
    ghost var chain, keys, from := head.Chain(nodes), itr.Keys(), itr.cursor;
    visited := [];
    var atEnd := itr.Equals(end);
    while !atEnd
      invariant itr.Valid() && end.Valid() && itr.deltas == end.deltas && itr.revisions == end.revisions
      invariant from <= itr.cursor <= |keys| && end.cursor == |keys| && (atEnd <==> itr.cursor == end.cursor)
      invariant Visits(visited, keys[from..itr.cursor], Flatten(chain))
      decreases |keys| - itr.cursor, !atEnd
    {
      var key := itr.Key();
      var value := itr.Value();
      VisitsOneMore(visited, chain, from, itr.cursor);
      visited := visited + [Pair(key.value, value.value)];
      var _ := itr.Increment();
      atEnd := itr.Equals(end);
    }
    VisitsAll(chain, start, visited);
  }

  ghost predicate Visits(visited: seq<Pair>, keys: seq<Bytes>, view: View) {
    && |visited| == |keys|
    && forall i :: 0 <= i < |keys| ==> visited[i].key == keys[i] && Get(view, keys[i]) == Some(visited[i].value)
  }

  lemma VisitsOneMore(visited: seq<Pair>, chain: seq<Delta>, from: nat, cursor: nat)
    requires from <= cursor < |LiveKeys(chain)| && Visits(visited, LiveKeys(chain)[from..cursor], Flatten(chain))
    ensures Get(Flatten(chain), LiveKeys(chain)[cursor]).Some?
    ensures var key := LiveKeys(chain)[cursor];
            Visits(visited + [Pair(key, Flatten(chain)[key])], LiveKeys(chain)[from..cursor + 1], Flatten(chain))
  {
    hide Flatten, Less, Rank;
    var keys := LiveKeys(chain);
    assert keys[from..cursor + 1] == keys[from..cursor] + [keys[cursor]];
    assert keys[cursor] in keys;
  }

  lemma VisitsAll(chain: seq<Delta>, start: Start, visited: seq<Pair>)
    requires chain != []
    requires var keys := LiveKeys(chain); Visits(visited, keys[StartPosition(keys, start)..], Flatten(chain))
    ensures forall i, j :: 0 <= i < j < |visited| ==> Less(visited[i].key, visited[j].key)
    ensures forall key, value :: Pair(key, value) in visited <==> AtOrAfter(key, start) && Find(chain, key) == Some(value)
  {
    hide Less, Rank, LowerBound, Flatten, Find, StartPosition, AtOrAfter;
    var keys := LiveKeys(chain);
    var from := keys[StartPosition(keys, start)..];
    assert Sorted(from);
    forall key, value
      ensures Pair(key, value) in visited <==> AtOrAfter(key, start) && Find(chain, key) == Some(value)
    {
      KeysFrom(chain, start, key);
      FindReadsTheView(chain, key);
      if Pair(key, value) in visited {
        var i :| 0 <= i < |visited| && visited[i] == Pair(key, value);
        assert from[i] == key;
      }
      if AtOrAfter(key, start) && Find(chain, key) == Some(value) {
        var i :| 0 <= i < |from| && from[i] == key;
        assert visited[i] == Pair(key, value);
      }
    }
  }
}
