/** Handles on a delta: reading, ordered navigation, writing with byte accounting, and anonymous nodes. */
module StateNodes {
  import opened ByteStrings
  import opened Deltas
  import opened MergeOrder
  import opened StateDeltas
  import opened MergeIterators

  datatype ObjectSpace = ObjectSpace(system: bool, zone: Bytes, id: nat)

  /** How a space and a key become a database key, and back. `header` is the encoding of the space alone. */
  datatype Codec = Codec(encode: (ObjectSpace, Bytes) -> Bytes, decode: Bytes -> (ObjectSpace, Bytes), header: ObjectSpace -> Bytes)

  /** Decoding inverts encoding, and an encoding starts with the header of its own space and of no other. */
  ghost predicate Delimited(c: Codec) {
    && (forall s, k {:trigger c.encode(s, k)} :: c.decode(c.encode(s, k)) == (s, k) && c.header(s) <= c.encode(s, k))
    && (forall s, t, k {:trigger c.header(s), c.encode(t, k)} :: c.header(s) <= c.encode(t, k) ==> s == t)
  }

  /** Every key of the view was written through the codec. */
  ghost predicate Encoded(view: View, c: Codec) {
    forall raw {:trigger c.decode(raw)} :: raw in view ==> c.encode(c.decode(raw).0, c.decode(raw).1) == raw
  }

  /** What lies between two strings with a common prefix has that prefix. */
  lemma {:induction false} PrefixIsConvex(p: Bytes, a: Bytes, m: Bytes, b: Bytes)
    requires p <= a && p <= b && Less(a, m) && Less(m, b)
    ensures p <= m
  {
    if p != [] {
      assert m[0] == p[0];
      PrefixIsConvex(p[1..], a[1..], m[1..], b[1..]);
      assert p == [p[0]] + p[1..] && m == [m[0]] + m[1..];
    }
  }

  /** So the keys of a space are contiguous. */
  lemma SpaceIsContiguous(c: Codec, space: ObjectSpace, a: Bytes, raw: Bytes, b: Bytes)
    requires Delimited(c) && c.encode(c.decode(raw).0, c.decode(raw).1) == raw
    requires Less(c.encode(space, a), raw) && Less(raw, c.encode(space, b))
    ensures c.decode(raw).0 == space
  {
    PrefixIsConvex(c.header(space), c.encode(space, a), raw, c.encode(space, b));
    var t := c.decode(raw).0;
    assert c.header(space) <= c.encode(t, c.decode(raw).1);
  }

  /** `found` is the nearest object of the space above (or below) a key, or there is none. */
  ghost predicate IsNeighbour(view: View, c: Codec, space: ObjectSpace, key: Bytes, above: bool, found: Option<(Bytes, Bytes)>) {
    var from := c.encode(space, key);
    match found
    case Some((value, k)) =>
      var raw := c.encode(space, k);
      && Get(view, raw) == Some(value) && Beyond(from, raw, above)
      && forall o {:trigger c.encode(space, o)} ::
           c.encode(space, o) in view && Beyond(from, c.encode(space, o), above) ==> o == k || Beyond(raw, c.encode(space, o), above)
    case None =>
      forall o {:trigger c.encode(space, o)} :: c.encode(space, o) in view ==> !Beyond(from, c.encode(space, o), above)
  }

  predicate Beyond(from: Bytes, key: Bytes, above: bool) {
    if above then Less(from, key) else Less(key, from)
  }

  /** The object under a database key, if there is one and it belongs to the space. */
  function InSpace(view: View, c: Codec, space: ObjectSpace, raw: Option<Bytes>): Option<(Bytes, Bytes)> {
    if raw.Some? && raw.value in view && c.decode(raw.value).0 == space
    then Some((view[raw.value], c.decode(raw.value).1)) else None
  }

  /** The nearest key of the whole view decides, because a space is contiguous. */
  lemma NearestDecides(view: View, c: Codec, space: ObjectSpace, key: Bytes, above: bool, nearest: Option<Bytes>, found: Option<(Bytes, Bytes)>)
    requires Delimited(c) && Encoded(view, c)
    requires nearest.Some? ==> nearest.value in view && Beyond(c.encode(space, key), nearest.value, above)
    requires forall raw :: raw in view && Beyond(c.encode(space, key), raw, above) ==>
               nearest.Some? && (raw == nearest.value || Beyond(nearest.value, raw, above))
    requires found == InSpace(view, c, space, nearest)
    ensures IsNeighbour(view, c, space, key, above, found)
  {
    hide Less;
    if nearest.Some? {
      var raw := nearest.value;
      var (s, k) := c.decode(raw);
      assert c.encode(s, k) == raw;
      if s == space {
        forall o | c.encode(space, o) in view && Beyond(c.encode(space, key), c.encode(space, o), above)
          ensures o == k || Beyond(raw, c.encode(space, o), above)
        {
          assert c.decode(c.encode(space, o)) == (space, o);
        }
      } else {
        forall o | c.encode(space, o) in view
          ensures !Beyond(c.encode(space, key), c.encode(space, o), above)
        {
          var other := c.encode(space, o);
          assert c.decode(other) == (space, o);
          if Beyond(c.encode(space, key), other, above) {
            assert other != raw;
            if above {
              SpaceIsContiguous(c, space, key, raw, o);
            } else {
              SpaceIsContiguous(c, space, o, raw, key);
            }
            assert false;
          }
        }
      }
    }
  }

  datatype Result<+T> = Ok(value: T) | NodeFinalized

  // ---------- byte accounting ----------

  datatype Write = PutWrite(key: Bytes, value: Bytes) | RemoveWrite(key: Bytes)

  function Written(view: View, write: Write): View {
    match write
    case PutWrite(key, value) => view[key := value]
    case RemoveWrite(key) => view - {key}
  }

  /** The amount a write reports: the key counts only when it appears or disappears. */
  function BytesUsed(view: View, write: Write): int {
    var before := Get(view, write.key);
    match write
    case PutWrite(key, value) => (if before.Some? then -|before.value| else |key|) + |value|
    case RemoveWrite(key) => if before.Some? then -|before.value| - |key| else 0
  }

  lemma BytesAreConserved(view: View, write: Write)
    ensures BytesUsed(view, write) == Size(Written(view, write)) - Size(view)
  {
    var key := write.key;
    if key in view {
      SizeWithout(view, key);
    } else {
      assert view - {key} == view;
    }
    if write.PutWrite? {
      SizeAfterPut(view, key, write.value);
    }
  }

  function AllWritten(view: View, writes: seq<Write>): View
    decreases |writes|
  {
    if writes == [] then view else AllWritten(Written(view, writes[0]), writes[1..])
  }

  function TotalBytes(view: View, writes: seq<Write>): int
    decreases |writes|
  {
    if writes == [] then 0 else BytesUsed(view, writes[0]) + TotalBytes(Written(view, writes[0]), writes[1..])
  }

  /** Over any sequence of writes the reported amounts add up to the change in the view's size. */
  lemma {:induction false} TotalBytesAreConserved(view: View, writes: seq<Write>)
    ensures TotalBytes(view, writes) == Size(AllWritten(view, writes)) - Size(view)
    decreases |writes|
  {
    if writes != [] {
      BytesAreConserved(view, writes[0]);
      TotalBytesAreConserved(Written(view, writes[0]), writes[1..]);
    }
  }

  // ---------- handles ----------

  class StateNode {
    var state: StateDelta

    constructor (state: StateDelta)
      ensures this.state == state
    {
      this.state := state;
    }

    method GetObject(c: Codec, space: ObjectSpace, key: Bytes, ghost nodes: set<StateDelta>) returns (value: Option<Bytes>)
      requires state in nodes && Linked(nodes)
      ensures value == Get(state.Visible(nodes), c.encode(space, key))
    {
      value := state.Lookup(c.encode(space, key), nodes);
      state.LookupReadsTheView(c.encode(space, key), nodes);
    }

    /** The iterator get_next_object reads from: the lower bound of a key, or one past it. */
    method SeekAbove(raw: Bytes, ghost nodes: set<StateDelta>) returns (it: MergeIterator, atEnd: bool)
      requires state in nodes && Linked(nodes)
      ensures it.Valid() && it.deltas == state.Chain(nodes)
      ensures it.cursor == AfterCursor(it.deltas, raw) && (atEnd <==> it.cursor == |it.Keys()|)
    {
      hide Less, Rank, SortedKeys, LowerBound, Flatten, LiveKeys, Target, At,
        MergeIterator.Valid, MergeIterator.Shaped, StateDelta.Revisions, StateDelta.Chain;
      it := new MergeIterator(state, AtLowerBound(raw), nodes);
      var end := new MergeIterator(state, End, nodes);
      LowerBoundIsAt(it.deltas, raw, it.cursor);
      atEnd := it.Equals(end);
      if !atEnd {
        var at := it.Key();
        if at == Some(raw) {
          var _ := it.Increment();
        }
      }
      atEnd := it.Equals(end);
    }

    method GetNextObject(c: Codec, space: ObjectSpace, key: Bytes, ghost nodes: set<StateDelta>)
      returns (found: Option<(Bytes, Bytes)>)
      requires state in nodes && Linked(nodes) && Delimited(c) && Encoded(state.Visible(nodes), c)
      ensures IsNeighbour(state.Visible(nodes), c, space, key, true, found)
    {
      hide Less, Rank, SortedKeys, LowerBound, Flatten, IsNeighbour, LiveKeys, Target, Encoded, Delimited, InSpace, At, AfterCursor;
      var it, atEnd := SeekAbove(c.encode(space, key), nodes);
      NextIsNearest(it.deltas, c.encode(space, key), it.cursor);
      if !atEnd {
        found := ReadInSpace(c, space, it);
      } else {
        found := None;
        NothingInSpace(Flatten(it.deltas), c, space);
      }
      NearestDecides(Flatten(it.deltas), c, space, key, true, Target(it.deltas, it.cursor), found);
    }

    /** The iterator get_prev_object reads from: one before the lower bound of a key, unless that is begin. */
    method SeekBelow(raw: Bytes, ghost nodes: set<StateDelta>) returns (it: MergeIterator, atBegin: bool)
      requires state in nodes && Linked(nodes)
      ensures it.Valid() && it.deltas == state.Chain(nodes)
      ensures var bound := LowerBound(it.Keys(), raw);
              (atBegin <==> bound == 0) && (!atBegin ==> it.cursor == bound - 1)
    {
      hide Less, Rank, SortedKeys, LowerBound, Flatten, LiveKeys, Target, At,
        MergeIterator.Valid, MergeIterator.Shaped, StateDelta.Revisions, StateDelta.Chain;
      it := new MergeIterator(state, AtLowerBound(raw), nodes);
      var begin := new MergeIterator(state, Begin, nodes);
      atBegin := it.Equals(begin);
      if !atBegin {
        it.Decrement();
      }
    }

    method GetPrevObject(c: Codec, space: ObjectSpace, key: Bytes, ghost nodes: set<StateDelta>)
      returns (found: Option<(Bytes, Bytes)>)
      requires state in nodes && Linked(nodes) && Delimited(c) && Encoded(state.Visible(nodes), c)
      ensures IsNeighbour(state.Visible(nodes), c, space, key, false, found)
    {
      hide Less, Rank, SortedKeys, LowerBound, Flatten, IsNeighbour, LiveKeys, Encoded, Delimited, InSpace, At;
      var it, atBegin := SeekBelow(c.encode(space, key), nodes);
      PrevIsNearest(it.deltas, c.encode(space, key), LowerBound(it.Keys(), c.encode(space, key)));
      if !atBegin {
        found := ReadInSpace(c, space, it);
      } else {
        found := None;
        NothingInSpace(Flatten(it.deltas), c, space);
      }
      NearestDecides(Flatten(it.deltas), c, space, key, false, if atBegin then None else Target(it.deltas, it.cursor), found);
    }

    /** Decodes the key under an iterator and returns the object if it belongs to the space. */
    static method ReadInSpace(c: Codec, space: ObjectSpace, it: MergeIterator) returns (found: Option<(Bytes, Bytes)>)
      requires it.Valid() && it.cursor < |it.Keys()|
      ensures found == InSpace(Flatten(it.deltas), c, space, Target(it.deltas, it.cursor))
    {
      TargetIsVisible(it.deltas, it.cursor);
      var at := it.Key();
      var (foundSpace, foundKey) := c.decode(at.value);
      if foundSpace == space {
        var value := it.Value();
        found := Some((value.value, foundKey));
      } else {
        found := None;
      }
    }

    /** Fails on a finalized node; otherwise only this node's view changes, by one key. */
    method PutObject(c: Codec, space: ObjectSpace, key: Bytes, value: Bytes, ghost nodes: set<StateDelta>)
      returns (r: Result<int>)
      requires state in nodes && Linked(nodes)
      modifies state
      ensures r.NodeFinalized? <==> old(state.finalized)
      ensures r.NodeFinalized? ==> state.Snapshot() == old(state.Snapshot())
      ensures state.parent == old(state.parent) && state.finalized == old(state.finalized) && Linked(nodes)
      ensures r.Ok? ==> state.Snapshot() == old(state.Snapshot()).Put(c.encode(space, key), value)
      ensures r.Ok? ==> state.backend == old(state.backend)[c.encode(space, key) := value] && state.removed == old(state.removed)
      ensures r.Ok? ==> state.Visible(nodes) == old(state.Visible(nodes))[c.encode(space, key) := value]
      ensures r.Ok? ==> r.value == Size(state.Visible(nodes)) - Size(old(state.Visible(nodes)))
    {
      hide Flatten, Size, Apply, Less, StateDelta.Visible, StateDelta.Chain;
      if state.finalized {
        return NodeFinalized;
      }
      var raw := c.encode(space, key);
      ghost var view, base, was := state.Visible(nodes), Flatten(state.Below(nodes)), state.Snapshot();
      state.ChainAboveBelow(nodes);
      state.LookupReadsTheView(raw, nodes);
      var before := state.Lookup(raw, nodes);
      var bytes := (if before.Some? then -|before.value| else |raw|) + |value|;
      BytesAreConserved(view, PutWrite(raw, value));
      state.Put(raw, value);
      state.ChainAboveBelow(nodes);
      PutUpdatesView(base, was, raw, value);
      r := Ok(bytes);
    }

    method RemoveObject(c: Codec, space: ObjectSpace, key: Bytes, ghost nodes: set<StateDelta>)
      returns (r: Result<int>)
      requires state in nodes && Linked(nodes)
      modifies state
      ensures r.NodeFinalized? <==> old(state.finalized)
      ensures r.NodeFinalized? ==> state.Snapshot() == old(state.Snapshot())
      ensures state.parent == old(state.parent) && state.finalized == old(state.finalized) && Linked(nodes)
      ensures r.Ok? ==> state.Snapshot() == old(state.Snapshot().Erase(c.encode(space, key), c.encode(space, key) in state.Visible(nodes)))
      ensures r.Ok? ==> state.Visible(nodes) == old(state.Visible(nodes)) - {c.encode(space, key)}
      ensures r.Ok? && c.encode(space, key) !in old(state.Visible(nodes)) ==>
                state.backend == old(state.backend) && state.removed == old(state.removed)
      ensures r.Ok? && c.encode(space, key) in old(state.Visible(nodes)) ==>
                state.backend == old(state.backend) - {c.encode(space, key)} && state.removed == old(state.removed) + {c.encode(space, key)}
      ensures r.Ok? ==> r.value == Size(state.Visible(nodes)) - Size(old(state.Visible(nodes)))
    {
      hide Flatten, Size, Apply, Less, StateDelta.Visible, StateDelta.Chain;
      if state.finalized {
        return NodeFinalized;
      }
      var raw := c.encode(space, key);
      ghost var view, base, was := state.Visible(nodes), Flatten(state.Below(nodes)), state.Snapshot();
      state.ChainAboveBelow(nodes);
      state.LookupReadsTheView(raw, nodes);
      var before := state.Lookup(raw, nodes);
      var bytes := if before.Some? then -|before.value| - |raw| else 0;
      BytesAreConserved(view, RemoveWrite(raw));
      state.Erase(raw, nodes);
      state.ChainAboveBelow(nodes);
      EraseUpdatesView(base, was, raw);
      r := Ok(bytes);
    }

    method CreateAnonymousNode() returns (node: AnonymousNode)
      ensures fresh(node) && node.parent == this && fresh(node.handle) && fresh(node.handle.state)
      ensures node.handle.state.parent == state && node.handle.state.Snapshot() == EMPTY_DELTA
      ensures node.handle.state.revision == state.revision + 1 && !node.handle.state.finalized && node.Direct()
    {
      var child := state.MakeChild(Id(0), Header(0, []));
      var handle := new StateNode(child);
      node := new AnonymousNode(this, handle);
    }
  }

  class AnonymousNode {
    const parent: StateNode
    const handle: StateNode

    constructor (parent: StateNode, handle: StateNode)
      ensures this.parent == parent && this.handle == handle
    {
      this.parent, this.handle := parent, handle;
    }

    /** The anonymous delta sits on the node it was created from: neither commit nor reset has been called. */
    ghost predicate Direct()
      reads this, parent, handle, handle.state
    {
      handle.state.parent == parent.state
    }

    /**
     * Squashes the anonymous delta into the delta below it and moves on to a child of itself. The
     * writes arrive in the parent node only if the anonymous delta still sits directly on it.
     */
    method Commit(ghost nodes: set<StateDelta>) returns (r: Result<()>)
      requires handle.state in nodes && parent.state in nodes && Linked(nodes)
      requires handle.state.parent != null && parent != handle
      modifies handle, handle.state.parent
      ensures r.NodeFinalized? <==> old(parent.state.finalized)
      ensures r.NodeFinalized? ==> handle.state == old(handle.state) && parent.state.Snapshot() == old(parent.state.Snapshot())
      ensures Linked(nodes) && parent.state == old(parent.state)
      ensures r.Ok? ==> old(handle.state.parent).Visible(nodes) == old(handle.state.Visible(nodes))
      ensures r.Ok? ==> old(handle.state).Visible(nodes) == old(handle.state.Visible(nodes))
      ensures r.Ok? ==> Squashed(old(handle.state.parent), old(handle.state.parent.Snapshot()), old(handle.state.Snapshot()))
      ensures old(handle.state.parent).parent == old(handle.state.parent.parent)
      ensures old(handle.state.parent).finalized == old(handle.state.parent.finalized)
      ensures r.Ok? && !old(Direct()) ==> parent.state.Snapshot() == old(parent.state.Snapshot())
      ensures r.Ok? ==> fresh(handle.state) && IsChild(handle.state, old(handle.state))
      ensures r.Ok? && old(handle.state) != parent.state ==> !Direct()
    {
      hide Flatten, Apply, Less, StateDelta.Visible, StateDelta.Chain;
      if parent.state.finalized {
        return NodeFinalized;
      }
      var state := handle.state;
      var target := state.parent;
      ghost var below, was, mine := target.Below(nodes), target.Snapshot(), state.Snapshot();
      ChildSees(target, state, nodes);
      state.Squash();
      ChildSees(target, state, nodes);
      SquashKeepsView(below, was, mine);
      Reset();
      r := Ok(());
    }

    method Reset()
      modifies handle
      ensures fresh(handle.state) && IsChild(handle.state, old(handle.state))
      ensures old(handle.state) != parent.state ==> !Direct()
    {
      var child := handle.state.MakeChild(Id(0), Header(0, []));
      handle.state := child;
    }
  }

  /** What a delta and its child see, above what lies below both. */
  lemma ChildSees(target: StateDelta, child: StateDelta, nodes: set<StateDelta>)
    requires target in nodes && child in nodes && Linked(nodes) && child.parent == target
    ensures Linked(Lower(nodes, target.revision)) && (target.parent != null ==> target.parent in Lower(nodes, target.revision))
    ensures target.Below(nodes) == [] <==> target.parent == null
    ensures target.Visible(nodes) == Flatten(target.Below(nodes) + [target.Snapshot()])
    ensures child.Visible(nodes) == Flatten(target.Below(nodes) + [target.Snapshot(), child.Snapshot()])
  {
    hide Flatten, Apply;
    target.ChainAboveBelow(nodes);
    assert child.Chain(nodes) == target.Below(nodes) + [target.Snapshot(), child.Snapshot()];
  }

  /** An empty child made just now. */
  predicate IsChild(child: StateDelta, of: StateDelta)
    reads child
  {
    child.parent == of && child.revision == of.revision + 1 && child.Snapshot() == EMPTY_DELTA && !child.finalized
  }

  /** The delta has taken another one in. */
  predicate Squashed(target: StateDelta, was: Delta, child: Delta)
    reads target
  {
    target.Snapshot() == was.Squashed(target.parent == null, child)
  }

  /** A write through an anonymous node, and a commit. */
  method PutAndCommit(a: AnonymousNode, c: Codec, space: ObjectSpace, key: Bytes, value: Bytes, ghost nodes: set<StateDelta>)
    returns (r: Result<()>)
    requires a.handle.state in nodes && a.parent.state in nodes && Linked(nodes)
    requires a.handle.state.parent != null && a.parent != a.handle && a.handle.state != a.parent.state && !a.handle.state.finalized
    modifies a.handle, a.handle.state, a.handle.state.parent
    ensures Linked(nodes) && (r.NodeFinalized? <==> old(a.parent.state.finalized))
    ensures r.Ok? ==> fresh(a.handle.state) && IsChild(a.handle.state, old(a.handle.state)) && !a.Direct()
    ensures r.Ok? && old(a.Direct()) ==>
              a.parent.state.Visible(nodes) == old(a.handle.state.Visible(nodes))[c.encode(space, key) := value]
    ensures r.Ok? && !old(a.Direct()) ==> a.parent.state.Snapshot() == old(a.parent.state.Snapshot())
    ensures old(a.handle.state.parent).parent == old(a.handle.state.parent.parent)
  {
    hide StateDelta.Visible, Size;
    var _ := a.handle.PutObject(c, space, key, value, nodes);
    r := a.Commit(nodes);
  }

  /** An empty child sees what its parent sees, in every linked set that holds them. */
  lemma EmptyChildSees(child: StateDelta, of: StateDelta, nodes: set<StateDelta>)
    requires of in nodes && Linked(nodes) && IsChild(child, of) && Linked(nodes + {child})
    ensures child.Visible(nodes + {child}) == of.Visible(nodes) == of.Visible(nodes + {child})
  {
    ChainWithin(of, nodes + {child}, nodes);
    FlattenSnoc(of.Chain(nodes), EMPTY_DELTA);
  }

  lemma LinkedWithChild(nodes: set<StateDelta>, child: StateDelta)
    requires Linked(nodes) && child.parent != null && child.parent in nodes && child.parent.revision < child.revision
    ensures Linked(nodes + {child})
  {
  }

  /** A reset before the first commit: what is put and committed then never reaches the node. */
  method CommitAfterReset(n: StateNode, c: Codec, space: ObjectSpace, key: Bytes, value: Bytes, ghost nodes: set<StateDelta>)
    returns (r: Result<()>)
    requires n.state in nodes && Linked(nodes)
    ensures r.NodeFinalized? <==> n.state.finalized
    ensures n.state == old(n.state) && n.state.Visible(nodes) == old(n.state.Visible(nodes))
  {
    hide Linked, StateDelta.Visible;
    var a := n.CreateAnonymousNode();
    ghost var below := nodes + {a.handle.state};
    LinkedWithChild(nodes, a.handle.state);
    a.Reset();
    LinkedWithChild(below, a.handle.state);
    r := PutAndCommit(a, c, space, key, value, below + {a.handle.state});
  }

  /** Of two commits only the first reaches the node. */
  method CommitTwice(n: StateNode, c: Codec, space: ObjectSpace, first: Bytes, second: Bytes, value: Bytes, ghost nodes: set<StateDelta>)
    requires n.state in nodes && Linked(nodes) && !n.state.finalized
    modifies n.state
    ensures n.state == old(n.state) && Linked(nodes)
    ensures n.state.Visible(nodes) == old(n.state.Visible(nodes))[c.encode(space, first) := value]
  {
    hide Linked, StateDelta.Visible;
    var a := n.CreateAnonymousNode();
    ghost var below := nodes + {a.handle.state};
    LinkedWithChild(nodes, a.handle.state);
    EmptyChildSees(a.handle.state, n.state, nodes);
    NobodysParent(nodes, a.handle.state);
    var _ := PutAndCommit(a, c, space, first, value, below);
    LinkedWithin(below, nodes, a.handle.state.parent);
    SeesWithin(n.state, below, nodes);
    LinkedWithChild(below, a.handle.state);
    var _ := PutAndCommit(a, c, space, second, value, below + {a.handle.state});
  }

  lemma NobodysParent(nodes: set<StateDelta>, other: StateDelta)
    requires Linked(nodes) && other !in nodes
    ensures forall d :: d in nodes ==> d.parent != other
  {
  }

  /** The nodes without one that is nobody's parent among them. */
  lemma LinkedWithin(all: set<StateDelta>, nodes: set<StateDelta>, last: StateDelta)
    requires Linked(all) && all == nodes + {last} && forall d :: d in nodes ==> d.parent != last
    ensures Linked(nodes)
  {
  }

  lemma SeesWithin(d: StateDelta, nodes: set<StateDelta>, part: set<StateDelta>)
    requires d in part && part <= nodes && Linked(nodes) && Linked(part)
    ensures d.Visible(part) == d.Visible(nodes)
  {
    ChainWithin(d, nodes, part);
  }

  // ---------- cursors and neighbours ----------

  /** Where get_next_object ends up: past the queried key if it is visible. */
  ghost function AfterCursor(deltas: seq<Delta>, raw: Bytes): nat {
    var c := LowerBound(LiveKeys(deltas), raw);
    if raw in Flatten(deltas) then c + 1 else c
  }

  lemma LowerBoundIsAt(deltas: seq<Delta>, raw: Bytes, cursor: nat)
    requires cursor == LowerBound(LiveKeys(deltas), raw)
    ensures Target(deltas, cursor) == Some(raw) <==> raw in Flatten(deltas)
    ensures Target(deltas, cursor).None? <==> cursor == |LiveKeys(deltas)|
  {
    LowerBoundSplits(LiveKeys(deltas), raw);
  }

  lemma NothingInSpace(view: View, c: Codec, space: ObjectSpace)
    ensures InSpace(view, c, space, None) == None
  {
  }

  lemma NextIsNearest(deltas: seq<Delta>, raw: Bytes, cursor: nat)
    requires cursor == AfterCursor(deltas, raw)
    ensures var nearest := Target(deltas, cursor);
            && (nearest.None? <==> cursor == |LiveKeys(deltas)|)
            && (nearest.Some? ==> nearest.value in Flatten(deltas) && Less(raw, nearest.value))
            && forall k :: k in Flatten(deltas) && Less(raw, k) ==> nearest.Some? && (k == nearest.value || Less(nearest.value, k))
  {
    hide Less, Rank, LowerBound, SortedKeys, Flatten;
    LessIsTotalOrder();
    var keys := LiveKeys(deltas);
    LowerBoundSplits(keys, raw);
    forall k | k in Flatten(deltas) && Less(raw, k)
      ensures cursor < |keys| && (k == keys[cursor] || Less(keys[cursor], k))
    {
      var x :| 0 <= x < |keys| && keys[x] == k;
    }
  }

  lemma PrevIsNearest(deltas: seq<Delta>, raw: Bytes, cursor: nat)
    requires cursor == LowerBound(LiveKeys(deltas), raw)
    ensures cursor > 0 ==> LiveKeys(deltas)[cursor - 1] in Flatten(deltas) && Less(LiveKeys(deltas)[cursor - 1], raw)
    ensures forall k :: k in Flatten(deltas) && Less(k, raw) ==>
              cursor > 0 && (k == LiveKeys(deltas)[cursor - 1] || Less(k, LiveKeys(deltas)[cursor - 1]))
  {
    hide Less, Rank, LowerBound, SortedKeys, Flatten;
    LessIsTotalOrder();
    var keys := LiveKeys(deltas);
    LowerBoundSplits(keys, raw);
    assert cursor > 0 ==> keys[cursor - 1] in keys;
    forall k | k in Flatten(deltas) && Less(k, raw)
      ensures cursor > 0 && (k == keys[cursor - 1] || Less(k, keys[cursor - 1]))
    {
      var x :| 0 <= x < |keys| && keys[x] == k;
    }
  }
}
