/**
 * The fork database: an index of mutable deltas with its root, its head and its fork heads. Every
 * call is proved to be the step of the same name on the database as a value.
 */
module Databases {
  import opened ByteStrings
  import opened Deltas
  import opened StateDeltas
  import opened StateNodes
  import opened Trees
  import opened Queues
  import opened Forests
  import opened Runs
  import opened Discards
  import opened Comparators

  datatype Outcome<+T> = Done(value: T) | IllegalArgument | CannotDiscard | InternalError

  type Index = map<Id, StateDelta>

  // ---------- the index and the mutable fields of its deltas ----------

  /** The mutable fields of a delta. */
  datatype Shot = Shot(parent: StateDelta?, finalized: bool, delta: Delta)

  type Shots = map<Id, Shot>

  function ShotOf(d: StateDelta): Shot
    reads d
  {
    Shot(d.parent, d.finalized, d.Snapshot())
  }

  ghost function ShotsOf(index: Index): Shots
    reads index.Values
  {
    map id | id in index :: ShotOf(index[id])
  }

  ghost predicate In(index: Index, d: StateDelta) {
    d.id in index && index[d.id] == d
  }

  /** Ids agree with keys, and parents are in the index one revision below. */
  ghost predicate Tied(index: Index, shots: Shots) {
    && shots.Keys == index.Keys
    && forall id {:trigger TiedAt(index, shots, id)} :: id in index ==> TiedAt(index, shots, id)
  }

  ghost predicate TiedAt(index: Index, shots: Shots, id: Id)
    requires id in index && shots.Keys == index.Keys
  {
    var parent := shots[id].parent;
    && index[id].id == id
    && (parent != null ==> In(index, parent) && index[id].revision == parent.revision + 1)
  }

  function MetaBy(d: StateDelta, shot: Shot): Meta {
    Meta(if shot.parent == null then None else Some(shot.parent.id), d.revision, shot.finalized, d.header)
  }

  function MetaOf(d: StateDelta): Meta
    reads d
  {
    MetaBy(d, ShotOf(d))
  }

  ghost function MetasBy(index: Index, shots: Shots): Nodes
    requires shots.Keys == index.Keys
  {
    map id | id in index :: MetaBy(index[id], shots[id])
  }

  ghost function DataBy(shots: Shots): map<Id, Delta> {
    map id | id in shots :: shots[id].delta
  }

  lemma TiedIsRooted(index: Index, shots: Shots)
    requires Tied(index, shots)
    ensures Rooted(MetasBy(index, shots)) && DataBy(shots).Keys == MetasBy(index, shots).Keys == index.Keys
  {
    forall id | id in index
      ensures TiedAt(index, shots, id)
    {
    }
  }

  lemma TiedInserts(index: Index, shots: Shots, d: StateDelta, shot: Shot)
    requires Tied(index, shots) && d.id !in index
    requires shot.parent != null ==> In(index, shot.parent) && d.revision == shot.parent.revision + 1
    ensures Tied(index[d.id := d], shots[d.id := shot])
    ensures MetasBy(index[d.id := d], shots[d.id := shot]) == MetasBy(index, shots)[d.id := MetaBy(d, shot)]
    ensures DataBy(shots[d.id := shot]) == DataBy(shots)[d.id := shot.delta]
  {
    forall id | id in index || id == d.id
      ensures TiedAt(index[d.id := d], shots[d.id := shot], id)
    {
      assert id in index ==> TiedAt(index, shots, id);
    }
  }

  /** A delta may change anything but its parent, or lose its parent. */
  lemma TiedReplaces(index: Index, shots: Shots, id: Id, shot: Shot)
    requires Tied(index, shots) && id in index && (shot.parent == shots[id].parent || shot.parent == null)
    ensures Tied(index, shots[id := shot])
    ensures MetasBy(index, shots[id := shot]) == MetasBy(index, shots)[id := MetaBy(index[id], shot)]
    ensures DataBy(shots[id := shot]) == DataBy(shots)[id := shot.delta]
  {
    forall x | x in index
      ensures TiedAt(index, shots[id := shot], x)
    {
      assert TiedAt(index, shots, x);
    }
  }

  /** Ids may go if what is left is a rooted tree. */
  lemma TiedDrops(index: Index, shots: Shots, gone: set<Id>)
    requires Tied(index, shots) && Rooted(MetasBy(index, shots) - gone)
    ensures Tied(index - gone, shots - gone)
  {
    var left := MetasBy(index, shots) - gone;
    forall x | x in index - gone
      ensures TiedAt(index - gone, shots - gone, x)
    {
      assert TiedAt(index, shots, x);
      assert left[x].parent.Some? ==> left[x].parent.value in left;
    }
  }

  lemma SameMap<T>(a: map<Id, T>, b: map<Id, T>)
    requires a.Keys == b.Keys && forall id :: id in a ==> a[id] == b[id]
    ensures a == b
  {
  }

  lemma TiedIsLinked(index: Index)
    requires Tied(index, ShotsOf(index))
    ensures Linked(index.Values)
    ensures forall id :: id in index ==> index[id] in index.Values
  {
    forall d | d in index.Values
      ensures d.parent != null ==> d.parent in index.Values && d.parent.revision < d.revision
    {
      var id :| id in index && index[id] == d;
      assert TiedAt(index, ShotsOf(index), id);
    }
  }

  /** What a reader sees through the parent links is the view of the value. */
  lemma {:induction false} VisibleIsView(index: Index, id: Id)
    requires Tied(index, ShotsOf(index)) && id in index
    ensures Linked(index.Values) && index[id] in index.Values
    ensures Rooted(MetasBy(index, ShotsOf(index))) && DataBy(ShotsOf(index)).Keys == MetasBy(index, ShotsOf(index)).Keys == index.Keys
    ensures index[id].Visible(index.Values) == ViewOf(MetasBy(index, ShotsOf(index)), DataBy(ShotsOf(index)), id)
    decreases index[id].revision
  {
    TiedIsLinked(index);
    TiedIsRooted(index, ShotsOf(index));
    assert TiedAt(index, ShotsOf(index), id);
    var d := index[id];
    if d.parent == null {
      FlattenSnoc([], d.Snapshot());
    } else {
      VisibleIsView(index, d.parent.id);
      FlattenSnoc(d.parent.Chain(index.Values), d.Snapshot());
    }
  }

  /** The database as a value. */
  ghost function AbsOf(index: Index, shots: Shots, root: Id, head: Id, forkHeads: set<Id>): Db
    requires shots.Keys == index.Keys
  {
    Db(Forest(MetasBy(index, shots), root, head, forkHeads), DataBy(shots))
  }

  /** The index of a database just opened. */
  lemma Opened(root: StateDelta)
    requires root.parent == null && root.finalized
    ensures var index := map[root.id := root];
            && Tied(index, ShotsOf(index))
            && AbsOf(index, ShotsOf(index), root.id, root.id, {root.id}) == Genesis(root.id, root.revision, root.header, root.Snapshot())
  {
    var index := map[root.id := root];
    assert TiedAt(index, ShotsOf(index), root.id);
  }

  class Database {
    const algorithm: Algorithm
    var index: Index
    var root: StateDelta
    var head: StateDelta
    var forkHeads: map<Id, StateDelta>

    /** Root, head and fork heads point into the index. */
    ghost predicate Pointed()
      reads this
    {
      && In(index, root) && In(index, head)
      && (forall id :: id in forkHeads ==> id in index && forkHeads[id] == index[id])
    }

    ghost predicate Sound()
      reads this, index.Values
    {
      Pointed() && Tied(index, ShotsOf(index))
    }

    ghost function Abs(): Db
      reads this, index.Values
    {
      AbsOf(index, ShotsOf(index), root.id, head.id, forkHeads.Keys)
    }

    ghost predicate Valid()
      reads this, index.Values
    {
      Sound() && DbInv(Abs())
    }

    /** The value, entry by entry. */
    lemma Entries()
      requires Sound()
      ensures Abs().forest.nodes.Keys == Abs().deltas.Keys == index.Keys && Rooted(Abs().forest.nodes)
      ensures Abs().forest.root == root.id && Abs().forest.head == head.id && Abs().forest.forkHeads == forkHeads.Keys
      ensures forall id :: id in index ==> Abs().forest.nodes[id] == MetaOf(index[id])
      ensures forall id :: id in index ==> Abs().deltas[id] == index[id].Snapshot()
    {
      TiedIsRooted(index, ShotsOf(index));
    }

    lemma TiedEntry(id: Id)
      requires Sound() && id in index
      ensures index[id].id == id && In(index, index[id])
      ensures index[id].parent != null ==> In(index, index[id].parent) && index[id].revision == index[id].parent.revision + 1
    {
      assert TiedAt(index, ShotsOf(index), id);
    }

    /** Opens the database over a backend's root. */
    constructor (algorithm: Algorithm, root: StateDelta)
      requires root.parent == null
      modifies root
      ensures Valid() && this.algorithm == algorithm && this.root == root && index == map[root.id := root]
      ensures Abs() == Genesis(root.id, root.revision, root.header, old(root.Snapshot()))
    {
      this.algorithm, this.root, this.head := algorithm, root, root;
      this.index, this.forkHeads := map[root.id := root], map[root.id := root];
      new;
      root.finalized := true;
      hide Database.Valid, Database.Abs, Genesis;
      OpenedIs(root);
    }

    lemma OpenedIs(r: StateDelta)
      requires r.parent == null && r.finalized && root == head == r && index == forkHeads == map[r.id := r]
      ensures Valid() && Abs() == Genesis(r.id, r.revision, r.header, r.Snapshot())
    {
      hide DbInv, Genesis, AbsOf, Tied, ShotsOf;
      Opened(r);
      assert forkHeads.Keys == {r.id};
    }

    method GetNode(id: Id) returns (node: StateDelta?)
      ensures node == if id in index then index[id] else null
    {
      node := if id in index then index[id] else null;
    }

    /** Goes up the parent links to a revision, never past the root. */
    method AncestorAt(child: StateDelta, revision: nat) returns (delta: StateDelta)
      requires Valid() && In(index, child) && revision >= root.revision
      ensures Rooted(Abs().forest.nodes) && child.id in Abs().forest.nodes && In(index, delta)
      ensures AncestorOrSelf(Abs().forest.nodes, delta.id, child.id)
      ensures delta.revision == if revision < child.revision then revision else child.revision
    {
      ghost var f := Abs().forest;
      hide DbInv, AncestorOrSelf, Tied, ShotsOf, AbsOf, Rooted;
      Entries();
      AncestorOfItself(f);
      delta := child;
      while delta.revision > revision
        invariant In(index, delta) && AncestorOrSelf(f.nodes, delta.id, child.id)
        invariant delta.revision >= revision || delta == child
        decreases delta.revision
      {
        TiedEntry(delta.id);
        NotBelowRoot(Abs(), delta.id);
        AncestorTransitive(f.nodes, delta.parent.id, delta.id, child.id);
        delta := delta.parent;
      }
    }

    /** The ancestor of a node (or, if it is unknown, of the head) at a revision. */
    method GetNodeAtRevision(revision: nat, childId: Id) returns (r: Outcome<StateDelta>)
      requires Valid()
      ensures r.IllegalArgument? <==> revision < root.revision
      ensures !r.IllegalArgument? ==> r.Done?
      ensures r.Done? && revision == root.revision ==> r.value == root
      ensures r.Done? && revision > root.revision ==>
                var nodes := Abs().forest.nodes;
                var child := if childId in index then childId else head.id;
                && Rooted(nodes) && child in nodes && In(index, r.value) && AncestorOrSelf(nodes, r.value.id, child)
                && r.value.revision == if revision < nodes[child].revision then revision else nodes[child].revision
    {
      hide DbInv, AncestorOrSelf, Tied, ShotsOf, AbsOf, Rooted;
      Entries();
      if revision < root.revision {
        return IllegalArgument;
      }
      if revision == root.revision {
        return Done(root);
      }
      if childId in index {
        TiedEntry(childId);
      }
      var child := GetNode(childId);
      if child == null {
        child := head;
      }
      var delta := AncestorAt(child, revision);
      if delta.id !in index {
        return InternalError;
      }
      r := Done(index[delta.id]);
    }

    /** Adds a delta under its id unless the id is taken. */
    method Insert(d: StateDelta) returns (inserted: bool)
      requires Sound()
      requires d.parent != null ==> In(index, d.parent) && d.revision == d.parent.revision + 1
      modifies this`index
      ensures Sound() && (inserted <==> d.id !in old(index))
      ensures index == if inserted then old(index)[d.id := d] else old(index)
      ensures Abs() == if inserted then WithNode(old(Abs()), d.id, MetaBy(d, ShotOf(d)), d.Snapshot()) else old(Abs())
    {
      hide Tied, MetasBy, DataBy;
      inserted := d.id !in index;
      if inserted {
        ghost var shots := ShotsOf(index);
        TiedInserts(index, shots, d, ShotOf(d));
        index := index[d.id := d];
        SameMap(ShotsOf(index), shots[d.id := ShotOf(d)]);
      }
    }

    method CreateWritableNode(parentId: Id, newId: Id, header: Header) returns (node: StateDelta?)
      requires Valid()
      modifies this`index
      ensures Valid() && Abs() == Step(algorithm, old(Abs()), Create(parentId, newId, header))
      ensures node != null <==> parentId in old(index) && old(index[parentId].finalized) && newId !in old(index)
      ensures node != null ==>
                && fresh(node) && index == old(index)[newId := node] && node.parent == index[parentId]
                && node.id == newId && node.header == header && node.revision == index[parentId].revision + 1
                && node.backend == map[] && node.removed == {} && !node.finalized
    {
      hide DbInv, Step, Tied, ShotsOf, AbsOf, WithNode;
      CreateStep(algorithm, Abs(), Create(parentId, newId, header));
      Entries();
      node := null;
      if parentId in index {
        TiedEntry(parentId);
        if index[parentId].finalized {
          node := InsertChild(index[parentId], newId, header);
        }
      }
    }

    /** make_child and insert: the child, or null if its id is taken. */
    method InsertChild(parent: StateDelta, newId: Id, header: Header) returns (node: StateDelta?)
      requires Sound() && In(index, parent)
      modifies this`index
      ensures Sound() && (node != null <==> newId !in old(index))
      ensures node != null ==> fresh(node) && node.parent == parent && node.id == newId && node.header == header
      ensures node != null ==> node.revision == parent.revision + 1 && node.backend == map[] && node.removed == {} && !node.finalized
      ensures index == if node != null then old(index)[newId := node] else old(index)
      ensures Abs() == if node != null
                       then WithNode(old(Abs()), newId, Meta(Some(parent.id), parent.revision + 1, false, header), EMPTY_DELTA)
                       else old(Abs())
    {
      hide Tied, AbsOf, WithNode;
      var child := parent.MakeChild(newId, header);
      var inserted := Insert(child);
      node := if inserted then child else null;
    }

    method CloneNode(nodeId: Id, newId: Id, header: Header) returns (r: Outcome<StateDelta?>)
      requires Valid()
      modifies this`index
      ensures Valid() && Abs() == Step(algorithm, old(Abs()), Clone(nodeId, newId, header))
      ensures r.Done? || r.IllegalArgument?
      ensures r.Done? <==> nodeId in old(index) && !old(index[nodeId].finalized)
      ensures r.Done? ==> (r.value != null <==> newId !in old(index))
      ensures r.Done? && r.value != null ==>
                var copy, node := r.value, old(index)[nodeId];
                && fresh(copy) && index == old(index)[newId := copy]
                && copy.id == newId && copy.header == header && copy.parent == node.parent && copy.revision == node.revision
                && copy.backend == node.backend && copy.removed == node.removed && !copy.finalized
    {
      hide DbInv, Step, Tied, ShotsOf, AbsOf, WithNode;
      CloneStep(algorithm, Abs(), Clone(nodeId, newId, header));
      Entries();
      var node := GetNode(nodeId);
      if node == null || node.finalized {
        return IllegalArgument;
      }
      TiedEntry(nodeId);
      var copy := InsertCopy(node, newId, header);
      r := Done(copy);
    }

    /** clone and insert: the copy, or null if its id is taken. */
    method InsertCopy(node: StateDelta, newId: Id, header: Header) returns (copy: StateDelta?)
      requires Sound() && In(index, node)
      modifies this`index
      ensures Sound() && (copy != null <==> newId !in old(index))
      ensures copy != null ==>
                && fresh(copy) && copy.id == newId && copy.header == header && copy.finalized == node.finalized
                && copy.parent == node.parent && copy.revision == node.revision
                && copy.backend == node.backend && copy.removed == node.removed
      ensures index == if copy != null then old(index)[newId := copy] else old(index)
      ensures Abs() == if copy != null
                       then WithNode(old(Abs()), newId, MetaOf(node).(header := header), node.Snapshot())
                       else old(Abs())
    {
      hide Tied, AbsOf, WithNode;
      TiedEntry(node.id);
      var made := node.Clone(newId, header);
      var inserted := Insert(made);
      copy := if inserted then made else null;
    }

    /** Replaces the contents or the finalized mark of one delta: the value changes under its id only. */
    lemma Replaced(was: Db, shots: Shots, id: Id)
      requires Pointed() && Tied(index, shots) && id in index && ShotsOf(index) == shots[id := ShotOf(index[id])]
      requires was == AbsOf(index, shots, root.id, head.id, forkHeads.Keys)
      requires index[id].parent == shots[id].parent
      ensures Sound()
      ensures Abs() == Db(was.forest.(nodes := was.forest.nodes[id := MetaOf(index[id])]), was.deltas[id := index[id].Snapshot()])
    {
      hide MetasBy, DataBy;
      TiedReplaces(index, shots, id, ShotOf(index[id]));
    }

    lemma SeesItsView(id: Id)
      requires Valid() && id in index
      ensures Linked(index.Values) && index[id] in index.Values
      ensures index[id].Visible(index.Values) == Abstract(Abs()).views[id]
    {
      hide DbInv, AbsOf, Tied, ViewOf, Linked, ShotsOf, StateDelta.Visible;
      VisibleIsView(index, id);
      AbsView(Abs(), index, ShotsOf(index), root.id, head.id, forkHeads.Keys, id);
    }

    // ---------- reads: what the naive snapshot of the node holds ----------

    method GetObject(id: Id, c: Codec, space: ObjectSpace, key: Bytes) returns (value: Option<Bytes>)
      requires Valid() && id in index
      ensures value == Get(Abstract(Abs()).views[id], c.encode(space, key))
    {
      hide DbInv, AbsOf, Tied, Linked, Abstract, StateDelta.Visible;
      SeesItsView(id);
      var handle := new StateNode(index[id]);
      value := handle.GetObject(c, space, key, index.Values);
    }

    method GetNextObject(id: Id, c: Codec, space: ObjectSpace, key: Bytes) returns (found: Option<(Bytes, Bytes)>)
      requires Valid() && id in index && Delimited(c) && Encoded(Abstract(Abs()).views[id], c)
      ensures IsNeighbour(Abstract(Abs()).views[id], c, space, key, true, found)
    {
      hide DbInv, AbsOf, Tied, Linked, Abstract, StateDelta.Visible, Delimited, Encoded, IsNeighbour;
      SeesItsView(id);
      var handle := new StateNode(index[id]);
      found := handle.GetNextObject(c, space, key, index.Values);
    }

    method GetPrevObject(id: Id, c: Codec, space: ObjectSpace, key: Bytes) returns (found: Option<(Bytes, Bytes)>)
      requires Valid() && id in index && Delimited(c) && Encoded(Abstract(Abs()).views[id], c)
      ensures IsNeighbour(Abstract(Abs()).views[id], c, space, key, false, found)
    {
      hide DbInv, AbsOf, Tied, Linked, Abstract, StateDelta.Visible, Delimited, Encoded, IsNeighbour;
      SeesItsView(id);
      var handle := new StateNode(index[id]);
      found := handle.GetPrevObject(c, space, key, index.Values);
    }

    // ---------- writes ----------

    /** A write through a node's handle. */
    method WriteThrough(id: Id, write: Write, c: Codec, space: ObjectSpace, key: Bytes) returns (r: Result<int>)
      requires Valid() && id in index && write.key == c.encode(space, key)
      modifies index[id]
      ensures Valid() && (r.Ok? <==> !old(index[id].finalized))
      ensures Abs() == if r.Ok? then WithWrite(old(Abs()), id, write) else old(Abs())
      ensures r.Ok? ==> r.value == BytesUsed(old(Abstract(Abs()).views[id]), write)
      ensures r.Ok? ==> index[id].Snapshot() == Changed(old(index[id].Snapshot()), write, old(Abstract(Abs()).views[id]))
    {
      hide DbInv, AbsOf, Tied, ViewOf, BytesUsed, WithWrite, Linked, ShotsOf, StateDelta.Visible, Abstract, Changed;
      ghost var was, shots := Abs(), ShotsOf(index);
      SeesItsView(id);
      ShotAt(index, id);
      Entries();
      Distinct();
      r := WriteDelta(index, id, write, c, space, key);
      Replaced(was, shots, id);
      WithWriteIs(was, id, write, MetaOf(index[id]), index[id].Snapshot(), r.Ok?);
    }

    lemma Distinct()
      requires Sound()
      ensures Injective(index)
    {
      forall x | x in index
        ensures index[x].id == x
      {
        TiedEntry(x);
      }
    }

    method PutObject(id: Id, c: Codec, space: ObjectSpace, key: Bytes, value: Bytes) returns (r: Result<int>)
      requires Valid() && id in index
      modifies index[id]
      ensures Valid() && Abs() == Step(algorithm, old(Abs()), Put(id, c.encode(space, key), value))
      ensures r.Ok? <==> Writable(old(Abs()).forest, id)
      ensures r.Ok? ==> r.value == BytesUsed(old(Abstract(Abs()).views[id]), PutWrite(c.encode(space, key), value))
      ensures r.Ok? ==> index[id].backend == old(index[id].backend)[c.encode(space, key) := value]
      ensures r.Ok? ==> index[id].removed == old(index[id].removed)
    {
      hide DbInv, Step, Tied, ShotsOf, AbsOf, Abstract, BytesUsed, WithWrite;
      Entries();
      WriteStep(algorithm, Abs(), Put(id, c.encode(space, key), value));
      r := WriteThrough(id, PutWrite(c.encode(space, key), value), c, space, key);
    }

    method RemoveObject(id: Id, c: Codec, space: ObjectSpace, key: Bytes) returns (r: Result<int>)
      requires Valid() && id in index
      modifies index[id]
      ensures Valid() && Abs() == Step(algorithm, old(Abs()), Remove(id, c.encode(space, key)))
      ensures r.Ok? <==> Writable(old(Abs()).forest, id)
      ensures r.Ok? ==> r.value == BytesUsed(old(Abstract(Abs()).views[id]), RemoveWrite(c.encode(space, key)))
      ensures r.Ok? ==> var raw, found := c.encode(space, key), c.encode(space, key) in old(Abstract(Abs()).views[id]);
                && index[id].backend == old(index[id].backend) - (if found then {raw} else {})
                && index[id].removed == old(index[id].removed) + if found then {raw} else {}
    {
      hide DbInv, Step, Tied, ShotsOf, AbsOf, Abstract, BytesUsed, WithWrite;
      Entries();
      WriteStep(algorithm, Abs(), Remove(id, c.encode(space, key)));
      r := WriteThrough(id, RemoveWrite(c.encode(space, key)), c, space, key);
    }

    /** A first commit of an anonymous node on an indexed one. */
    method CommitAnonymous(id: Id, node: AnonymousNode) returns (r: Result<()>)
      requires Valid() && id in index && node.parent.state == index[id] && node.parent != node.handle
      requires node.Direct() && node.handle.state !in index.Values && node.handle.state.revision > index[id].revision
      modifies node.handle, index[id]
      ensures Valid() && (r.Ok? <==> Writable(old(Abs()).forest, id))
      ensures Abs() == Step(algorithm, old(Abs()), Squash(id, old(node.handle.state.Snapshot())))
      ensures r.Ok? ==> IsChild(node.handle.state, old(node.handle.state)) && !node.Direct()
    {
      hide DbInv, Step, AbsOf, Tied, Linked, ShotsOf, WithSquash;
      ghost var was, shots, child := Abs(), ShotsOf(index), node.handle.state.Snapshot();
      Entries();
      Distinct();
      TiedIsLinked(index);
      ShotAt(index, id);
      SquashStep(algorithm, was, id, child);
      r := SquashInto(index, id, node);
      Replaced(was, shots, id);
      WithSquashIs(was, id, child, MetaOf(index[id]), index[id].Snapshot(), r.Ok?);
    }

    // ---------- finalize ----------

    method MarkFinalized(id: Id)
      requires Sound() && id in index
      modifies index[id]
      ensures Sound()
      ensures id in old(Abs()).forest.nodes && Abs() == Marked(old(Abs()), id)
    {
      hide AbsOf, Tied, ShotsOf;
      ghost var was, shots := Abs(), ShotsOf(index);
      Entries();
      Distinct();
      SetFinalized(index, id);
      Replaced(was, shots, id);
      SameMap(was.deltas[id := index[id].Snapshot()], was.deltas);
    }

    /** The fork heads as the list a comparator may change. */
    method ForkList() returns (forks: seq<StateDelta>)
      requires Sound()
      ensures Ids(forks) == forkHeads.Keys
      ensures forall i, j :: 0 <= i < j < |forks| ==> forks[i].id != forks[j].id
      ensures forall d :: d in forks ==> In(index, d)
    {
      hide Tied, ShotsOf;
      Distinct();
      assert forall id :: id in forkHeads ==> forkHeads[id].id == id && In(index, forkHeads[id]) by {
        forall id | id in forkHeads
          ensures forkHeads[id].id == id && In(index, forkHeads[id])
        {
          TiedEntry(id);
        }
      }
      forks := [];
      var rest := forkHeads.Keys;
      while rest != {}
        invariant rest <= forkHeads.Keys
        invariant forall d :: d in forks ==> d.id in forkHeads && forkHeads[d.id] == d && d.id !in rest
        invariant forall i, j :: 0 <= i < j < |forks| ==> forks[i].id != forks[j].id
        invariant Ids(forks) == forkHeads.Keys - rest
      {
        var id :| id in rest;
        var d := forkHeads[id];
        ghost var before := forks;
        forks := forks + [d];
        assert Ids(forks) == Ids(before) + {d.id};
        rest := rest - {id};
      }
    }

    /** A forest that agrees with the index on everything a comparator looks at. */
    ghost predicate Known(f: Forest)
      reads this, index.Values
    {
      && f.head == head.id && f.forkHeads == forkHeads.Keys && f.nodes.Keys == index.Keys
      && head.id in index && f.forkHeads <= index.Keys
      && forall x :: x in index ==>
           f.nodes[x].revision == index[x].revision && f.nodes[x].header == index[x].header && f.nodes[x].parent == MetaOf(index[x]).parent
    }

    /** Asks the comparator about a node as high as the head. */
    method Compete(node: StateDelta, ghost f: Forest) returns (choice: StateDelta?)
      requires Sound() && In(index, node) && Known(f) && node.revision == head.revision
      requires Rooted(f.nodes) && Decidable(algorithm, f.nodes[head.id], f.nodes[node.id])
      ensures HeadChoice(algorithm, f, node.id) == if choice == null then None else Some(choice.id)
      ensures if choice != null then In(index, choice) else head.parent != null && In(index, head.parent) && head.parent.id != head.id
    {
      hide Tied, ShotsOf, Choose;
      TiedEntry(head.id);
      assert Describes(f, head) && Describes(f, node);
      if head.parent != null {
        assert Describes(f, head.parent);
      }
      var forks := ForkList();
      assert DescribesAll(f, forks);
      choice := Compare(algorithm, forks, head, node, f);
    }

    /** Makes the head's parent the head, and a fork head in its place. */
    method FallBack()
      requires Sound() && head.parent != null && In(index, head.parent)
      modifies this`head, this`forkHeads
      ensures Sound() && head == old(head.parent)
      ensures forkHeads.Keys == old(forkHeads.Keys - {head.id} + {head.parent.id})
      ensures Abs() == Repointed(old(Abs()), head.id, forkHeads.Keys)
    {
      hide Tied, ShotsOf;
      var oldHead := head;
      head := oldHead.parent;
      forkHeads := forkHeads - {oldHead.id};
      forkHeads := forkHeads[head.id := head];
    }

    /** Lets a newly finalized node compete for the head. */
    method UpdateHead(node: StateDelta, ghost f: Forest)
      requires Sound() && In(index, node) && Known(f)
      requires Rooted(f.nodes) && Decidable(algorithm, f.nodes[head.id], f.nodes[node.id])
      modifies this`head, this`forkHeads
      ensures Sound()
      ensures var choice := HeadChoice(algorithm, f, node.id);
              && head.id == (if choice.Some? then choice.value else f.nodes[f.head].parent.value)
              && forkHeads.Keys == (if choice.Some? then f.forkHeads else f.forkHeads - {f.head} + {head.id})
      ensures Abs() == Repointed(old(Abs()), head.id, forkHeads.Keys)
    {
      hide Tied, ShotsOf, Choose;
      if node.revision > head.revision {
        head := node;
      } else if node.revision == head.revision {
        var choice := Compete(node, f);
        if choice != null {
          head := choice;
        } else {
          FallBack();
        }
      }
    }

    /** A finalized node replaces its parent among the fork heads, unless the parent is the head. */
    method UpdateForkHeads(node: StateDelta)
      requires Sound() && In(index, node)
      modifies this`forkHeads
      ensures Sound()
      ensures forkHeads.Keys == if MetaOf(node).parent == Some(head.id) then old(forkHeads).Keys
                                else (if node.parent != null then old(forkHeads).Keys - {node.parent.id} else old(forkHeads).Keys) + {node.id}
      ensures Abs() == Repointed(old(Abs()), head.id, forkHeads.Keys)
    {
      hide Tied, ShotsOf;
      if node.parent == null || node.parent.id != head.id {
        if node.parent != null {
          forkHeads := forkHeads - {node.parent.id};
        }
        forkHeads := forkHeads[node.id := node];
      }
    }

    /** After a node has been marked: first the head, then the fork heads. */
    method Repoint(node: StateDelta, ghost was: Db)
      requires Sound() && In(index, node) && DbInv(was) && node.id in was.forest.nodes && Abs() == Marked(was, node.id)
      requires Rooted(was.forest.nodes) && was.forest.head in was.forest.nodes && was.forest.forkHeads <= was.forest.nodes.Keys
      requires Decidable(algorithm, was.forest.nodes[was.forest.head], was.forest.nodes[node.id])
      modifies this`head, this`forkHeads
      ensures Sound() && Abs() == FinalizedDb(algorithm, was, node.id)
    {
      hide DbInv, Tied, ShotsOf, AbsOf, HeadChoice, FinalizedDb, Known, Decidable, Marked, Repointed, Rooted;
      StillKnows(was, node.id);
      KnownEntry(was.forest, node);
      UpdateHead(node, was.forest);
      ghost var heads := forkHeads.Keys;
      UpdateForkHeads(node);
      FinalizedDbIs(algorithm, was, node.id, head.id, heads, forkHeads.Keys);
    }

    lemma KnownEntry(f: Forest, d: StateDelta)
      requires Known(f) && In(index, d)
      ensures f.head == head.id && d.id in f.nodes && f.nodes[d.id].parent == MetaOf(d).parent
    {
    }

    /** Also for a node finalized before, as long as pob need not look for the parent of the root. */
    method FinalizeNode(id: Id) returns (r: Outcome<()>)
      requires Valid() && Legal(algorithm, Abs().forest, Finalize(id))
      modifies this`head, this`forkHeads, if id in index then {index[id]} else {}
      ensures Valid() && r == if id in index then Done(()) else IllegalArgument
      ensures Abs() == Step(algorithm, old(Abs()), Finalize(id))
    {
      hide Legal, Step, DbInv, Tied, ShotsOf, AbsOf, HeadChoice, FinalizedDb, Known, Decidable, Marked, Repointed;
      Entries();
      FinalizeStep(algorithm, Abs(), id);
      if id !in index {
        return IllegalArgument;
      }
      ghost var was := Abs();
      var node := index[id];
      TiedEntry(id);
      MarkFinalized(id);
      Repoint(node, was);
      r := Done(());
    }

    lemma Knows()
      requires Sound()
      ensures Known(Abs().forest)
    {
      Entries();
      forall x | x in index
        ensures index[x].id == x
      {
        TiedEntry(x);
      }
    }

    /** The finalized mark is not something a comparator looks at. */
    lemma StillKnows(was: Db, id: Id)
      requires Sound() && id in was.forest.nodes && Abs() == Marked(was, id)
      ensures Known(was.forest)
    {
      Knows();
      Entries();
    }

    // ---------- discard ----------

    /** A tree whose parent links are those of the index. */
    ghost predicate Links(nodes: Nodes)
      reads this`index, index.Values
    {
      nodes.Keys == index.Keys && forall x :: x in index ==> nodes[x].parent == MetaOf(index[x]).parent
    }

    method ChildrenOf(id: Id, whitelist: set<Id>, ghost nodes: Nodes) returns (children: seq<Id>)
      requires Links(nodes)
      ensures Once(children) && Elements(children) == Children(nodes, id) - whitelist
    {
      var rest := set x | x in index && index[x].parent != null && index[x].parent.id == id;
      assert rest == Children(nodes, id);
      children := [];
      while rest != {}
        invariant rest <= Children(nodes, id) && Once(children)
        invariant Elements(children) == Children(nodes, id) - rest - whitelist
      {
        var child :| child in rest;
        if child !in whitelist {
          ElementsGrow(children, child);
          assert child !in Elements(children);
          children := children + [child];
        }
        rest := rest - {child};
      }
    }

    /**
     * Grows the queue of nodes to discard, each once, and drops them from the fork heads on the way.
     * It gives up when it meets the head, but keeps what it dropped until then.
     */
    method CollectDoomed(id: Id, whitelist: set<Id>, ghost nodes: Nodes) returns (r: Option<seq<Id>>)
      requires Links(nodes) && Rooted(nodes) && id in nodes
      modifies this`forkHeads
      ensures r.None? <==> head.id in DoomedSet(nodes, id, whitelist)
      ensures r.Some? ==> Once(r.value) && Elements(r.value) == DoomedSet(nodes, id, whitelist)
      ensures r.Some? ==> forkHeads == old(forkHeads) - DoomedSet(nodes, id, whitelist)
      ensures r.None? ==>
                && head.id in nodes
                && exists met ::
                     MetBefore(nodes, id, whitelist, met, head.id) && forkHeads == old(forkHeads) - met
    {
      hide Rooted, Children, DoomedSet, Collected, Elements, Leveled, Grown, MetBefore, Once;
      CollectedStart(nodes, id, whitelist);
      var queue := [id];
      var i := 0;
      while i < |queue|
        invariant i <= |queue| && Grown(nodes, id, whitelist, queue, i) && Collected(nodes, id, whitelist, queue, i)
        invariant forkHeads == old(forkHeads) - Elements(queue[..i]) && head.id !in Elements(queue[..i])
        decreases nodes.Keys - Elements(queue[..i])
      {
        CollectedStep(nodes, id, whitelist, queue, i);
        if queue[i] == head.id {
          StopsAt(nodes, id, whitelist, queue, i);
          return None;
        }
        var children := ChildrenOf(queue[i], whitelist, nodes);
        CollectedGrows(nodes, id, whitelist, queue, i, children);
        GrownStep(nodes, id, whitelist, queue, i, children);
        forkHeads := forkHeads - {queue[i]};
        queue := queue + children;
        i := i + 1;
      }
      CollectedAll(nodes, id, whitelist, queue);
      r := Some(queue);
    }

    method EraseAll(queue: seq<Id>)
      modifies this`index
      ensures index == old(index) - Elements(queue)
    {
      for i := 0 to |queue|
        invariant index == old(index) - Elements(queue[..i])
      {
        TakeOneMore(queue, [], i);
        ElementsGrow(queue[..i], queue[i]);
        assert queue + [] == queue;
        index := index - {queue[i]};
      }
      assert queue[..|queue|] == queue;
    }

    /** A parent left without children becomes a fork head again; it is always there to become one. */
    method RestoreForkHead(node: StateDelta, ghost nodes: Nodes) returns (r: Outcome<()>)
      requires Pointed() && Links(nodes) && root.parent == null
      requires node.parent != null ==> node.parent.id in index
      modifies this`forkHeads
      ensures Pointed() && r == Done(())
      ensures forkHeads.Keys == old(forkHeads.Keys) + Childless(nodes, MetaOf(node).parent)
    {
      if exists x :: x in index && MetaOf(index[x]).parent == MetaOf(node).parent {
        return Done(());
      }
      if node.parent == null || node.parent.id !in index {
        return InternalError;
      }
      forkHeads := forkHeads[node.parent.id := index[node.parent.id]];
      r := Done(());
    }

    /** Discards a node that is there and is not the root. */
    method DiscardTree(id: Id, whitelist: set<Id>, ghost nodes: Nodes) returns (r: Outcome<()>)
      requires Sound() && root.parent == null && Links(nodes) && Rooted(nodes) && id in index && id != root.id
      modifies this`index, this`forkHeads
      ensures Pointed()
      ensures r == if head.id in DoomedSet(nodes, id, whitelist) then CannotDiscard else Done(())
      ensures r.CannotDiscard? ==>
                && index == old(index)
                && head.id in nodes
                && exists met ::
                     && MetBefore(nodes, id, whitelist, met, head.id)
                     && forkHeads.Keys == old(forkHeads.Keys) - met
      ensures r.Done? ==>
                && index == old(index) - DoomedSet(nodes, id, whitelist)
                && forkHeads.Keys == old(forkHeads.Keys) - DoomedSet(nodes, id, whitelist)
                                     + Childless(nodes - DoomedSet(nodes, id, whitelist), nodes[id].parent)
    {
      hide Tied, ShotsOf, AbsOf, DoomedSet, Rooted, Elements, Childless, MetBefore;
      TiedEntry(id);
      TiedEntry(root.id);
      NotTaken(nodes, id, whitelist);
      var node := index[id];
      ghost var gone := DoomedSet(nodes, id, whitelist);
      var queue := CollectDoomed(id, whitelist, nodes);
      if queue.None? {
        return CannotDiscard;
      }
      EraseAll(queue.value);
      r := RestoreForkHead(node, nodes - gone);
    }

    method DiscardLockless(id: Id, whitelist: set<Id>) returns (r: Outcome<()>)
      requires Sound() && root.parent == null
      modifies this`index, this`forkHeads
      ensures Pointed() && (Rooted(Abs().forest.nodes) ==> Sound())
      ensures forall x :: x in index ==> x in old(index) && index[x] == old(index)[x]
      ensures var was := old(Abs());
              && Rooted(was.forest.nodes)
              && if id !in was.forest.nodes then r == Done(()) && Abs() == was
                 else if id == root.id then r == IllegalArgument && Abs() == was
                 else if head.id in DoomedSet(was.forest.nodes, id, whitelist) then
                   && r == CannotDiscard && index == old(index) && head.id in was.forest.nodes
                   && exists met ::
                        && MetBefore(was.forest.nodes, id, whitelist, met, head.id)
                        && Abs() == Repointed(was, head.id, was.forest.forkHeads - met)
                 else r == Done(()) && Abs() == Dropped(was, id, whitelist)
    {
      hide Tied, ShotsOf, AbsOf, DoomedSet, Rooted, Dropped, Repointed, Childless, MetBefore;
      Entries();
      ghost var was, before, heads := Abs(), index, forkHeads.Keys;
      if id !in index {
        return Done(());
      }
      if id == root.id {
        return IllegalArgument;
      }
      r := DiscardTree(id, whitelist, was.forest.nodes);
      if r.CannotDiscard? {
        RepointedIs(was, heads);
      } else {
        DroppedIs(was, before, heads, id, whitelist);
      }
    }

    lemma RepointedIs(was: Db, heads: set<Id>)
      requires was == AbsOf(index, ShotsOf(index), root.id, head.id, heads)
      ensures Abs() == Repointed(was, head.id, forkHeads.Keys) && was.forest.forkHeads == heads
    {
      hide ShotsOf, Tied;
    }

    lemma DroppedIs(was: Db, before: Index, heads: set<Id>, id: Id, spared: set<Id>)
      requires Pointed() && Tied(before, ShotsOf(before)) && was == AbsOf(before, ShotsOf(before), root.id, head.id, heads)
      requires id in before && Rooted(was.forest.nodes)
      requires var nodes := was.forest.nodes;
               var gone := DoomedSet(nodes, id, spared);
               index == before - gone && forkHeads.Keys == heads - gone + Childless(nodes - gone, nodes[id].parent)
      ensures Abs() == Dropped(was, id, spared)
      ensures Rooted(Abs().forest.nodes) ==> Sound()
    {
      hide Tied, DoomedSet, Rooted, Childless;
      var nodes, shots := was.forest.nodes, ShotsOf(before);
      var gone := DoomedSet(nodes, id, spared);
      ShotsLeft(before, gone);
      SameMap(MetasBy(before - gone, shots - gone), nodes - gone);
      SameMap(DataBy(shots - gone), DataBy(shots) - gone);
      if Rooted(nodes - gone) {
        TiedDrops(before, shots, gone);
      }
    }

    /**
     * The root stays, the head blocks, anything else goes with its descendants. A call that the head
     * blocks has dropped the fork heads it met on the way.
     */
    method DiscardNode(id: Id) returns (r: Outcome<()>)
      requires Valid()
      modifies this`index, this`forkHeads
      ensures Valid()
      ensures r == if id == old(root.id) then IllegalArgument
                   else if Legal(algorithm, old(Abs()).forest, Discard(id)) then Done(())
                   else CannotDiscard
      ensures !r.CannotDiscard? ==> Legal(algorithm, old(Abs()).forest, Discard(id)) && Abs() == Step(algorithm, old(Abs()), Discard(id))
      ensures r.CannotDiscard? ==>
                && index == old(index)
                && exists met ::
                     Legal(algorithm, old(Abs()).forest, GiveUp(id, met)) && Abs() == Step(algorithm, old(Abs()), GiveUp(id, met))
    {
      hide DbInv, Tied, ShotsOf, AbsOf, DoomedSet, Rooted, Dropped, Subtree, Legal, Step, Repointed, MetBefore;
      Entries();
      ghost var was := Abs();
      RootHasNoParent();
      if id in was.forest.nodes && id != root.id {
        DiscardIsStep(algorithm, was, id);
      } else {
        NothingToDiscard(algorithm, was, id);
      }
      r := DiscardLockless(id, {});
      if r.CannotDiscard? {
        ghost var met :| MetBefore(was.forest.nodes, id, {}, met, head.id)
          && Abs() == Repointed(was, head.id, was.forest.forkHeads - met);
        GiveUpIsStep(algorithm, was, id, met);
      }
      ValidAgain();
    }

    lemma ValidAgain()
      requires Pointed() && (Rooted(Abs().forest.nodes) ==> Sound()) && DbInv(Abs())
      ensures Valid()
    {
    }

    lemma RootHasNoParent()
      requires Valid()
      ensures root.parent == null && forall d :: d in index.Values && d.parent == null ==> d == root
    {
      Entries();
      forall id | id in index && index[id].parent == null
        ensures index[id] == root
      {
        TiedEntry(id);
      }
      TiedEntry(root.id);
    }

    // ---------- commit ----------

    /** Flattens a node into the backend, which makes it the root; the old tree is still in the index. */
    method CutOff(id: Id)
      requires Valid() && id in index && id != root.id
      modifies this`root, index[id], root
      ensures Sound() && root == index[id] && root.parent == null && old(root).parent == null && root != old(root)
      ensures Abs() == CutOffAt(old(Abs()), id, old(root).Snapshot())
    {
      hide DbInv, Tied, ShotsOf, AbsOf, ViewOf, CutOffAt, Linked, Abstract, Injective, StateDelta.Visible, StateDelta.Bottom;
      ghost var was, shots, oldRoot := Abs(), ShotsOf(index), root;
      CanCutOff(id);
      ghost var view := index[id].Visible(index.Values);
      CommitDelta(index, id, root.id);
      root := index[id];
      CutOffIs(was, shots, id, oldRoot.id, view);
    }

    lemma CanCutOff(id: Id)
      requires Valid() && id in index && id != root.id
      ensures Injective(index) && Linked(index.Values) && index[id] in index.Values && Rooted(Abs().forest.nodes)
      ensures index[id].parent != null && index[root.id].parent == null && index[id].id == id && In(index, root) && index[id] != root
      ensures forall d :: d in index.Values && d.parent == null ==> d == index[root.id]
      ensures index[id].Visible(index.Values) == Abstract(Abs()).views[id]
      ensures ShotsOf(index).Keys == index.Keys
      ensures ShotsOf(index)[id] == ShotOf(index[id]) && ShotsOf(index)[root.id] == ShotOf(root)
    {
      hide DbInv, Tied, ShotsOf, AbsOf, ViewOf, Linked, Abstract, StateDelta.Visible;
      Entries();
      Distinct();
      SeesItsView(id);
      RootHasNoParent();
      TiedEntry(id);
      TiedEntry(root.id);
      ShotAt(index, id);
      ShotAt(index, root.id);
    }

    lemma CutOffIs(was: Db, shots: Shots, id: Id, oldRoot: Id, view: View)
      requires id in index && oldRoot in index && id != oldRoot && root == index[id] && In(index, head)
      requires (forall x :: x in forkHeads ==> x in index && forkHeads[x] == index[x]) && root.id == id
      requires Tied(index, shots) && was == AbsOf(index, shots, oldRoot, head.id, forkHeads.Keys) && DbInv(was)
      requires ShotsOf(index) == shots[id := ShotOf(index[id])][oldRoot := ShotOf(index[oldRoot])]
      requires ShotOf(index[id]) == Shot(null, shots[id].finalized, Delta(view, {}))
      requires index[oldRoot].parent == null && index[oldRoot].finalized == shots[oldRoot].finalized && shots[oldRoot].parent == null
      requires Rooted(was.forest.nodes) && view == Abstract(was).views[id]
      ensures Sound() && Abs() == CutOffAt(was, id, index[oldRoot].Snapshot())
    {
      hide MetasBy, DataBy, DbInv, ViewOf;
      var shot, rootShot := ShotOf(index[id]), ShotOf(index[oldRoot]);
      TiedReplaces(index, shots, id, shot);
      TiedReplaces(index, shots[id := shot], oldRoot, rootShot);
      MetaAt(index, shots, id);
      MetaAt(index, shots, oldRoot);
      var nodes := was.forest.nodes;
      SameMap(nodes[id := nodes[id].(parent := None)][oldRoot := nodes[oldRoot]], nodes[id := nodes[id].(parent := None)]);
    }

    /**
     * The root is committed already; a node with the head in its subtree becomes the root; for any
     * other node the call fails when the root has moved already, leaving two nodes without a parent.
     */
    method CommitNode(id: Id) returns (r: Outcome<()>)
      requires Valid()
      modifies this`root, this`index, this`forkHeads, root, if id in index then {index[id]} else {}
      ensures r == if id !in old(index) then IllegalArgument
                   else if Legal(algorithm, old(Abs()).forest, Commit(id)) then Done(())
                   else CannotDiscard
      ensures !r.CannotDiscard? ==> Valid() && Abs() == Step(algorithm, old(Abs()), Commit(id))
      ensures r.CannotDiscard? ==>
                && index == old(index) && id in index && root == index[id] && root != old(root) && In(index, old(root))
                && root.parent == null && old(root).parent == null && !Valid()
    {
      hide DbInv, Tied, ShotsOf, AbsOf, DoomedSet, Rooted, Dropped, Subtree, Legal, Step, Repointed, CutOffAt, MetBefore;
      Entries();
      ghost var was := Abs();
      if id !in index || id == root.id {
        NothingToCommit(algorithm, was, id);
        return if id == root.id then Done(()) else IllegalArgument;
      }
      var oldRoot := root;
      CutOff(id);
      CommitIsStep(algorithm, was, id, oldRoot.Snapshot());
      r := DiscardLockless(oldRoot.id, {id});
      if r.CannotDiscard? {
        OneRoot(oldRoot);
      } else {
        ValidAgain();
      }
    }

    lemma OneRoot(other: StateDelta)
      requires In(index, other) && other != root && other.parent == null
      ensures !Valid()
    {
      if Valid() {
        RootHasNoParent();
        assert false;
      }
    }
  }

  lemma NothingToCommit(algorithm: Algorithm, db: Db, id: Id)
    requires DbInv(db) && (id in db.forest.nodes ==> id == db.forest.root)
    ensures Rooted(db.forest.nodes) && Legal(algorithm, db.forest, Commit(id)) && Step(algorithm, db, Commit(id)) == db
  {
    if id in db.forest.nodes {
      RootReaches(db.forest, db.forest.head);
    }
  }

  lemma MetaAt(index: Index, shots: Shots, id: Id)
    requires shots.Keys == index.Keys && id in index
    ensures id in MetasBy(index, shots) && MetasBy(index, shots)[id] == MetaBy(index[id], shots[id])
  {
  }

  method CommitDelta(index: Index, id: Id, rootId: Id)
    requires Injective(index) && Linked(index.Values) && id in index && rootId in index && id != rootId
    requires index[id].parent != null
    requires forall d :: d in index.Values && d.parent == null ==> d == index[rootId]
    modifies index[id], index[rootId]
    ensures ShotsOf(index) == old(ShotsOf(index))[id := ShotOf(index[id])][rootId := ShotOf(index[rootId])]
    ensures ShotOf(index[id]) == old(Shot(null, index[id].finalized, Delta(index[id].Visible(index.Values), {})))
    ensures index[rootId].parent == null && index[rootId].finalized == old(index[rootId].finalized)
  {
    hide Linked, Flatten, StateDelta.Chain, StateDelta.Bottom;
    ghost var shots := ShotsOf(index);
    assert index[id].Bottom(index.Values) == index[rootId];
    index[id].Commit(index.Values);
    SameMap(ShotsOf(index), shots[id := ShotOf(index[id])][rootId := ShotOf(index[rootId])]);
  }

  lemma GiveUpIsStep(algorithm: Algorithm, db: Db, id: Id, met: set<Id>)
    requires DbInv(db) && Rooted(db.forest.nodes) && id in db.forest.nodes && id != db.forest.root
    requires MetBefore(db.forest.nodes, id, {}, met, db.forest.head)
    ensures Legal(algorithm, db.forest, GiveUp(id, met))
    ensures Step(algorithm, db, GiveUp(id, met)) == Repointed(db, db.forest.head, db.forest.forkHeads - met)
  {
  }

  lemma NothingToDiscard(algorithm: Algorithm, db: Db, id: Id)
    requires DbInv(db) && (id in db.forest.nodes ==> id == db.forest.root)
    ensures Rooted(db.forest.nodes) && Legal(algorithm, db.forest, Discard(id)) && Step(algorithm, db, Discard(id)) == db
  {
  }

  lemma ShotsLeft(index: Index, gone: set<Id>)
    ensures ShotsOf(index - gone) == ShotsOf(index) - gone
  {
  }

  ghost predicate Injective(index: Index) {
    forall x, y :: x in index && y in index && x != y ==> index[x] != index[y]
  }

  method SetFinalized(index: Index, id: Id)
    requires Injective(index) && id in index
    modifies index[id]
    ensures ShotsOf(index) == old(ShotsOf(index))[id := ShotOf(index[id])]
    ensures ShotOf(index[id]) == old(ShotOf(index[id])).(finalized := true)
    ensures old(ShotsOf(index)).Keys == index.Keys && old(ShotsOf(index))[id] == old(ShotOf(index[id]))
  {
    ghost var shots := ShotsOf(index);
    index[id].finalized := true;
    SameMap(ShotsOf(index), shots[id := ShotOf(index[id])]);
  }

  method WriteDelta(index: Index, id: Id, write: Write, c: Codec, space: ObjectSpace, key: Bytes) returns (r: Result<int>)
    requires Injective(index) && id in index && Linked(index.Values) && write.key == c.encode(space, key)
    modifies index[id]
    ensures r.Ok? <==> !old(index[id].finalized)
    ensures index[id].parent == old(index[id].parent) && index[id].finalized == old(index[id].finalized)
    ensures index[id].Snapshot() == if r.Ok? then old(Changed(index[id].Snapshot(), write, index[id].Visible(index.Values)))
                                    else old(index[id].Snapshot())
    ensures r.Ok? ==> r.value == BytesUsed(old(index[id].Visible(index.Values)), write)
    ensures ShotsOf(index) == old(ShotsOf(index))[id := ShotOf(index[id])]
  {
    hide Flatten, Size, BytesUsed, Linked, StateDelta.Chain;
    ghost var nodes, shots := index.Values, ShotsOf(index);
    BytesAreConserved(index[id].Visible(nodes), write);
    var handle := new StateNode(index[id]);
    if write.PutWrite? {
      r := handle.PutObject(c, space, key, write.value, nodes);
    } else {
      r := handle.RemoveObject(c, space, key, nodes);
    }
    SameMap(ShotsOf(index), shots[id := ShotOf(index[id])]);
  }

  method SquashInto(index: Index, id: Id, node: AnonymousNode) returns (r: Result<()>)
    requires Injective(index) && id in index && Linked(index.Values) && node.parent.state == index[id] && node.parent != node.handle
    requires node.Direct() && node.handle.state !in index.Values && node.handle.state.revision > index[id].revision
    modifies node.handle, index[id]
    ensures r.Ok? <==> !old(index[id].finalized)
    ensures index[id].parent == old(index[id].parent) && index[id].finalized == old(index[id].finalized)
    ensures index[id].Snapshot() == if r.Ok? then old(index[id].Snapshot()).Squashed(index[id].parent == null, old(node.handle.state.Snapshot()))
                                    else old(index[id].Snapshot())
    ensures ShotsOf(index) == old(ShotsOf(index))[id := ShotOf(index[id])]
    ensures r.Ok? ==> IsChild(node.handle.state, old(node.handle.state)) && !node.Direct()
  {
    ghost var shots := ShotsOf(index);
    r := node.Commit(index.Values + {node.handle.state});
    SameMap(ShotsOf(index), shots[id := ShotOf(index[id])]);
  }

  lemma WithSquashIs(was: Db, id: Id, child: Delta, meta: Meta, delta: Delta, squashed: bool)
    requires DbInv(was) && id in was.forest.nodes && meta == was.forest.nodes[id] && squashed == Writable(was.forest, id)
    requires delta == if squashed then was.deltas[id].Squashed(meta.parent == None, child) else was.deltas[id]
    ensures var next := Db(was.forest.(nodes := was.forest.nodes[id := meta]), was.deltas[id := delta]);
            DbInv(next) && next == if squashed then WithSquash(was, id, child) else was
  {
    SameMap(was.forest.nodes[id := meta], was.forest.nodes);
    if !squashed {
      SameMap(was.deltas[id := delta], was.deltas);
    }
  }

  lemma ShotAt(index: Index, id: Id)
    requires id in index
    ensures ShotsOf(index).Keys == index.Keys && ShotsOf(index)[id] == ShotOf(index[id])
  {
  }

  /** A database with another head and other fork heads. */
  function Repointed(db: Db, head: Id, forkHeads: set<Id>): Db {
    db.(forest := db.forest.(head := head, forkHeads := forkHeads))
  }

  /** A database with one node marked finalized. */
  function Marked(db: Db, id: Id): Db
    requires id in db.forest.nodes
  {
    db.(forest := db.forest.(nodes := db.forest.nodes[id := db.forest.nodes[id].(finalized := true)]))
  }

  lemma AbsView(db: Db, index: Index, shots: Shots, root: Id, head: Id, forkHeads: set<Id>, id: Id)
    requires DbInv(db) && Tied(index, shots) && id in index && db == AbsOf(index, shots, root, head, forkHeads)
    ensures Rooted(MetasBy(index, shots)) && DataBy(shots).Keys == MetasBy(index, shots).Keys
    ensures id in db.forest.nodes && Abstract(db).views[id] == ViewOf(MetasBy(index, shots), DataBy(shots), id)
    ensures ViewOf(MetasBy(index, shots), DataBy(shots), id) == ViewOf(db.forest.nodes, db.deltas, id)
  {
    TiedIsRooted(index, shots);
  }

  lemma WithWriteIs(was: Db, id: Id, write: Write, meta: Meta, delta: Delta, written: bool)
    requires DbInv(was) && id in was.forest.nodes && meta == was.forest.nodes[id]
    requires delta == if written then Changed(was.deltas[id], write, Abstract(was).views[id]) else was.deltas[id]
    ensures var next := Db(was.forest.(nodes := was.forest.nodes[id := meta]), was.deltas[id := delta]);
            DbInv(next) && next == if written then WithWrite(was, id, write) else was
  {
    SameMap(was.forest.nodes[id := meta], was.forest.nodes);
    if !written {
      SameMap(was.deltas[id := delta], was.deltas);
    }
  }

  ghost function FinalizedDb(algorithm: Algorithm, db: Db, id: Id): (next: Db)
    requires DbInv(db) && id in db.forest.nodes && Decidable(algorithm, db.forest.nodes[db.forest.head], db.forest.nodes[id])
    ensures DbInv(next)
  {
    InvIsRooted(db.forest);
    FinalizeKeepsInv(algorithm, db.forest, id);
    db.(forest := Finalized(algorithm, db.forest, id))
  }

  lemma FinalizeStep(algorithm: Algorithm, db: Db, id: Id)
    requires DbInv(db) && Rooted(db.forest.nodes) && Legal(algorithm, db.forest, Finalize(id))
    ensures id in db.forest.nodes ==>
              && db.forest.head in db.forest.nodes && db.forest.forkHeads <= db.forest.nodes.Keys
              && Decidable(algorithm, db.forest.nodes[db.forest.head], db.forest.nodes[id])
    ensures Step(algorithm, db, Finalize(id)) == if id in db.forest.nodes then FinalizedDb(algorithm, db, id) else db
  {
  }

  /** Marking the node, then updating the head, then the fork heads makes up the whole change. */
  lemma FinalizedDbIs(algorithm: Algorithm, db: Db, id: Id, newHead: Id, heads: set<Id>, newHeads: set<Id>)
    requires DbInv(db) && id in db.forest.nodes && Decidable(algorithm, db.forest.nodes[db.forest.head], db.forest.nodes[id])
    requires Rooted(db.forest.nodes) && db.forest.head in db.forest.nodes && db.forest.forkHeads <= db.forest.nodes.Keys
    requires var f, choice := db.forest, HeadChoice(algorithm, db.forest, id);
             && newHead == (if choice.Some? then choice.value else f.nodes[f.head].parent.value)
             && heads == (if choice.Some? then f.forkHeads else f.forkHeads - {f.head} + {newHead})
    requires var parent := db.forest.nodes[id].parent;
             newHeads == if parent == Some(newHead) then heads
                         else (if parent.Some? then heads - {parent.value} else heads) + {id}
    ensures Repointed(Repointed(Marked(db, id), newHead, heads), newHead, newHeads) == FinalizedDb(algorithm, db, id)
  {
  }

  lemma NotBelowRoot(db: Db, id: Id)
    requires DbInv(db) && id in db.forest.nodes && db.forest.nodes[id].revision > db.forest.nodes[db.forest.root].revision
    ensures Rooted(db.forest.nodes)
    ensures db.forest.nodes[id].parent.Some? && AncestorOrSelf(db.forest.nodes, db.forest.nodes[id].parent.value, id)
  {
  }

  lemma AncestorOfItself(f: Forest)
    requires Rooted(f.nodes)
    ensures forall x :: x in f.nodes ==> AncestorOrSelf(f.nodes, x, x)
  {
  }
}
