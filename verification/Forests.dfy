/**
 * The fork tree without its data: which nodes exist, who their parents are, what is finalized, and
 * where the root, the head and the fork heads are. Every database call is a step on it.
 */
module Forests {
  import opened ByteStrings
  import opened Deltas
  import opened StateDeltas
  import opened Trees
  import opened Queues

  datatype Forest = Forest(nodes: Nodes, root: Id, head: Id, forkHeads: set<Id>)

  datatype Algorithm = Fifo | BlockTime | Pob

  // ---------- the tree ----------

  ghost predicate TreeInv(f: Forest) {
    && Rooted(f.nodes)
    && f.root in f.nodes && f.nodes[f.root].finalized
    && (forall x :: x in f.nodes ==> (f.nodes[x].parent.None? <==> x == f.root))
    && (forall x :: x in f.nodes && f.nodes[x].parent.Some? ==> f.nodes[f.nodes[x].parent.value].finalized)
  }

  /** Every node descends from the root. */
  lemma {:induction false} RootReaches(f: Forest, x: Id)
    requires TreeInv(f) && x in f.nodes
    ensures AncestorOrSelf(f.nodes, f.root, x)
    ensures f.nodes[f.root].revision <= f.nodes[x].revision
    decreases f.nodes[x].revision
  {
    if x != f.root {
      RootReaches(f, f.nodes[x].parent.value);
    }
  }

  // ---------- choosing a head ----------

  /** The order pob sorts by: higher revision, then earlier time, then smaller id. */
  predicate Prior(a: Id, ma: Meta, b: Id, mb: Meta) {
    || ma.revision > mb.revision
    || (ma.revision == mb.revision && ma.header.timestamp < mb.header.timestamp)
    || (ma.revision == mb.revision && ma.header.timestamp == mb.header.timestamp && a.value < b.value)
  }

  /** What comes first is at least as high, at one height no later, and at one height and time has the smaller id. */
  lemma PriorPrefers(a: Id, ma: Meta, b: Id, mb: Meta)
    requires Prior(a, ma, b, mb)
    ensures ma.revision >= mb.revision
    ensures ma.revision == mb.revision ==> ma.header.timestamp <= mb.header.timestamp
    ensures ma.revision == mb.revision && ma.header.timestamp == mb.header.timestamp ==> a.value < b.value
  {
  }

  /** It is a strict total order on nodes with distinct ids. */
  lemma PriorIsStrictTotalOrder(a: Id, ma: Meta, b: Id, mb: Meta, c: Id, mc: Meta)
    ensures !Prior(a, ma, a, ma)
    ensures Prior(a, ma, b, mb) && Prior(b, mb, c, mc) ==> Prior(a, ma, c, mc)
    ensures a != b ==> (Prior(a, ma, b, mb) <==> !Prior(b, mb, a, ma))
  {
  }

  ghost predicate IsBest(nodes: Nodes, among: set<Id>, b: Id) {
    b in among && b in nodes && forall o :: o in among && o in nodes && o != b ==> Prior(b, nodes[b], o, nodes[o])
  }

  lemma {:induction false} BestExists(nodes: Nodes, among: set<Id>)
    requires among != {} && among <= nodes.Keys
    ensures exists b :: IsBest(nodes, among, b)
  {
    var x :| x in among;
    if among == {x} {
      assert IsBest(nodes, among, x);
    } else {
      BestExists(nodes, among - {x});
      var y :| IsBest(nodes, among - {x}, y);
      assert IsBest(nodes, among, if Prior(x, nodes[x], y, nodes[y]) then x else y);
    }
  }

  ghost function Best(nodes: Nodes, among: set<Id>): (b: Id)
    requires among != {} && among <= nodes.Keys
    ensures IsBest(nodes, among, b)
  {
    BestExists(nodes, among);
    var b :| IsBest(nodes, among, b);
    b
  }

  lemma BestIs(nodes: Nodes, among: set<Id>, b: Id)
    requires among <= nodes.Keys && IsBest(nodes, among, b)
    ensures Best(nodes, among) == b
  {
    var best := Best(nodes, among);
    assert best != b ==> Prior(best, nodes[best], b, nodes[b]);
  }

  /** Under pob: the head's signer has produced another node as high. */
  predicate Double(algorithm: Algorithm, head: Meta, node: Meta) {
    algorithm.Pob? && node.revision == head.revision && node.header.signer == head.header.signer
  }

  /** Only a double production asks for the head's parent, so only there must the head have one. */
  predicate Decidable(algorithm: Algorithm, head: Meta, node: Meta) {
    Double(algorithm, head, node) ==> head.parent.Some?
  }

  /** The comparator's answer for a node as high as the head; none means: fall back to the head's parent. */
  ghost function Choose(algorithm: Algorithm, f: Forest, id: Id): Option<Id>
    requires id in f.nodes && f.head in f.nodes && Rooted(f.nodes) && f.forkHeads <= f.nodes.Keys
    requires f.nodes[id].revision == f.nodes[f.head].revision && Decidable(algorithm, f.nodes[f.head], f.nodes[id])
  {
    var node, head := f.nodes[id], f.nodes[f.head];
    if algorithm.Fifo? then Some(f.head)
    else if algorithm.BlockTime? || node.header.signer != head.header.signer then
      Some(if node.header.timestamp < head.header.timestamp then id else f.head)
    else
      var others := f.forkHeads - {f.head};
      if others == {} then None
      else
        var b := Best(f.nodes, others);
        if Prior(head.parent.value, f.nodes[head.parent.value], b, f.nodes[b]) then None else Some(b)
  }

  // ---------- the calls ----------

  datatype Op =
    | Create(parent: Id, id: Id, header: Header)
    | Clone(source: Id, id: Id, header: Header)
    | Put(id: Id, key: Bytes, value: Bytes)
    | Remove(id: Id, key: Bytes)
    | Squash(id: Id, delta: Delta)
    | Finalize(id: Id)
    | Discard(id: Id)
    | GiveUp(id: Id, met: set<Id>)
    | Commit(id: Id)

  predicate Creates(f: Forest, op: Op) {
    op.Create? && op.parent in f.nodes && f.nodes[op.parent].finalized && op.id !in f.nodes
  }

  predicate Clones(f: Forest, op: Op) {
    op.Clone? && op.source in f.nodes && !f.nodes[op.source].finalized && op.id !in f.nodes
  }

  /** The head after a node is finalized; none means the head falls back to its parent. */
  ghost function HeadChoice(algorithm: Algorithm, f: Forest, id: Id): (choice: Option<Id>)
    requires id in f.nodes && f.head in f.nodes && Rooted(f.nodes) && f.forkHeads <= f.nodes.Keys
    requires Decidable(algorithm, f.nodes[f.head], f.nodes[id])
    ensures choice.None? ==> f.nodes[f.head].parent.Some?
  {
    var node, head := f.nodes[id], f.nodes[f.head];
    if node.revision > head.revision then Some(id)
    else if node.revision == head.revision then Choose(algorithm, f, id)
    else Some(f.head)
  }

  ghost function Finalized(algorithm: Algorithm, f: Forest, id: Id): Forest
    requires id in f.nodes && f.head in f.nodes && Rooted(f.nodes) && f.forkHeads <= f.nodes.Keys
    requires Decidable(algorithm, f.nodes[f.head], f.nodes[id])
  {
    var node, choice := f.nodes[id], HeadChoice(algorithm, f, id);
    var newHead := if choice.Some? then choice.value else f.nodes[f.head].parent.value;
    var heads := if choice.Some? then f.forkHeads else f.forkHeads - {f.head} + {newHead};
    Forest(f.nodes[id := node.(finalized := true)], f.root, newHead,
           if node.parent == Some(newHead) then heads
           else (if node.parent.Some? then heads - {node.parent.value} else heads) + {id})
  }

  ghost function Discarded(f: Forest, id: Id): Forest
    requires id in f.nodes && Rooted(f.nodes)
  {
    var gone := Subtree(f.nodes, id);
    var left := f.nodes - gone;
    var parent := f.nodes[id].parent;
    Forest(left, f.root, f.head,
           (f.forkHeads - gone) + if parent.Some? && Children(left, parent.value) == {} then {parent.value} else {})
  }

  ghost function Committed(f: Forest, id: Id): Forest
    requires id in f.nodes && Rooted(f.nodes)
  {
    var kept := Subtree(f.nodes, id);
    Forest(map x | x in kept :: if x == id then f.nodes[x].(parent := None) else f.nodes[x],
           id, f.head, f.forkHeads * kept)
  }

  /**
   * The calls that end in a sound database: everything but a commit away from the head, and but the
   * one finalize that would look for the parent of the root. A discard that fails at the head is a
   * call of its own, which drops the fork heads it met.
   */
  ghost predicate Legal(algorithm: Algorithm, f: Forest, op: Op)
    requires Rooted(f.nodes)
  {
    match op
    case Finalize(id) => id in f.nodes && f.head in f.nodes ==> Decidable(algorithm, f.nodes[f.head], f.nodes[id])
    case Discard(id) => id != f.root && id in f.nodes ==> f.head !in Subtree(f.nodes, id)
    case GiveUp(id, met) =>
      id != f.root && id in f.nodes && MetBefore(f.nodes, id, {}, met, f.head)
    case Commit(id) => id in f.nodes ==> f.head in Subtree(f.nodes, id)
    case _ => true
  }

  ghost function ForestStep(algorithm: Algorithm, f: Forest, op: Op): Forest
    requires Inv(f) && Legal(algorithm, f, op)
  {
    match op
    case Create(parent, id, header) =>
      if Creates(f, op) then f.(nodes := f.nodes[id := Meta(Some(parent), f.nodes[parent].revision + 1, false, header)]) else f
    case Clone(source, id, header) =>
      if Clones(f, op) then f.(nodes := f.nodes[id := f.nodes[source].(header := header)]) else f
    case Finalize(id) =>
      if id in f.nodes then Finalized(algorithm, f, id) else f
    case Discard(id) => if id in f.nodes && id != f.root then Discarded(f, id) else f
    case GiveUp(_, met) => f.(forkHeads := f.forkHeads - met)
    case Commit(id) => if id in f.nodes && id != f.root then Committed(f, id) else f
    case _ => f
  }

  // ---------- invariants ----------

  /** The tree is sound, and the head and the fork heads are finalized nodes of it, the head being a fork head. */
  ghost predicate Inv(f: Forest) {
    && TreeInv(f)
    && f.head in f.forkHeads
    && forall x :: x in f.forkHeads ==> x in f.nodes && f.nodes[x].finalized
  }

  lemma FinalizedNodes(algorithm: Algorithm, f: Forest, id: Id)
    requires Inv(f) && id in f.nodes && Decidable(algorithm, f.nodes[f.head], f.nodes[id])
    ensures Finalized(algorithm, f, id).nodes == f.nodes[id := f.nodes[id].(finalized := true)]
  {
  }

  lemma InvIsRooted(f: Forest)
    requires Inv(f)
    ensures Rooted(f.nodes) && f.head in f.nodes && f.root in f.nodes
    ensures forall x :: x in f.nodes && !f.nodes[x].finalized ==> f.nodes[x].parent.Some?
  {
  }

  /** Finalizing would look for the root's parent exactly when pob is asked to finalize the root again while it is head. */
  lemma DecidableIff(algorithm: Algorithm, f: Forest, id: Id)
    requires Inv(f) && id in f.nodes
    ensures Decidable(algorithm, f.nodes[f.head], f.nodes[id]) <==> !(algorithm.Pob? && f.head == f.root && id == f.root)
  {
    RootReaches(f, id);
    if id != f.root {
      RootReaches(f, f.nodes[id].parent.value);
    }
  }

  lemma StepKeepsInv(algorithm: Algorithm, f: Forest, op: Op)
    requires Inv(f) && Legal(algorithm, f, op)
    ensures Inv(ForestStep(algorithm, f, op))
  {
    match op
    case Create(_, _, _) => CreateKeepsInv(algorithm, f, op);
    case Clone(_, _, _) => CloneKeepsInv(algorithm, f, op);
    case Finalize(id) =>
      if id in f.nodes {
        FinalizeKeepsInv(algorithm, f, id);
      }
    case Discard(id) =>
      if id in f.nodes && id != f.root {
        DiscardKeepsInv(f, id);
      }
    case GiveUp(id, met) => MetBeforeStop(f.nodes, id, {}, met, f.head);
    case Commit(id) =>
      if id in f.nodes && id != f.root {
        CommitKeepsInv(f, id);
      }
    case _ =>
  }

  lemma CreateKeepsInv(algorithm: Algorithm, f: Forest, op: Op)
    requires Inv(f) && op.Create?
    ensures Inv(ForestStep(algorithm, f, op))
  {
  }

  lemma CloneKeepsInv(algorithm: Algorithm, f: Forest, op: Op)
    requires Inv(f) && op.Clone?
    ensures Inv(ForestStep(algorithm, f, op))
  {
  }

  /** Also for a node that was finalized before, as long as the comparator can decide. */
  lemma FinalizeKeepsInv(algorithm: Algorithm, f: Forest, id: Id)
    requires Inv(f) && id in f.nodes && Decidable(algorithm, f.nodes[f.head], f.nodes[id])
    ensures Inv(Finalized(algorithm, f, id))
  {
    FinalizedNodes(algorithm, f, id);
    FinalizedHeads(algorithm, f, id);
    hide Finalized;
    FinalizedTree(f, Finalized(algorithm, f, id), id);
  }

  lemma FinalizedTree(f: Forest, g: Forest, id: Id)
    requires TreeInv(f) && id in f.nodes && g.nodes == f.nodes[id := f.nodes[id].(finalized := true)] && g.root == f.root
    ensures TreeInv(g)
  {
  }

  lemma FinalizedHeads(algorithm: Algorithm, f: Forest, id: Id)
    requires Inv(f) && id in f.nodes && Decidable(algorithm, f.nodes[f.head], f.nodes[id])
    ensures var g, parent := Finalized(algorithm, f, id), f.nodes[f.head].parent;
            && g.root == f.root && g.head in g.forkHeads
            && g.forkHeads <= f.forkHeads + {id} + if parent.Some? then {parent.value} else {}
  {
    HeadStays(algorithm, f, id);
    hide HeadChoice;
  }

  lemma HeadStays(algorithm: Algorithm, f: Forest, id: Id)
    requires Inv(f) && id in f.nodes && Decidable(algorithm, f.nodes[f.head], f.nodes[id])
    ensures var choice := HeadChoice(algorithm, f, id); choice.Some? ==> choice.value in f.forkHeads + {id}
    ensures f.nodes[id].parent.Some? && f.nodes[id].parent.value == f.head ==> HeadChoice(algorithm, f, id) == Some(id)
    ensures f.nodes[id].parent != Some(id)
  {
  }

  lemma DiscardKeepsInv(f: Forest, id: Id)
    requires Inv(f) && id in f.nodes && id != f.root && f.head !in Subtree(f.nodes, id)
    ensures Inv(Discarded(f, id))
  {
    var gone := Subtree(f.nodes, id);
    var p := f.nodes[id].parent.value;
    if p in gone {
      AncestorIsLower(f.nodes, id, p);
    }
    if f.root in gone {
      AncestorIsLower(f.nodes, id, f.root);
    }
    forall x | x in f.nodes && x !in gone && f.nodes[x].parent.Some?
      ensures f.nodes[x].parent.value !in gone
    {
    }
  }

  lemma CommitKeepsInv(f: Forest, id: Id)
    requires Inv(f) && id in f.nodes && id != f.root && f.head in Subtree(f.nodes, id)
    ensures Inv(Committed(f, id))
    ensures f.nodes[id].finalized
  {
    if id != f.head {
      var c := ChildTowards(f.nodes, id, f.head);
    }
    forall x | x in Subtree(f.nodes, id) && x != id
      ensures f.nodes[x].parent.value in Subtree(f.nodes, id)
    {
    }
  }
}
