/** What a discard and a commit leave of the database. */
module Discards {
  import opened Deltas
  import opened StateDeltas
  import opened Trees
  import opened Queues
  import opened Forests
  import opened Runs

  // ---------- commit discards from the old root ----------

  /** With the committed node cut off, discarding the old root takes everything outside its subtree. */
  lemma CommitDooms(f: Forest, id: Id, cut: Nodes)
    requires Inv(f) && id in f.nodes && id != f.root && cut == f.nodes[id := f.nodes[id].(parent := None)]
    ensures Rooted(cut) && DoomedSet(cut, f.root, {id}) == f.nodes.Keys - Subtree(f.nodes, id)
  {
    forall x | x in f.nodes
      ensures Rooted(cut) && Doomed(cut, f.root, {id}, x) <==> !AncestorOrSelf(f.nodes, id, x)
    {
      CutOff(f, id, cut, x);
    }
  }

  lemma {:induction false} CutOff(f: Forest, id: Id, cut: Nodes, x: Id)
    requires Inv(f) && id in f.nodes && id != f.root && cut == f.nodes[id := f.nodes[id].(parent := None)]
    requires x in f.nodes
    ensures Rooted(cut) && (Doomed(cut, f.root, {id}, x) <==> !AncestorOrSelf(f.nodes, id, x))
    decreases f.nodes[x].revision
  {
    if x != id && x != f.root {
      CutOff(f, id, cut, f.nodes[x].parent.value);
    }
  }

  // ---------- the database without what is taken ----------

  /** A parent left without children becomes a fork head again. */
  ghost function Dropped(db: Db, id: Id, spared: set<Id>): Db
    requires Rooted(db.forest.nodes) && id in db.forest.nodes
  {
    var f := db.forest;
    var gone := DoomedSet(f.nodes, id, spared);
    Db(Forest(f.nodes - gone, f.root, f.head, (f.forkHeads - gone) + Childless(f.nodes - gone, f.nodes[id].parent)),
       db.deltas - gone)
  }

  ghost function Childless(nodes: Nodes, id: Option<Id>): set<Id> {
    if id.Some? && Children(nodes, id.value) == {} then {id.value} else {}
  }

  lemma DiscardIsStep(algorithm: Algorithm, db: Db, id: Id)
    requires DbInv(db) && id in db.forest.nodes && id != db.forest.root
    ensures Rooted(db.forest.nodes) && DoomedSet(db.forest.nodes, id, {}) == Subtree(db.forest.nodes, id)
    ensures Legal(algorithm, db.forest, Op.Discard(id)) <==> db.forest.head !in DoomedSet(db.forest.nodes, id, {})
    ensures Legal(algorithm, db.forest, Op.Discard(id)) ==> Step(algorithm, db, Op.Discard(id)) == Dropped(db, id, {})
  {
    SparingNobodyTakesAll(db.forest.nodes, id);
  }

  /** A database whose new root is cut off and holds its whole view, the old tree being still there. */
  ghost function CutOffAt(db: Db, id: Id, oldRoot: Delta): Db
    requires DbInv(db) && id in db.forest.nodes
  {
    var f := db.forest;
    Db(f.(nodes := f.nodes[id := f.nodes[id].(parent := None)], root := id),
       db.deltas[id := Delta(ViewOf(f.nodes, db.deltas, id), {})][f.root := oldRoot])
  }

  lemma CommitIsStep(algorithm: Algorithm, db: Db, id: Id, oldRoot: Delta)
    requires DbInv(db) && id in db.forest.nodes && id != db.forest.root
    ensures var cut := CutOffAt(db, id, oldRoot);
            && Rooted(cut.forest.nodes) && db.forest.root in cut.forest.nodes
            && (Legal(algorithm, db.forest, Op.Commit(id)) <==> db.forest.head !in DoomedSet(cut.forest.nodes, db.forest.root, {id}))
            && (Legal(algorithm, db.forest, Op.Commit(id)) ==>
                  Step(algorithm, db, Op.Commit(id)) == Dropped(cut, db.forest.root, {id}))
  {
    var f, cut := db.forest, CutOffAt(db, id, oldRoot);
    CommitDooms(f, id, cut.forest.nodes);
    RootsMeta(f, id);
    if Legal(algorithm, f, Op.Commit(id)) {
      CommittedIsDropped(db, id, oldRoot);
      assert Step(algorithm, db, Op.Commit(id)) == Db(Committed(f, id), CommittedDeltas(f.nodes, db.deltas, id)) by {
        hide Committed, CommittedDeltas, Inv, Subtree;
      }
    }
  }

  lemma CommittedIsDropped(db: Db, id: Id, oldRoot: Delta)
    requires DbInv(db) && id in db.forest.nodes && id != db.forest.root
    ensures var cut := CutOffAt(db, id, oldRoot);
            && Rooted(cut.forest.nodes) && db.forest.root in cut.forest.nodes
            && Dropped(cut, db.forest.root, {id}) == Db(Committed(db.forest, id), CommittedDeltas(db.forest.nodes, db.deltas, id))
  {
    hide Inv, DoomedSet, ViewOf, Rooted, Subtree, Committed, CommittedDeltas;
    var f, cut := db.forest, CutOffAt(db, id, oldRoot);
    RootsMeta(f, id);
    CommitDooms(f, id, cut.forest.nodes);
    CommittedForest(f, id);
    CommittedData(f, db.deltas, id, oldRoot);
  }

  lemma CommittedForest(f: Forest, id: Id)
    requires Rooted(f.nodes) && id in f.nodes && id in Subtree(f.nodes, id) && f.forkHeads <= f.nodes.Keys
    ensures var gone := f.nodes.Keys - Subtree(f.nodes, id);
            Forest(f.nodes[id := f.nodes[id].(parent := None)] - gone, id, f.head, f.forkHeads - gone) == Committed(f, id)
  {
    SubtreeWithin(f.nodes, id);
    hide Rooted, Subtree;
    SameKept(f.nodes[id := f.nodes[id].(parent := None)], Committed(f, id).nodes, Subtree(f.nodes, id));
    assert f.forkHeads - (f.nodes.Keys - Subtree(f.nodes, id)) == f.forkHeads * Subtree(f.nodes, id);
  }

  lemma CommittedData(f: Forest, deltas: map<Id, Delta>, id: Id, oldRoot: Delta)
    requires Rooted(f.nodes) && deltas.Keys == f.nodes.Keys && id in f.nodes && f.root in f.nodes
    requires id in Subtree(f.nodes, id) && f.root !in Subtree(f.nodes, id)
    ensures deltas[id := Delta(ViewOf(f.nodes, deltas, id), {})][f.root := oldRoot] - (f.nodes.Keys - Subtree(f.nodes, id))
            == CommittedDeltas(f.nodes, deltas, id)
  {
    SubtreeWithin(f.nodes, id);
    hide Rooted, Subtree, ViewOf;
    SameKept(deltas[id := Delta(ViewOf(f.nodes, deltas, id), {})][f.root := oldRoot],
             CommittedDeltas(f.nodes, deltas, id), Subtree(f.nodes, id));
  }

  lemma SubtreeWithin(nodes: Nodes, id: Id)
    requires Rooted(nodes)
    ensures Subtree(nodes, id) <= nodes.Keys
  {
  }

  lemma RootsMeta(f: Forest, id: Id)
    requires Inv(f) && id in f.nodes && id != f.root
    ensures Rooted(f.nodes) && f.root in f.nodes && f.head in f.nodes && f.forkHeads <= f.nodes.Keys
    ensures f.nodes[f.root].parent == None && id in Subtree(f.nodes, id) && f.root !in Subtree(f.nodes, id)
  {
  }

  lemma SameKept<T>(all: map<Id, T>, kept: map<Id, T>, ids: set<Id>)
    requires kept.Keys == ids <= all.Keys && forall id :: id in ids ==> kept[id] == all[id]
    ensures all - (all.Keys - ids) == kept
  {
  }
}
