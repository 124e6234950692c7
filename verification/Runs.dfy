/**
 * The database as a value, stepped by its calls, next to a naive database in which every node holds
 * its own full copy of the state.
 */
module Runs {
  import opened ByteStrings
  import opened Deltas
  import opened StateDeltas
  import opened StateNodes
  import opened Trees
  import opened Queues
  import opened Forests
  import opened ForkChoice

  datatype Db = Db(forest: Forest, deltas: map<Id, Delta>)

  ghost predicate DbInv(db: Db) {
    Inv(db.forest) && db.deltas.Keys == db.forest.nodes.Keys
  }

  /** What a reader of a node sees. */
  ghost function ViewOf(nodes: Nodes, deltas: map<Id, Delta>, id: Id): View
    requires Rooted(nodes) && deltas.Keys == nodes.Keys && id in nodes
    decreases nodes[id].revision
  {
    var parent := nodes[id].parent;
    Apply(if parent.Some? then ViewOf(nodes, deltas, parent.value) else map[], deltas[id])
  }

  lemma ViewStep(nodes: Nodes, deltas: map<Id, Delta>, id: Id)
    requires Rooted(nodes) && deltas.Keys == nodes.Keys && id in nodes
    ensures ViewOf(nodes, deltas, id) ==
            Apply(if nodes[id].parent.Some? then ViewOf(nodes, deltas, nodes[id].parent.value) else map[], deltas[id])
  {
  }

  predicate Writable(f: Forest, id: Id) {
    id in f.nodes && !f.nodes[id].finalized
  }

  ghost function Step(algorithm: Algorithm, db: Db, op: Op): (next: Db)
    requires DbInv(db) && Legal(algorithm, db.forest, op)
    ensures DbInv(next) && next.forest == ForestStep(algorithm, db.forest, op)
  {
    StepKeepsInv(algorithm, db.forest, op);
    InvIsRooted(db.forest);
    StepKeys(algorithm, db.forest, db.deltas, op);
    Db(ForestStep(algorithm, db.forest, op), StepDeltas(db.forest, db.deltas, op))
  }

  /** What a call does to the deltas. */
  ghost function StepDeltas(f: Forest, deltas: map<Id, Delta>, op: Op): map<Id, Delta>
    requires Rooted(f.nodes) && deltas.Keys == f.nodes.Keys
  {
    match op
    case Create(_, id, _) => if Creates(f, op) then deltas[id := EMPTY_DELTA] else deltas
    case Clone(source, id, _) => if Clones(f, op) then deltas[id := deltas[source]] else deltas
    case Put(id, key, value) => if Writable(f, id) then deltas[id := deltas[id].Put(key, value)] else deltas
    case Remove(id, key) =>
      if Writable(f, id) then deltas[id := deltas[id].Erase(key, key in ViewOf(f.nodes, deltas, id))] else deltas
    case Squash(id, delta) => if Writable(f, id) then deltas[id := deltas[id].Squashed(false, delta)] else deltas
    case Finalize(_) => deltas
    case GiveUp(_, _) => deltas
    case Discard(id) => if id in f.nodes && id != f.root then deltas - Subtree(f.nodes, id) else deltas
    case Commit(id) => if id in f.nodes && id != f.root then CommittedDeltas(f.nodes, deltas, id) else deltas
  }

  lemma StepKeys(algorithm: Algorithm, f: Forest, deltas: map<Id, Delta>, op: Op)
    requires Inv(f) && Rooted(f.nodes) && Legal(algorithm, f, op) && deltas.Keys == f.nodes.Keys
    ensures StepDeltas(f, deltas, op).Keys == ForestStep(algorithm, f, op).nodes.Keys
  {
    hide Subtree, Rooted, ViewOf, MetBefore, HeadChoice;
  }

  /** The committed node holds its whole view; the deltas above it are as they were; the rest is gone. */
  ghost function CommittedDeltas(nodes: Nodes, deltas: map<Id, Delta>, id: Id): map<Id, Delta>
    requires Rooted(nodes) && deltas.Keys == nodes.Keys && id in nodes
  {
    map x | x in Subtree(nodes, id) :: if x == id then Delta(ViewOf(nodes, deltas, id), {}) else deltas[x]
  }

  /** A database with one more node. */
  function WithNode(db: Db, id: Id, meta: Meta, delta: Delta): Db {
    Db(db.forest.(nodes := db.forest.nodes[id := meta]), db.deltas[id := delta])
  }

  lemma CreateStep(algorithm: Algorithm, db: Db, op: Op)
    requires DbInv(db) && op.Create?
    ensures Step(algorithm, db, op) ==
            if Creates(db.forest, op) then
              WithNode(db, op.id, Meta(Some(op.parent), db.forest.nodes[op.parent].revision + 1, false, op.header), EMPTY_DELTA)
            else db
  {
  }

  lemma CloneStep(algorithm: Algorithm, db: Db, op: Op)
    requires DbInv(db) && op.Clone?
    ensures Step(algorithm, db, op) ==
            if Clones(db.forest, op) then
              WithNode(db, op.id, db.forest.nodes[op.source].(header := op.header), db.deltas[op.source])
            else db
  {
  }

  /** What a write does to the delta it reaches, given what the node's reader sees. */
  function Changed(delta: Delta, write: Write, view: View): Delta {
    match write
    case PutWrite(key, value) => delta.Put(key, value)
    case RemoveWrite(key) => delta.Erase(key, key in view)
  }

  ghost function WithWrite(db: Db, id: Id, write: Write): (next: Db)
    requires DbInv(db) && id in db.forest.nodes
    ensures DbInv(next)
  {
    db.(deltas := db.deltas[id := Changed(db.deltas[id], write, ViewOf(db.forest.nodes, db.deltas, id))])
  }

  /** A database in which a delta has been folded into a node. */
  function WithSquash(db: Db, id: Id, delta: Delta): Db
    requires id in db.deltas
  {
    db.(deltas := db.deltas[id := db.deltas[id].Squashed(false, delta)])
  }

  lemma SquashStep(algorithm: Algorithm, db: Db, id: Id, delta: Delta)
    requires DbInv(db)
    ensures Step(algorithm, db, Op.Squash(id, delta)) == if Writable(db.forest, id) then WithSquash(db, id, delta) else db
  {
  }

  lemma WriteStep(algorithm: Algorithm, db: Db, op: Op)
    requires DbInv(db) && (op.Put? || op.Remove?)
    ensures Step(algorithm, db, op) ==
            if Writable(db.forest, op.id) then
              WithWrite(db, op.id, if op.Put? then PutWrite(op.key, op.value) else RemoveWrite(op.key))
            else db
  {
  }

  // ---------- the naive database ----------

  /** Every node holds a full snapshot of its own. */
  datatype Naive = Naive(forest: Forest, views: map<Id, View>)

  ghost predicate NaiveInv(n: Naive) {
    Inv(n.forest) && n.views.Keys == n.forest.nodes.Keys
  }

  ghost function Abstract(db: Db): Naive
    requires DbInv(db)
  {
    Naive(db.forest, map id | id in db.forest.nodes :: ViewOf(db.forest.nodes, db.deltas, id))
  }

  function Restrict(views: map<Id, View>, ids: set<Id>): map<Id, View> {
    map x | x in ids && x in views :: views[x]
  }

  /** A naive step copies, changes or drops whole snapshots. */
  ghost function NaiveStep(algorithm: Algorithm, n: Naive, op: Op): (next: Naive)
    requires NaiveInv(n) && Legal(algorithm, n.forest, op)
    ensures NaiveInv(next)
  {
    StepKeepsInv(algorithm, n.forest, op);
    InvIsRooted(n.forest);
    var g := ForestStep(algorithm, n.forest, op);
    NaiveKeys(algorithm, n.forest, n.views, op);
    Naive(g, NaiveViews(n.forest, n.views, op, g.nodes.Keys))
  }

  /** What a call does to the snapshots, given the nodes that are there afterwards. */
  ghost function NaiveViews(f: Forest, views: map<Id, View>, op: Op, ids: set<Id>): map<Id, View>
    requires views.Keys == f.nodes.Keys
  {
    match op
    case Create(parent, id, _) => if Creates(f, op) then views[id := views[parent]] else views
    case Clone(source, id, _) => if Clones(f, op) then views[id := views[source]] else views
    case Put(id, key, value) => if Writable(f, id) then views[id := views[id][key := value]] else views
    case Remove(id, key) => if Writable(f, id) then views[id := views[id] - {key}] else views
    case Squash(id, delta) => if Writable(f, id) then views[id := Apply(views[id], delta)] else views
    case Finalize(_) => views
    case GiveUp(_, _) => views
    case Discard(_) => Restrict(views, ids)
    case Commit(_) => Restrict(views, ids)
  }

  lemma NaiveKeys(algorithm: Algorithm, f: Forest, views: map<Id, View>, op: Op)
    requires Inv(f) && Rooted(f.nodes) && Legal(algorithm, f, op) && views.Keys == f.nodes.Keys
    ensures NaiveViews(f, views, op, ForestStep(algorithm, f, op).nodes.Keys).Keys == ForestStep(algorithm, f, op).nodes.Keys
  {
    hide Rooted, MetBefore, HeadChoice;
  }

  /** One tree lies within another: its nodes have the same parents and deltas there. */
  ghost predicate Within(nodes: Nodes, deltas: map<Id, Delta>, nodes': Nodes, deltas': map<Id, Delta>) {
    && Rooted(nodes) && deltas.Keys == nodes.Keys && Rooted(nodes') && deltas'.Keys == nodes'.Keys
    && forall x :: x in nodes ==> x in nodes' && nodes'[x].parent == nodes[x].parent && deltas'[x] == deltas[x]
  }

  lemma {:induction false} ViewWithin(nodes: Nodes, deltas: map<Id, Delta>, nodes': Nodes, deltas': map<Id, Delta>, id: Id)
    requires Within(nodes, deltas, nodes', deltas') && id in nodes
    ensures ViewOf(nodes', deltas', id) == ViewOf(nodes, deltas, id)
    decreases nodes[id].revision
  {
    if nodes[id].parent.Some? {
      ViewWithin(nodes, deltas, nodes', deltas', nodes[id].parent.value);
    }
  }

  /** Then its readers see the same in both. */
  lemma ViewsWithin(nodes: Nodes, deltas: map<Id, Delta>, nodes': Nodes, deltas': map<Id, Delta>)
    requires Within(nodes, deltas, nodes', deltas')
    ensures forall id :: id in nodes ==> ViewOf(nodes', deltas', id) == ViewOf(nodes, deltas, id)
  {
    forall id | id in nodes
      ensures ViewOf(nodes', deltas', id) == ViewOf(nodes, deltas, id)
    {
      ViewWithin(nodes, deltas, nodes', deltas', id);
    }
  }

  /** Committing keeps the view of the committed node and of everything above it. */
  lemma {:induction false} CommitKeepsViews(f: Forest, deltas: map<Id, Delta>, id: Id, x: Id)
    requires Inv(f) && deltas.Keys == f.nodes.Keys && id in f.nodes && id != f.root
    requires f.head in Subtree(f.nodes, id) && x in Subtree(f.nodes, id)
    ensures Inv(Committed(f, id))
    ensures ViewOf(Committed(f, id).nodes, CommittedDeltas(f.nodes, deltas, id), x) == ViewOf(f.nodes, deltas, x)
    decreases f.nodes[x].revision
  {
    CommitKeepsInv(f, id);
    if x != id {
      CommitKeepsViews(f, deltas, id, f.nodes[x].parent.value);
    }
  }

  /** One step of the database is one step of the naive database. */
  lemma StepRefinesNaive(algorithm: Algorithm, db: Db, op: Op)
    requires DbInv(db) && Legal(algorithm, db.forest, op)
    ensures Abstract(Step(algorithm, db, op)) == NaiveStep(algorithm, Abstract(db), op)
  {
    match op
    case Create(_, _, _) => CreateRefines(algorithm, db, op);
    case Clone(_, _, _) => CloneRefines(algorithm, db, op);
    case Put(_, _, _) => WriteRefines(algorithm, db, op);
    case Remove(_, _) => WriteRefines(algorithm, db, op);
    case Squash(_, _) => WriteRefines(algorithm, db, op);
    case Finalize(_) => FinalizeRefines(algorithm, db, op);
    case GiveUp(_, _) => GiveUpRefines(algorithm, db, op);
    case Discard(_) => DiscardRefines(algorithm, db, op);
    case Commit(_) => CommitRefines(algorithm, db, op);
  }

  /** Adding a node adds its snapshot and changes no other. */
  lemma GrowViews(db: Db, id: Id, parent: Id, meta: Meta, delta: Delta)
    requires DbInv(db) && id !in db.forest.nodes && parent in db.forest.nodes && meta.parent == Some(parent)
    requires Inv(db.forest.(nodes := db.forest.nodes[id := meta]))
    ensures var next := WithNode(db, id, meta, delta);
            DbInv(next) && Abstract(next) == Naive(next.forest, Abstract(db).views[id := Apply(Abstract(db).views[parent], delta)])
  {
    hide Inv, Apply, ViewOf, Rooted;
    var next := WithNode(db, id, meta, delta);
    InvIsRooted(db.forest);
    InvIsRooted(next.forest);
    GrowView(db.forest.nodes, db.deltas, id, parent, meta, delta);
    SameViews(next, Abstract(db).views[id := Apply(Abstract(db).views[parent], delta)]);
  }

  lemma GrowView(nodes: Nodes, deltas: map<Id, Delta>, id: Id, parent: Id, meta: Meta, delta: Delta)
    requires Rooted(nodes) && deltas.Keys == nodes.Keys && Rooted(nodes[id := meta])
    requires id !in nodes && parent in nodes && meta.parent == Some(parent)
    ensures ViewOf(nodes[id := meta], deltas[id := delta], id) == Apply(ViewOf(nodes, deltas, parent), delta)
    ensures forall x :: x in nodes ==> ViewOf(nodes[id := meta], deltas[id := delta], x) == ViewOf(nodes, deltas, x)
  {
    hide Apply, ViewOf, Rooted;
    ViewsWithin(nodes, deltas, nodes[id := meta], deltas[id := delta]);
    ViewStep(nodes[id := meta], deltas[id := delta], id);
  }

  lemma ApplyNothing(view: View)
    ensures Apply(view, EMPTY_DELTA) == view
  {
  }

  lemma NaiveCreate(algorithm: Algorithm, n: Naive, op: Op)
    requires NaiveInv(n) && op.Create?
    ensures NaiveStep(algorithm, n, op) ==
            if Creates(n.forest, op) then
              Naive(n.forest.(nodes := n.forest.nodes[op.id := Meta(Some(op.parent), n.forest.nodes[op.parent].revision + 1, false, op.header)]),
                    n.views[op.id := n.views[op.parent]])
            else n
  {
  }

  lemma CreateRefines(algorithm: Algorithm, db: Db, op: Op)
    requires DbInv(db) && op.Create?
    ensures Abstract(Step(algorithm, db, op)) == NaiveStep(algorithm, Abstract(db), op)
  {
    hide ViewOf, Inv, Rooted, Apply, Step, NaiveStep, ForestStep;
    CreateStep(algorithm, db, op);
    NaiveCreate(algorithm, Abstract(db), op);
    if Creates(db.forest, op) {
      ApplyNothing(Abstract(db).views[op.parent]);
      var meta := Meta(Some(op.parent), db.forest.nodes[op.parent].revision + 1, false, op.header);
      GrowViews(db, op.id, op.parent, meta, EMPTY_DELTA);
    }
  }

  lemma CloneRefines(algorithm: Algorithm, db: Db, op: Op)
    requires DbInv(db) && op.Clone?
    ensures Abstract(Step(algorithm, db, op)) == NaiveStep(algorithm, Abstract(db), op)
  {
    if Clones(db.forest, op) {
      var source := db.forest.nodes[op.source];
      CloneKeepsInv(algorithm, db.forest, op);
      InvIsRooted(db.forest);
      ViewStep(db.forest.nodes, db.deltas, op.source);
      hide ViewOf, Apply;
      GrowViews(db, op.id, source.parent.value, source.(header := op.header), db.deltas[op.source]);
    }
  }

  lemma WithoutLeaf(f: Forest, deltas: map<Id, Delta>, id: Id)
    requires Inv(f) && deltas.Keys == f.nodes.Keys && Writable(f, id)
    ensures Within(f.nodes - {id}, deltas - {id}, f.nodes, deltas)
  {
  }

  /** A write to an unfinalized node changes its own view and no other: a writable node is nobody's parent. */
  lemma WriteKeepsOthers(f: Forest, deltas: map<Id, Delta>, id: Id, delta: Delta)
    requires Inv(f) && deltas.Keys == f.nodes.Keys && Writable(f, id)
    ensures forall x :: x in f.nodes && x != id ==> ViewOf(f.nodes, deltas[id := delta], x) == ViewOf(f.nodes, deltas, x)
    ensures var parent := f.nodes[id].parent;
            && parent.Some?
            && ViewOf(f.nodes, deltas[id := delta], id) == Apply(ViewOf(f.nodes, deltas, parent.value), delta)
  {
    hide Inv, ViewOf, Apply, Rooted;
    InvIsRooted(f);
    forall x | x in f.nodes && x != id
      ensures ViewOf(f.nodes, deltas[id := delta], x) == ViewOf(f.nodes, deltas, x)
    {
      WriteKeepsOther(f, deltas, id, delta, x);
    }
    WriteOwnView(f, deltas, id, delta);
  }

  lemma WriteOwnView(f: Forest, deltas: map<Id, Delta>, id: Id, delta: Delta)
    requires Inv(f) && deltas.Keys == f.nodes.Keys && Writable(f, id)
    ensures Rooted(f.nodes)
    ensures var parent := f.nodes[id].parent;
            && parent.Some? && parent.value in f.nodes
            && ViewOf(f.nodes, deltas[id := delta], id) == Apply(ViewOf(f.nodes, deltas, parent.value), delta)
  {
    hide Inv, ViewOf, Apply, Rooted;
    InvIsRooted(f);
    WritableIsChild(f, id);
    WriteKeepsOther(f, deltas, id, delta, f.nodes[id].parent.value);
    ViewStep(f.nodes, deltas[id := delta], id);
  }

  lemma WritableIsChild(f: Forest, id: Id)
    requires Inv(f) && Writable(f, id)
    ensures var parent := f.nodes[id].parent; parent.Some? && parent.value in f.nodes && parent.value != id
  {
  }

  lemma WriteKeepsOther(f: Forest, deltas: map<Id, Delta>, id: Id, delta: Delta, x: Id)
    requires Inv(f) && deltas.Keys == f.nodes.Keys && Writable(f, id) && x in f.nodes && x != id
    ensures ViewOf(f.nodes, deltas[id := delta], x) == ViewOf(f.nodes, deltas, x)
  {
    hide Inv, ViewOf, Rooted;
    InvIsRooted(f);
    WithoutLeaf(f, deltas, id);
    WithoutLeaf(f, deltas[id := delta], id);
    assert deltas[id := delta] - {id} == deltas - {id};
    ViewWithin(f.nodes - {id}, deltas - {id}, f.nodes, deltas, x);
    ViewWithin(f.nodes - {id}, deltas - {id}, f.nodes, deltas[id := delta], x);
  }

  /** A database and a naive database that agree node by node are abstractly equal. */
  lemma SameViews(db: Db, views: map<Id, View>)
    requires DbInv(db) && views.Keys == db.forest.nodes.Keys
    requires forall x :: x in db.forest.nodes ==> ViewOf(db.forest.nodes, db.deltas, x) == views[x]
    ensures Abstract(db) == Naive(db.forest, views)
  {
  }

  /** Replacing the delta of a writable node replaces its snapshot, and no other. */
  lemma WriteViews(db: Db, id: Id, delta: Delta) returns (base: View)
    requires DbInv(db) && Writable(db.forest, id)
    ensures Abstract(db).views[id] == Apply(base, db.deltas[id])
    ensures var next := Db(db.forest, db.deltas[id := delta]);
            DbInv(next) && Abstract(next) == Naive(db.forest, Abstract(db).views[id := Apply(base, delta)])
  {
    InvIsRooted(db.forest);
    hide Inv, Apply, ViewOf, Rooted;
    var next := Db(db.forest, db.deltas[id := delta]);
    WriteKeepsOthers(db.forest, db.deltas, id, delta);
    ViewStep(db.forest.nodes, db.deltas, id);
    base := ViewOf(db.forest.nodes, db.deltas, db.forest.nodes[id].parent.value);
    SameViews(next, Abstract(db).views[id := Apply(base, delta)]);
  }

  lemma WriteRefines(algorithm: Algorithm, db: Db, op: Op)
    requires DbInv(db) && (op.Put? || op.Remove? || op.Squash?)
    ensures Abstract(Step(algorithm, db, op)) == NaiveStep(algorithm, Abstract(db), op)
  {
    hide Inv, Apply, ViewOf, Rooted, Finalized, Discarded, Committed, CommittedDeltas;
    if Writable(db.forest, op.id) {
      var delta := Step(algorithm, db, op).deltas[op.id];
      var base := WriteViews(db, op.id, delta);
      if op.Put? {
        PutUpdatesView(base, db.deltas[op.id], op.key, op.value);
      } else if op.Squash? {
        SquashedApplies(base, false, db.deltas[op.id], op.delta);
      } else {
        EraseUpdatesView(base, db.deltas[op.id], op.key);
      }
    }
  }

  lemma FinalizeKeepsDeltas(algorithm: Algorithm, db: Db, op: Op)
    requires DbInv(db) && op.Finalize? && Legal(algorithm, db.forest, op)
    ensures var next, naive := Step(algorithm, db, op), NaiveStep(algorithm, Abstract(db), op);
            && next.deltas == db.deltas && naive == Naive(next.forest, Abstract(db).views)
            && next.forest.nodes.Keys == db.forest.nodes.Keys
            && forall x :: x in db.forest.nodes ==> next.forest.nodes[x].parent == db.forest.nodes[x].parent
  {
    hide ViewOf, Rooted, Finalized, MetBefore;
    if op.id in db.forest.nodes {
      FinalizedNodes(algorithm, db.forest, op.id);
    }
  }

  lemma FinalizeRefines(algorithm: Algorithm, db: Db, op: Op)
    requires DbInv(db) && op.Finalize? && Legal(algorithm, db.forest, op)
    ensures Abstract(Step(algorithm, db, op)) == NaiveStep(algorithm, Abstract(db), op)
  {
    hide ViewOf, Inv, Rooted, Legal, Step, NaiveStep, ForestStep;
    FinalizeKeepsDeltas(algorithm, db, op);
    var next := Step(algorithm, db, op);
    InvIsRooted(db.forest);
    InvIsRooted(next.forest);
    ViewsWithin(db.forest.nodes, db.deltas, next.forest.nodes, next.deltas);
    SameViews(next, Abstract(db).views);
  }

  lemma GiveUpRefines(algorithm: Algorithm, db: Db, op: Op)
    requires DbInv(db) && op.GiveUp? && Legal(algorithm, db.forest, op)
    ensures Abstract(Step(algorithm, db, op)) == NaiveStep(algorithm, Abstract(db), op)
  {
    hide ViewOf;
    SameViews(Step(algorithm, db, op), Abstract(db).views);
  }

  /** Dropping a subtree drops its snapshots and changes no other. */
  lemma DiscardViews(db: Db, id: Id)
    requires DbInv(db) && id in db.forest.nodes && id != db.forest.root && db.forest.head !in Subtree(db.forest.nodes, id)
    ensures var next := Db(Discarded(db.forest, id), db.deltas - Subtree(db.forest.nodes, id));
            DbInv(next) && Abstract(next) == Naive(next.forest, Restrict(Abstract(db).views, next.forest.nodes.Keys))
  {
    DiscardKeepsInv(db.forest, id);
    hide ViewOf, Subtree;
    var next := Db(Discarded(db.forest, id), db.deltas - Subtree(db.forest.nodes, id));
    ViewsWithin(next.forest.nodes, next.deltas, db.forest.nodes, db.deltas);
    SameViews(next, Restrict(Abstract(db).views, next.forest.nodes.Keys));
  }

  lemma DiscardRefines(algorithm: Algorithm, db: Db, op: Op)
    requires DbInv(db) && op.Discard? && Legal(algorithm, db.forest, op)
    ensures Abstract(Step(algorithm, db, op)) == NaiveStep(algorithm, Abstract(db), op)
  {
    if op.id in db.forest.nodes && op.id != db.forest.root {
      DiscardViews(db, op.id);
    } else {
      assert Restrict(Abstract(db).views, db.forest.nodes.Keys) == Abstract(db).views;
    }
  }

  /** Committing drops every snapshot outside the subtree and changes no other. */
  lemma CommitViews(db: Db, id: Id)
    requires DbInv(db) && id in db.forest.nodes && id != db.forest.root && db.forest.head in Subtree(db.forest.nodes, id)
    ensures var next := Db(Committed(db.forest, id), CommittedDeltas(db.forest.nodes, db.deltas, id));
            DbInv(next) && Abstract(next) == Naive(next.forest, Restrict(Abstract(db).views, next.forest.nodes.Keys))
  {
    CommitKeepsInv(db.forest, id);
    var next := Db(Committed(db.forest, id), CommittedDeltas(db.forest.nodes, db.deltas, id));
    forall x | x in Subtree(db.forest.nodes, id)
      ensures ViewOf(next.forest.nodes, next.deltas, x) == ViewOf(db.forest.nodes, db.deltas, x)
    {
      CommitKeepsViews(db.forest, db.deltas, id, x);
    }
    hide Inv, ViewOf;
    SameViews(next, Restrict(Abstract(db).views, next.forest.nodes.Keys));
  }

  lemma CommitRefines(algorithm: Algorithm, db: Db, op: Op)
    requires DbInv(db) && op.Commit? && Legal(algorithm, db.forest, op)
    ensures Abstract(Step(algorithm, db, op)) == NaiveStep(algorithm, Abstract(db), op)
  {
    if op.id in db.forest.nodes && op.id != db.forest.root {
      CommitViews(db, op.id);
    } else {
      assert Restrict(Abstract(db).views, db.forest.nodes.Keys) == Abstract(db).views;
    }
  }

  /** Whatever the call, the view of a node that was finalized before it and is there after it is the same. */
  lemma FinalizedViewIsStable(algorithm: Algorithm, db: Db, op: Op, id: Id)
    requires DbInv(db) && Legal(algorithm, db.forest, op)
    requires id in db.forest.nodes && db.forest.nodes[id].finalized && id in Step(algorithm, db, op).forest.nodes
    ensures var next := Step(algorithm, db, op);
            && DbInv(next) && next.forest.nodes[id].finalized
            && ViewOf(next.forest.nodes, next.deltas, id) == ViewOf(db.forest.nodes, db.deltas, id)
  {
    hide Inv, ViewOf, Finalized, Discarded, Committed, Step, ForestStep, Subtree, Legal;
    StepRefinesNaive(algorithm, db, op);
    InvIsRooted(db.forest);
    InvIsRooted(Step(algorithm, db, op).forest);
    var next := Step(algorithm, db, op);
    assert ViewOf(next.forest.nodes, next.deltas, id) == Abstract(next).views[id];
    assert ViewOf(db.forest.nodes, db.deltas, id) == Abstract(db).views[id];
    StepForest(algorithm, db, op);
    StaysFinalized(algorithm, db.forest, op, id);
    NaiveKeepsFinalized(algorithm, Abstract(db), op, id);
  }

  lemma NaiveKeepsFinalized(algorithm: Algorithm, n: Naive, op: Op, id: Id)
    requires NaiveInv(n) && Legal(algorithm, n.forest, op) && id in n.forest.nodes && n.forest.nodes[id].finalized
    requires id in NaiveStep(algorithm, n, op).forest.nodes
    ensures NaiveStep(algorithm, n, op).views[id] == n.views[id]
  {
    hide Inv, Legal, ForestStep, Rooted;
  }

  lemma StaysFinalized(algorithm: Algorithm, f: Forest, op: Op, id: Id)
    requires Inv(f) && Legal(algorithm, f, op) && id in f.nodes && f.nodes[id].finalized && id in ForestStep(algorithm, f, op).nodes
    ensures ForestStep(algorithm, f, op).nodes[id].finalized
  {
  }

  // ---------- runs ----------

  /** A database just opened: only the root, finalized, over what its backend holds. */
  ghost function Genesis(root: Id, revision: nat, header: Header, delta: Delta): (start: Db)
    ensures DbInv(start) && ForkInv(start.forest)
    ensures root in start.forest.nodes && ViewOf(start.forest.nodes, start.deltas, root) == delta.backend
  {
    Db(Forest(map[root := Meta(None, revision, true, header)], root, root, {root}), map[root := delta])
  }

  /** A database just opened is one whose root pob cannot finalize again. */
  lemma GenesisRootIsDone(root: Id, revision: nat, header: Header, delta: Delta)
    ensures var f := Genesis(root, revision, header, delta).forest;
            && !Legal(Pob, f, Op.Finalize(root)) && Legal(Fifo, f, Op.Finalize(root)) && Legal(BlockTime, f, Op.Finalize(root))
  {
  }

  ghost predicate LegalRun(algorithm: Algorithm, f: Forest, ops: seq<Op>)
    requires Inv(f)
    decreases |ops|
  {
    ops != [] ==>
      && Legal(algorithm, f, ops[0])
      && (StepKeepsInv(algorithm, f, ops[0]); LegalRun(algorithm, ForestStep(algorithm, f, ops[0]), ops[1..]))
  }

  ghost function Exec(algorithm: Algorithm, db: Db, ops: seq<Op>): (last: Db)
    requires DbInv(db) && LegalRun(algorithm, db.forest, ops)
    ensures DbInv(last)
    decreases |ops|
  {
    if ops == [] then db
    else
      Exec(algorithm, Step(algorithm, db, ops[0]), ops[1..])
  }

  ghost function NaiveExec(algorithm: Algorithm, n: Naive, ops: seq<Op>): (last: Naive)
    requires NaiveInv(n) && LegalRun(algorithm, n.forest, ops)
    decreases |ops|
  {
    if ops == [] then n else NaiveExec(algorithm, NaiveStep(algorithm, n, ops[0]), ops[1..])
  }

  ghost function TimelineExec(algorithm: Algorithm, t: Timeline, ops: seq<Op>): (last: Timeline)
    requires Inv(t.forest) && LegalRun(algorithm, t.forest, ops)
    decreases |ops|
  {
    if ops == [] then t
    else
      StepKeepsInv(algorithm, t.forest, ops[0]);
      TimelineExec(algorithm, TimelineStep(algorithm, t, ops[0]), ops[1..])
  }

  /** Over every run the delta database and the naive database show the same. */
  lemma {:induction false} RunRefinesNaive(algorithm: Algorithm, db: Db, ops: seq<Op>)
    requires DbInv(db) && LegalRun(algorithm, db.forest, ops)
    ensures Abstract(Exec(algorithm, db, ops)) == NaiveExec(algorithm, Abstract(db), ops)
    decreases |ops|
  {
    hide Inv, Abstract, Step, NaiveStep;
    if ops != [] {
      StepRefinesNaive(algorithm, db, ops[0]);
      StepForest(algorithm, db, ops[0]);
      RunRefinesNaive(algorithm, Step(algorithm, db, ops[0]), ops[1..]);
    }
  }

  lemma StepForest(algorithm: Algorithm, db: Db, op: Op)
    requires DbInv(db) && Legal(algorithm, db.forest, op)
    ensures Step(algorithm, db, op).forest == ForestStep(algorithm, db.forest, op)
    ensures Abstract(db).forest == db.forest && NaiveInv(Abstract(db))
    ensures NaiveStep(algorithm, Abstract(db), op).forest == ForestStep(algorithm, db.forest, op)
  {
  }

  lemma FirstStep(algorithm: Algorithm, db: Db, op: Op, rest: seq<Op>)
    requires DbInv(db) && Legal(algorithm, db.forest, op)
    requires LegalRun(algorithm, Step(algorithm, db, op).forest, rest)
    ensures LegalRun(algorithm, db.forest, [op] + rest)
    ensures Exec(algorithm, db, [op] + rest) == Exec(algorithm, Step(algorithm, db, op), rest)
  {
    hide Inv, Legal, Step, ForestStep;
    StepForest(algorithm, db, op);
    assert ([op] + rest)[1..] == rest;
  }

  lemma FirstTwoSteps(algorithm: Algorithm, db: Db, first: Op, second: Op, rest: seq<Op>)
    requires DbInv(db) && Legal(algorithm, db.forest, first)
    requires Legal(algorithm, Step(algorithm, db, first).forest, second)
    requires LegalRun(algorithm, Step(algorithm, Step(algorithm, db, first), second).forest, rest)
    ensures LegalRun(algorithm, db.forest, [first, second] + rest)
    ensures Exec(algorithm, db, [first, second] + rest) ==
            Exec(algorithm, Step(algorithm, Step(algorithm, db, first), second), rest)
  {
    hide Inv, Legal, LegalRun, Exec, Step;
    FirstStep(algorithm, Step(algorithm, db, first), second, rest);
    FirstStep(algorithm, db, first, [second] + rest);
    assert [first, second] + rest == [first] + ([second] + rest);
  }

  /** Creating a node on a finalized parent, whether head or not, and finalizing it under fifo. */
  lemma GrowAndFinalize(db: Db, parent: Id, id: Id, header: Header, rest: seq<Op>) returns (next: Db)
    requires DbInv(db) && parent in db.forest.nodes && db.forest.nodes[parent].finalized && id !in db.forest.nodes
    ensures DbInv(next)
    ensures var f, revision := db.forest, db.forest.nodes[parent].revision + 1;
            && next.forest.nodes == f.nodes[id := Meta(Some(parent), revision, true, header)]
            && next.forest.head == (if revision > f.nodes[f.head].revision then id else f.head)
            && next.forest.forkHeads ==
               if parent == next.forest.head then f.forkHeads else f.forkHeads - {parent} + {id}
    ensures LegalRun(Fifo, next.forest, rest) ==>
              && LegalRun(Fifo, db.forest, [Op.Create(parent, id, header), Op.Finalize(id)] + rest)
              && Exec(Fifo, db, [Op.Create(parent, id, header), Op.Finalize(id)] + rest) == Exec(Fifo, next, rest)
  {
    hide Inv, Legal, LegalRun, Exec, Step, ForestStep, Finalized;
    var create, finalize := Op.Create(parent, id, header), Op.Finalize(id);
    InvIsRooted(db.forest);
    UnderFifo(db.forest, create);
    CreateStep(Fifo, db, create);
    var grown := Step(Fifo, db, create);
    UnderFifo(grown.forest, finalize);
    FifoStep(grown, id);
    next := Step(Fifo, grown, finalize);
    if LegalRun(Fifo, next.forest, rest) {
      FirstTwoSteps(Fifo, db, create, finalize, rest);
    }
  }

  lemma UnderFifo(f: Forest, op: Op)
    requires Inv(f) && (op.Create? || op.Finalize?)
    ensures Legal(Fifo, f, op)
  {
  }

  lemma FifoStep(db: Db, id: Id)
    requires DbInv(db) && id in db.forest.nodes && db.forest.nodes[id].parent.Some?
    ensures var f, node, next := db.forest, db.forest.nodes[id], Step(Fifo, db, Op.Finalize(id)).forest;
            && next.nodes == f.nodes[id := node.(finalized := true)]
            && f.head in f.nodes && next.head == (if node.revision > f.nodes[f.head].revision then id else f.head)
            && next.forkHeads ==
               if node.parent.value == next.head then f.forkHeads else f.forkHeads - {node.parent.value} + {id}
  {
    hide Inv, Rooted, Step, Finalized;
    InvIsRooted(db.forest);
    UnderFifo(db.forest, Op.Finalize(id));
    StepForest(Fifo, db, Op.Finalize(id));
    FifoFinalized(db.forest, id);
  }

  lemma FifoFinalized(f: Forest, id: Id)
    requires Inv(f) && id in f.nodes && f.nodes[id].parent.Some?
    ensures Rooted(f.nodes) && f.head in f.nodes && f.forkHeads <= f.nodes.Keys
    ensures var node, g := f.nodes[id], Finalized(Fifo, f, id);
            && g.nodes == f.nodes[id := node.(finalized := true)]
            && g.head == (if node.revision > f.nodes[f.head].revision then id else f.head)
            && g.forkHeads == if node.parent.value == g.head then f.forkHeads else f.forkHeads - {node.parent.value} + {id}
  {
  }

  /** A run that forks: with the first child finalized and head, the root takes a second one next to it. */
  lemma TwoForkHeadsAreReached(root: Id, revision: nat, header: Header, delta: Delta, a: Id, b: Id)
    requires root != a && a != b && b != root
    ensures var start := Genesis(root, revision, header, delta);
            var ops := [Op.Create(root, a, header), Op.Finalize(a), Op.Create(root, b, header), Op.Finalize(b)];
            && LegalRun(Fifo, start.forest, ops)
            && Exec(Fifo, start, ops).forest.head == a && Exec(Fifo, start, ops).forest.forkHeads == {a, b}
  {
    hide Inv, LegalRun, Exec;
    var start := Genesis(root, revision, header, delta);
    var second := [Op.Create(root, b, header), Op.Finalize(b)];
    var one := GrowAndFinalize(start, root, a, header, second);
    var two := GrowAndFinalize(one, root, b, header, []);
    NoSteps(two);
    assert second + [] == second;
    assert [Op.Create(root, a, header), Op.Finalize(a)] + second ==
           [Op.Create(root, a, header), Op.Finalize(a), Op.Create(root, b, header), Op.Finalize(b)];
  }

  lemma NoSteps(db: Db)
    requires DbInv(db)
    ensures LegalRun(Fifo, db.forest, []) && Exec(Fifo, db, []) == db
  {
  }

  /** A run whose every call meets the exact condition for the fork heads. */
  ghost predicate TidyRun(algorithm: Algorithm, f: Forest, ops: seq<Op>)
    requires Inv(f) && LegalRun(algorithm, f, ops)
    decreases |ops|
  {
    ops != [] ==>
      && Tidy(algorithm, f, ops[0])
      && (StepKeepsInv(algorithm, f, ops[0]); TidyRun(algorithm, ForestStep(algorithm, f, ops[0]), ops[1..]))
  }

  /** The fork heads are right before, between and after the calls of a run. */
  ghost predicate ForkInvThroughout(algorithm: Algorithm, f: Forest, ops: seq<Op>)
    requires Inv(f) && LegalRun(algorithm, f, ops)
    decreases |ops|
  {
    ForkInv(f) &&
    (ops != [] ==> (StepKeepsInv(algorithm, f, ops[0]); ForkInvThroughout(algorithm, ForestStep(algorithm, f, ops[0]), ops[1..])))
  }

  /**
   * Over every run from genesis: a sound tree; the right head throughout, under fifo and block time
   * always and under pob exactly if no call is a double production; and the right fork heads throughout,
   * exactly if the run is tidy.
   */
  lemma RunInvariants(algorithm: Algorithm, root: Id, revision: nat, header: Header, delta: Delta, ops: seq<Op>)
    requires LegalRun(algorithm, Genesis(root, revision, header, delta).forest, ops)
    ensures var start := Genesis(root, revision, header, delta);
            var last := Exec(algorithm, start, ops);
            var t := TimelineExec(algorithm, Timeline(start.forest, map[root := 0], 1), ops);
            && Inv(last.forest) && t.forest == last.forest
            && (HeadChosenThroughout(algorithm, Timeline(start.forest, map[root := 0], 1), ops)
                <==> (algorithm.Pob? ==> SingleRun(algorithm, start.forest, ops)))
            && (SingleRun(algorithm, start.forest, ops) ==> HeadIsChosen(HeadRule(algorithm), t))
            && (ForkInvThroughout(algorithm, start.forest, ops) <==> TidyRun(algorithm, start.forest, ops))
            && (TidyRun(algorithm, start.forest, ops) ==> ForkInv(last.forest))
  {
    hide Inv, ForkInv, HeadIsChosen, Legal, LegalRun, Exec, TimelineExec, TidyRun, SingleRun, ForkInvThroughout, HeadChosenThroughout;
    var start := Genesis(root, revision, header, delta);
    GenesisHead(algorithm, root, revision, header, delta);
    SingleRunIff(algorithm, start, Timeline(start.forest, map[root := 0], 1), ops);
    TidyRunIff(algorithm, start.forest, ops);
    if TidyRun(algorithm, start.forest, ops) {
      RunKeepsForkInv(algorithm, start, ops);
    }
  }

  lemma GenesisHead(algorithm: Algorithm, root: Id, revision: nat, header: Header, delta: Delta)
    ensures HeadIsChosen(HeadRule(algorithm), Timeline(Genesis(root, revision, header, delta).forest, map[root := 0], 1))
  {
  }

  lemma {:induction false} TidyRunIff(algorithm: Algorithm, f: Forest, ops: seq<Op>)
    requires Inv(f) && ForkInv(f) && LegalRun(algorithm, f, ops)
    ensures ForkInvThroughout(algorithm, f, ops) <==> TidyRun(algorithm, f, ops)
    decreases |ops|
  {
    hide Inv, ForkInv, ForestStep, Tidy, Legal;
    if ops != [] {
      StepKeepsInv(algorithm, f, ops[0]);
      StepKeepsForkInvIff(algorithm, f, ops[0]);
      if Tidy(algorithm, f, ops[0]) {
        TidyRunIff(algorithm, ForestStep(algorithm, f, ops[0]), ops[1..]);
      }
    }
  }

  /** A run without failed discards and without finalizing a node twice. */
  ghost predicate PlainRun(algorithm: Algorithm, f: Forest, ops: seq<Op>)
    requires Inv(f) && LegalRun(algorithm, f, ops)
    decreases |ops|
  {
    ops != [] ==>
      && !ops[0].GiveUp? && (ops[0].Finalize? && ops[0].id in f.nodes ==> !f.nodes[ops[0].id].finalized)
      && (StepKeepsInv(algorithm, f, ops[0]); PlainRun(algorithm, ForestStep(algorithm, f, ops[0]), ops[1..]))
  }

  /** Under fifo and block time such a run is tidy. */
  lemma {:induction false} PlainRunIsTidy(algorithm: Algorithm, f: Forest, ops: seq<Op>)
    requires Inv(f) && LegalRun(algorithm, f, ops) && PlainRun(algorithm, f, ops) && !algorithm.Pob?
    ensures TidyRun(algorithm, f, ops)
    decreases |ops|
  {
    hide Inv, ForestStep, Legal;
    if ops != [] {
      StepKeepsInv(algorithm, f, ops[0]);
      if ops[0].Finalize? && ops[0].id in f.nodes {
        FirstFinalizeIsTidy(algorithm, f, ops[0].id);
      }
      PlainRunIsTidy(algorithm, ForestStep(algorithm, f, ops[0]), ops[1..]);
    }
  }

  /** A run without double productions. */
  ghost predicate SingleRun(algorithm: Algorithm, f: Forest, ops: seq<Op>)
    requires Inv(f) && LegalRun(algorithm, f, ops)
    decreases |ops|
  {
    ops != [] ==>
      && (InvIsRooted(f); !Doubles(algorithm, f, ops[0]))
      && (StepKeepsInv(algorithm, f, ops[0]); SingleRun(algorithm, ForestStep(algorithm, f, ops[0]), ops[1..]))
  }

  /** The head is right before, between and after the calls of a run. */
  ghost predicate HeadChosenThroughout(algorithm: Algorithm, t: Timeline, ops: seq<Op>)
    requires Inv(t.forest) && LegalRun(algorithm, t.forest, ops)
    decreases |ops|
  {
    HeadIsChosen(HeadRule(algorithm), t) &&
    (ops != [] ==>
       (StepKeepsInv(algorithm, t.forest, ops[0]); HeadChosenThroughout(algorithm, TimelineStep(algorithm, t, ops[0]), ops[1..])))
  }

  lemma {:induction false} SingleRunIff(algorithm: Algorithm, db: Db, t: Timeline, ops: seq<Op>)
    requires DbInv(db) && t.forest == db.forest && LegalRun(algorithm, db.forest, ops)
    ensures TimelineExec(algorithm, t, ops).forest == Exec(algorithm, db, ops).forest
    ensures HeadIsChosen(HeadRule(algorithm), t) ==>
              (HeadChosenThroughout(algorithm, t, ops) <==> SingleRun(algorithm, db.forest, ops))
    ensures HeadIsChosen(HeadRule(algorithm), t) && SingleRun(algorithm, db.forest, ops) ==>
              HeadIsChosen(HeadRule(algorithm), TimelineExec(algorithm, t, ops))
    ensures !algorithm.Pob? ==> SingleRun(algorithm, db.forest, ops)
    decreases |ops|
  {
    hide Inv, HeadIsChosen, Step, Legal;
    if ops != [] {
      StepForest(algorithm, db, ops[0]);
      InvIsRooted(db.forest);
      if HeadIsChosen(HeadRule(algorithm), t) {
        StepKeepsHeadChosenIff(algorithm, t, ops[0]);
      }
      SingleRunIff(algorithm, Step(algorithm, db, ops[0]), TimelineStep(algorithm, t, ops[0]), ops[1..]);
    }
  }

  lemma {:induction false} RunKeepsForkInv(algorithm: Algorithm, db: Db, ops: seq<Op>)
    requires DbInv(db) && LegalRun(algorithm, db.forest, ops) && TidyRun(algorithm, db.forest, ops)
    requires ForkInv(db.forest)
    ensures ForkInv(Exec(algorithm, db, ops).forest)
    decreases |ops|
  {
    hide Inv, ForkInv, Step, Tidy;
    if ops != [] {
      StepForest(algorithm, db, ops[0]);
      StepKeepsForkInvIff(algorithm, db.forest, ops[0]);
      RunKeepsForkInv(algorithm, Step(algorithm, db, ops[0]), ops[1..]);
    }
  }

  /** The node is in the tree after every call of a run. */
  ghost predicate StaysIn(algorithm: Algorithm, db: Db, ops: seq<Op>, id: Id)
    requires DbInv(db) && LegalRun(algorithm, db.forest, ops)
    decreases |ops|
  {
    id in db.forest.nodes && (ops != [] ==> StaysIn(algorithm, Step(algorithm, db, ops[0]), ops[1..], id))
  }

  /** A finalized node's view never changes while it stays in the tree. */
  lemma {:induction false} FinalizedViewNeverChanges(algorithm: Algorithm, db: Db, ops: seq<Op>, id: Id)
    requires DbInv(db) && LegalRun(algorithm, db.forest, ops) && StaysIn(algorithm, db, ops, id)
    requires db.forest.nodes[id].finalized
    ensures var last := Exec(algorithm, db, ops);
            id in last.forest.nodes && ViewOf(last.forest.nodes, last.deltas, id) == ViewOf(db.forest.nodes, db.deltas, id)
    decreases |ops|
  {
    hide Inv, ViewOf, Step;
    if ops != [] {
      StepForest(algorithm, db, ops[0]);
      var next := Step(algorithm, db, ops[0]);
      assert id in next.forest.nodes;
      FinalizedViewIsStable(algorithm, db, ops[0], id);
      FinalizedViewNeverChanges(algorithm, next, ops[1..], id);
    }
  }

  // ---------- stored keys ----------

  ghost predicate AllEncoded(n: Naive, c: Codec) {
    forall id :: id in n.views ==> Encoded(n.views[id], c)
  }

  ghost predicate ThroughCodec(op: Op, c: Codec) {
    && (op.Put? ==> c.encode(c.decode(op.key).0, c.decode(op.key).1) == op.key)
    && (op.Squash? ==> Encoded(op.delta.backend, c))
  }

  lemma StepKeepsEncoded(algorithm: Algorithm, n: Naive, op: Op, c: Codec)
    requires NaiveInv(n) && Legal(algorithm, n.forest, op) && AllEncoded(n, c) && ThroughCodec(op, c)
    ensures AllEncoded(NaiveStep(algorithm, n, op), c)
  {
    hide Inv, ForestStep, Legal, Rooted, Encoded;
    if op.Put? && op.id in n.views {
      WriteKeepsEncoded(n.views[op.id], op.key, op.value, c);
    }
    if op.Remove? && op.id in n.views {
      WriteKeepsEncoded(n.views[op.id], op.key, [], c);
    }
    if op.Squash? && op.id in n.views {
      SquashKeepsEncoded(n.views[op.id], op.delta, c);
    }
  }

  lemma SquashKeepsEncoded(view: View, delta: Delta, c: Codec)
    requires Encoded(view, c) && Encoded(delta.backend, c)
    ensures Encoded(Apply(view, delta), c)
  {
  }

  lemma WriteKeepsEncoded(view: View, key: Bytes, value: Bytes, c: Codec)
    requires Encoded(view, c)
    ensures Encoded(view - {key}, c)
    ensures c.encode(c.decode(key).0, c.decode(key).1) == key ==> Encoded(view[key := value], c)
  {
  }

  /** If every write goes through the codec, every node holds encoded keys only: what the neighbours need. */
  lemma {:induction false} RunKeepsEncoded(algorithm: Algorithm, n: Naive, ops: seq<Op>, c: Codec)
    requires NaiveInv(n) && LegalRun(algorithm, n.forest, ops) && AllEncoded(n, c)
    requires forall op :: op in ops ==> ThroughCodec(op, c)
    ensures AllEncoded(NaiveExec(algorithm, n, ops), c)
    decreases |ops|
  {
    hide Inv, AllEncoded, ThroughCodec;
    if ops != [] {
      StepKeepsEncoded(algorithm, n, ops[0], c);
      RunKeepsEncoded(algorithm, NaiveStep(algorithm, n, ops[0]), ops[1..], c);
    }
  }
}
