/** Which nodes are fork heads and which one is the head, over every run of calls. */
module ForkChoice {
  import opened ByteStrings
  import opened Deltas
  import opened StateDeltas
  import opened Trees
  import opened Queues
  import opened Forests

  // ---------- fork heads ----------

  ghost predicate FinalizedLeaf(f: Forest, x: Id) {
    x in f.nodes && f.nodes[x].finalized && Children(f.nodes, x) == {}
  }

  /** Every finalized leaf is a fork head, and no fork head has a finalized child. */
  ghost predicate ForkInv(f: Forest) {
    && (forall x :: FinalizedLeaf(f, x) ==> x in f.forkHeads)
    && (forall x :: x in f.forkHeads ==> !HasFinalizedChild(f.nodes, x))
  }

  /** So no fork head lies strictly above another. */
  lemma ForkHeadsAreIncomparable(f: Forest, a: Id, b: Id)
    requires Inv(f) && ForkInv(f) && a in f.forkHeads && b in f.forkHeads
    requires AncestorOrSelf(f.nodes, a, b)
    ensures a == b
  {
    if a != b {
      var c := ChildTowards(f.nodes, a, b);
      if c != b {
        var d := ChildTowards(f.nodes, c, b);
      }
      assert f.nodes[c].finalized;
      assert HasFinalizedChild(f.nodes, a);
    }
  }

  // ---------- finalize ----------

  /** Where the head can go after a double production: its parent and the other fork heads. */
  ghost function Fallbacks(f: Forest): (ids: set<Id>)
    requires f.head in f.nodes && f.nodes[f.head].parent.Some? && Rooted(f.nodes) && f.forkHeads <= f.nodes.Keys
    ensures ids != {} && ids <= f.nodes.Keys
  {
    var parent := f.nodes[f.head].parent.value;
    assert parent in (f.forkHeads - {f.head}) + {parent};
    (f.forkHeads - {f.head}) + {parent}
  }

  /** The head goes to the parent of one of the two nodes of a double production. */
  ghost predicate FallsToAParent(algorithm: Algorithm, f: Forest, id: Id)
    requires id in f.nodes && f.head in f.nodes && Rooted(f.nodes) && f.forkHeads <= f.nodes.Keys
    requires Decidable(algorithm, f.nodes[f.head], f.nodes[id])
  {
    Double(algorithm, f.nodes[f.head], f.nodes[id]) &&
    var best := Best(f.nodes, Fallbacks(f));
    f.nodes[f.head].parent == Some(best) || f.nodes[id].parent == Some(best)
  }

  /** What a double production makes of the head. */
  lemma DoubleChoice(f: Forest, id: Id)
    requires Inv(f) && id in f.nodes && Double(Pob, f.nodes[f.head], f.nodes[id]) && f.nodes[f.head].parent.Some?
    ensures var best, choice, parent := Best(f.nodes, Fallbacks(f)), HeadChoice(Pob, f, id), f.nodes[f.head].parent.value;
            && (choice.Some? ==> choice.value == best && best in f.forkHeads && best != f.head)
            && (choice.None? ==> best == parent)
            && parent != f.head
  {
    hide Inv, Rooted, Best, Prior;
    InvIsRooted(f);
    HeadsParent(f);
    var others, parent := f.forkHeads - {f.head}, f.nodes[f.head].parent.value;
    BestWith(f.nodes, others, parent);
  }

  /** The best of some nodes and one more. */
  lemma BestWith(nodes: Nodes, others: set<Id>, parent: Id)
    requires others <= nodes.Keys && parent in nodes
    ensures parent in others + {parent}
    ensures Best(nodes, others + {parent})
            == if others == {} || Prior(parent, nodes[parent], Best(nodes, others), nodes[Best(nodes, others)]) then parent
               else Best(nodes, others)
    ensures others != {} ==> Best(nodes, others) in others
  {
    if others == {} {
      BestIs(nodes, others + {parent}, parent);
    } else {
      var b := Best(nodes, others);
      BestIs(nodes, others + {parent}, if Prior(parent, nodes[parent], b, nodes[b]) then parent else b);
    }
  }

  lemma HeadsParent(f: Forest)
    requires Inv(f) && f.nodes[f.head].parent.Some?
    ensures f.head in f.nodes && f.forkHeads <= f.nodes.Keys
    ensures var parent := f.nodes[f.head].parent.value; parent in f.nodes && parent != f.head
  {
  }

  /** Unless the head falls to a parent, the node enters the fork heads and its parent leaves. */
  lemma FinalizedForkHeads(algorithm: Algorithm, f: Forest, id: Id)
    requires Inv(f) && id in f.nodes && Decidable(algorithm, f.nodes[f.head], f.nodes[id]) && !FallsToAParent(algorithm, f, id)
    ensures var g, parent := Finalized(algorithm, f, id), f.nodes[id].parent;
            g.forkHeads == (if parent.Some? then f.forkHeads - {parent.value} else f.forkHeads) + {id}
  {
    if Double(algorithm, f.nodes[f.head], f.nodes[id]) {
      DoubleChoice(f, id);
    }
  }

  /** If it does, that parent becomes or stays a fork head over a finalized child. */
  lemma FallingBreaks(f: Forest, id: Id)
    requires Inv(f) && ForkInv(f) && id in f.nodes && Decidable(Pob, f.nodes[f.head], f.nodes[id]) && FallsToAParent(Pob, f, id)
    ensures !ForkInv(Finalized(Pob, f, id))
  {
    DoubleChoice(f, id);
    var g, best := Finalized(Pob, f, id), Best(f.nodes, Fallbacks(f));
    if f.nodes[f.head].parent == Some(best) {
      assert f.head in Children(f.nodes, best) && f.head in Children(g.nodes, best);
      assert HasFinalizedChild(f.nodes, best);
      ForkHeadBelowIsWrong(g, best, f.head);
    } else {
      assert id in Children(g.nodes, best);
      ForkHeadBelowIsWrong(g, best, id);
    }
  }

  /** The marked node keeps its place in the tree. */
  lemma FinalizedChildren(algorithm: Algorithm, f: Forest, id: Id)
    requires Inv(f) && id in f.nodes && Decidable(algorithm, f.nodes[f.head], f.nodes[id])
    ensures var g := Finalized(algorithm, f, id);
            && g.nodes == f.nodes[id := f.nodes[id].(finalized := true)]
            && forall x :: Children(g.nodes, x) == Children(f.nodes, x)
    ensures f.nodes[id].parent != Some(id)
  {
  }

  /** Under fifo and block time the head is the node or stays. */
  lemma FinalizedOutsidePob(algorithm: Algorithm, f: Forest, id: Id)
    requires Inv(f) && id in f.nodes && !algorithm.Pob?
    ensures var g, node := Finalized(algorithm, f, id), f.nodes[id];
            && g.nodes == f.nodes[id := node.(finalized := true)] && g.root == f.root
            && (g.head == id || g.head == f.head)
            && (g.head == id <== node.revision > f.nodes[f.head].revision)
            && (g.head == f.head <== node.revision < f.nodes[f.head].revision)
  {
  }

  /**
   * Finalizing keeps the fork heads right exactly when the node has no finalized child yet and, under
   * pob, the call is not a double production after which the head falls to a parent of the two.
   */
  lemma FinalizeKeepsForkInvIff(algorithm: Algorithm, f: Forest, id: Id)
    requires Inv(f) && ForkInv(f) && id in f.nodes && Decidable(algorithm, f.nodes[f.head], f.nodes[id])
    ensures ForkInv(Finalized(algorithm, f, id)) <==> !HasFinalizedChild(f.nodes, id) && !FallsToAParent(algorithm, f, id)
  {
    hide Finalized, ForkInv;
    FinalizedChildren(algorithm, f, id);
    var g := Finalized(algorithm, f, id);
    if FallsToAParent(algorithm, f, id) {
      FallingBreaks(f, id);
    } else {
      FinalizedForkHeads(algorithm, f, id);
      if HasFinalizedChild(f.nodes, id) {
        var c :| c in Children(f.nodes, id) && f.nodes[c].finalized;
        ForkHeadBelowIsWrong(g, id, c);
      } else {
        FinalizedLeaves(f, g, id);
      }
    }
  }

  lemma ForkHeadBelowIsWrong(g: Forest, id: Id, c: Id)
    requires id in g.forkHeads && c in Children(g.nodes, id) && g.nodes[c].finalized
    ensures !ForkInv(g)
  {
  }

  lemma FinalizedLeaves(f: Forest, g: Forest, id: Id)
    requires ForkInv(f) && id in f.nodes && !HasFinalizedChild(f.nodes, id) && f.nodes[id].parent != Some(id)
    requires g.nodes == f.nodes[id := f.nodes[id].(finalized := true)]
    requires var parent := f.nodes[id].parent;
             g.forkHeads == (if parent.Some? then f.forkHeads - {parent.value} else f.forkHeads) + {id}
    requires forall x :: Children(g.nodes, x) == Children(f.nodes, x)
    ensures ForkInv(g)
  {
    forall x | x in g.forkHeads
      ensures !HasFinalizedChild(g.nodes, x)
    {
      if c :| c in Children(g.nodes, x) && g.nodes[c].finalized {
        assert false;
      }
    }
    forall x | x in g.nodes && g.nodes[x].finalized && Children(g.nodes, x) == {}
      ensures x in g.forkHeads
    {
      assert f.nodes[id].parent == Some(x) ==> id in Children(f.nodes, x);
    }
  }

  // ---------- a discard that fails at the head ----------

  /** A failed discard keeps the fork heads right exactly when it met no finalized leaf. */
  lemma GiveUpKeepsForkInvIff(algorithm: Algorithm, f: Forest, id: Id, met: set<Id>)
    requires Inv(f) && ForkInv(f) && Legal(algorithm, f, GiveUp(id, met))
    ensures ForkInv(ForestStep(algorithm, f, GiveUp(id, met))) <==> forall x :: x in met ==> !FinalizedLeaf(f, x)
  {
    var g := ForestStep(algorithm, f, GiveUp(id, met));
    assert forall x :: FinalizedLeaf(g, x) <==> FinalizedLeaf(f, x);
  }

  /** What a caller can look up before: every finalized leaf below the node, but the head, is higher than the head. */
  ghost predicate LeavesAreHigher(f: Forest, id: Id)
    requires Rooted(f.nodes) && f.head in f.nodes
  {
    forall x :: x in Subtree(f.nodes, id) && x != f.head && FinalizedLeaf(f, x) ==> f.nodes[x].revision > f.nodes[f.head].revision
  }

  /** Some order of siblings makes the call meet a given node no higher than the head; every order makes it meet a lower one. */
  lemma MayGiveUpAfter(algorithm: Algorithm, f: Forest, id: Id, x: Id) returns (met: set<Id>)
    requires Inv(f) && id in f.nodes && id != f.root && f.head in Subtree(f.nodes, id)
    requires x in Subtree(f.nodes, id) && x != f.head && f.nodes[x].revision <= f.nodes[f.head].revision
    ensures Legal(algorithm, f, GiveUp(id, met)) && x in met
  {
    met := MayMeet(f.nodes, id, x, f.head);
  }

  lemma GivesUpAfter(algorithm: Algorithm, f: Forest, id: Id, met: set<Id>)
    requires Inv(f) && Legal(algorithm, f, GiveUp(id, met))
    ensures f.head in Subtree(f.nodes, id) && met < Subtree(f.nodes, id) && f.head !in met
    ensures forall x :: x in Subtree(f.nodes, id) && f.nodes[x].revision < f.nodes[f.head].revision ==> x in met
    ensures forall x :: x in met ==> f.nodes[x].revision <= f.nodes[f.head].revision
  {
    MetBeforeStop(f.nodes, id, {}, met, f.head);
    SparingNobodyTakesAll(f.nodes, id);
  }

  /** However siblings are ordered, a discard blocked by the head keeps the fork heads right exactly then. */
  lemma BlockedDiscardIsSafeIff(algorithm: Algorithm, f: Forest, id: Id)
    requires Inv(f) && ForkInv(f) && id in f.nodes && id != f.root && f.head in Subtree(f.nodes, id)
    ensures (forall met :: Legal(algorithm, f, GiveUp(id, met)) ==> ForkInv(ForestStep(algorithm, f, GiveUp(id, met))))
            <==> LeavesAreHigher(f, id)
  {
    if LeavesAreHigher(f, id) {
      forall met | Legal(algorithm, f, GiveUp(id, met))
        ensures ForkInv(ForestStep(algorithm, f, GiveUp(id, met)))
      {
        GivesUpAfter(algorithm, f, id, met);
        GiveUpKeepsForkInvIff(algorithm, f, id, met);
      }
    } else {
      var x :| x in Subtree(f.nodes, id) && x != f.head && FinalizedLeaf(f, x) && f.nodes[x].revision <= f.nodes[f.head].revision;
      var met := MayGiveUpAfter(algorithm, f, id, x);
      GiveUpKeepsForkInvIff(algorithm, f, id, met);
    }
  }

  /** A finalized leaf lower than the head is lost for certain. */
  lemma LowerLeafIsLost(algorithm: Algorithm, f: Forest, id: Id, x: Id)
    requires Inv(f) && ForkInv(f) && id in f.nodes && id != f.root && f.head in Subtree(f.nodes, id)
    requires x in Subtree(f.nodes, id) && FinalizedLeaf(f, x) && f.nodes[x].revision < f.nodes[f.head].revision
    ensures exists met :: Legal(algorithm, f, GiveUp(id, met))
    ensures forall met :: Legal(algorithm, f, GiveUp(id, met)) ==> !ForkInv(ForestStep(algorithm, f, GiveUp(id, met)))
  {
    var met := MayGiveUpAfter(algorithm, f, id, x);
    forall m | Legal(algorithm, f, GiveUp(id, m))
      ensures !ForkInv(ForestStep(algorithm, f, GiveUp(id, m)))
    {
      GivesUpAfter(algorithm, f, id, m);
      GiveUpKeepsForkInvIff(algorithm, f, id, m);
      assert x in m;
    }
  }

  /** Node 1 on root 0, leaf 2 and node 3 on it, head 4 on node 3: discarding node 1 fails and drops fork head 2. */
  lemma BlockedDiscardMayBreak(algorithm: Algorithm) returns (f: Forest, id: Id)
    ensures Inv(f) && ForkInv(f) && id in f.nodes && id != f.root && f.head in Subtree(f.nodes, id)
    ensures exists met :: Legal(algorithm, f, GiveUp(id, met))
    ensures forall met :: Legal(algorithm, f, GiveUp(id, met)) ==> !ForkInv(ForestStep(algorithm, f, GiveUp(id, met)))
  {
    var leaf;
    f, id, leaf := LowLeaf();
    hide Inv, ForkInv, FinalizedLeaf, Subtree;
    LowerLeafIsLost(algorithm, f, id, leaf);
  }

  lemma LowLeaf() returns (f: Forest, id: Id, leaf: Id)
    ensures Inv(f) && ForkInv(f) && id in f.nodes && id != f.root && f.head in Subtree(f.nodes, id) && f.head in f.nodes
    ensures leaf in Subtree(f.nodes, id) && FinalizedLeaf(f, leaf) && f.nodes[leaf].revision < f.nodes[f.head].revision
  {
    var h := Header(0, []);
    var r, a, b, c, d := Id(0), Id(1), Id(2), Id(3), Id(4);
    f := Forest(map[r := Meta(None, 0, true, h), a := Meta(Some(r), 1, true, h), b := Meta(Some(a), 2, true, h),
                    c := Meta(Some(a), 2, true, h), d := Meta(Some(c), 3, true, h)], r, d, {b, d});
    id, leaf := a, b;
    assert a in Children(f.nodes, r) && c in Children(f.nodes, a) && d in Children(f.nodes, c);
    assert Children(f.nodes, b) == Children(f.nodes, d) == {};
    assert f.nodes.Keys == {r, a, b, c, d};
    assert AncestorOrSelf(f.nodes, a, c) && AncestorOrSelf(f.nodes, a, b);
  }

  // ---------- every call ----------

  /** The exact condition under which a call keeps the fork heads right. */
  ghost predicate Tidy(algorithm: Algorithm, f: Forest, op: Op)
    requires Inv(f) && Legal(algorithm, f, op)
  {
    match op
    case Finalize(id) => id in f.nodes ==> !HasFinalizedChild(f.nodes, id) && !FallsToAParent(algorithm, f, id)
    case GiveUp(_, met) => forall x :: x in met ==> !FinalizedLeaf(f, x)
    case _ => true
  }

  lemma StepKeepsForkInvIff(algorithm: Algorithm, f: Forest, op: Op)
    requires Inv(f) && ForkInv(f) && Legal(algorithm, f, op)
    ensures ForkInv(ForestStep(algorithm, f, op)) <==> Tidy(algorithm, f, op)
  {
    match op
    case Finalize(id) =>
      if id in f.nodes {
        FinalizeKeepsForkInvIff(algorithm, f, id);
      }
    case Discard(id) =>
      if id in f.nodes && id != f.root {
        DiscardKeepsForkInv(f, id);
      }
    case GiveUp(id, met) => GiveUpKeepsForkInvIff(algorithm, f, id, met);
    case Commit(id) =>
      if id in f.nodes && id != f.root {
        CommitKeepsForkInv(f, id);
      }
    case _ => GrowKeepsForkInv(algorithm, f, op);
  }

  /** Under fifo and block time a node finalized for the first time is no exception: it has no children. */
  lemma FirstFinalizeIsTidy(algorithm: Algorithm, f: Forest, id: Id)
    requires Inv(f) && id in f.nodes && !f.nodes[id].finalized && !algorithm.Pob?
    ensures Legal(algorithm, f, Op.Finalize(id)) && Tidy(algorithm, f, Op.Finalize(id))
  {
  }

  lemma GrowKeepsForkInv(algorithm: Algorithm, f: Forest, op: Op)
    requires Inv(f) && ForkInv(f) && (op.Create? || op.Clone? || op.Put? || op.Remove? || op.Squash?)
    ensures ForkInv(ForestStep(algorithm, f, op))
  {
    var g := ForestStep(algorithm, f, op);
    if Creates(f, op) || Clones(f, op) {
      assert g.nodes.Keys == f.nodes.Keys + {op.id};
      forall x
        ensures Children(f.nodes, x) <= Children(g.nodes, x) <= Children(f.nodes, x) + {op.id}
      {
      }
      assert !g.nodes[op.id].finalized;
      forall x | x in g.forkHeads
        ensures !HasFinalizedChild(g.nodes, x)
      {
        assert forall c :: c in Children(g.nodes, x) && g.nodes[c].finalized ==> c in Children(f.nodes, x);
      }
    }
  }

  /** What stays after a discard: everything outside, with all its children except the discarded one. */
  lemma DiscardedChildren(f: Forest, id: Id, x: Id)
    requires Inv(f) && id in f.nodes && id != f.root
    requires x in Discarded(f, id).nodes
    ensures Children(Discarded(f, id).nodes, x) == Children(f.nodes, x) - {id}
    ensures x !in Subtree(f.nodes, id)
  {
    forall c | c in Children(f.nodes, x) && c != id
      ensures c !in Subtree(f.nodes, id)
    {
    }
  }

  lemma DiscardKeepsForkInv(f: Forest, id: Id)
    requires Inv(f) && ForkInv(f) && id in f.nodes && id != f.root
    ensures ForkInv(Discarded(f, id))
  {
    var g := Discarded(f, id);
    var p := f.nodes[id].parent.value;
    forall x | x in g.nodes
      ensures Children(g.nodes, x) == Children(f.nodes, x) - {id}
    {
      DiscardedChildren(f, id, x);
    }
    ParentStays(f, id);
    assert forall x :: x in g.nodes && x != p ==> id !in Children(f.nodes, x);
    forall x | x in g.forkHeads
      ensures !HasFinalizedChild(g.nodes, x)
    {
      if x in f.forkHeads {
        assert x in g.nodes;
        assert forall c :: c in Children(g.nodes, x) && g.nodes[c].finalized ==> c in Children(f.nodes, x) && f.nodes[c].finalized;
      }
    }
  }

  lemma ParentStays(f: Forest, id: Id)
    requires Inv(f) && id in f.nodes && id != f.root
    ensures f.nodes[id].parent.value in Discarded(f, id).nodes
  {
    if f.nodes[id].parent.value in Subtree(f.nodes, id) {
      AncestorIsLower(f.nodes, id, f.nodes[id].parent.value);
    }
  }

  lemma CommittedChildren(f: Forest, id: Id, x: Id)
    requires Inv(f) && id in f.nodes && x in Committed(f, id).nodes
    ensures Children(Committed(f, id).nodes, x) == Children(f.nodes, x)
  {
    var g := Committed(f, id);
    if id in Children(f.nodes, x) {
      AncestorIsLower(f.nodes, id, x);
      assert false;
    }
    assert forall c :: c in Children(f.nodes, x) ==> c in Subtree(f.nodes, id);
  }

  lemma CommitKeepsForkInv(f: Forest, id: Id)
    requires Inv(f) && ForkInv(f) && id in f.nodes
    ensures ForkInv(Committed(f, id))
  {
    var g := Committed(f, id);
    forall x | x in g.nodes
      ensures Children(g.nodes, x) == Children(f.nodes, x)
      ensures HasFinalizedChild(g.nodes, x) <==> HasFinalizedChild(f.nodes, x)
    {
      CommittedChildren(f, id, x);
      assert forall c :: c in Children(f.nodes, x) ==> g.nodes[c].finalized == f.nodes[c].finalized;
    }
  }

  // ---------- the documented definition ----------

  /** The documentation's fork heads: finalized nodes without finalized children. */
  ghost function Tips(f: Forest): set<Id> {
    set x | x in f.nodes && f.nodes[x].finalized && !HasFinalizedChild(f.nodes, x)
  }

  ghost predicate OnlyUnfinalizedSiblings(f: Forest, id: Id)
    requires id in f.nodes && f.nodes[id].parent.Some?
  {
    var siblings := Children(f.nodes, f.nodes[id].parent.value) - {id};
    siblings != {} && forall c :: c in siblings ==> !f.nodes[c].finalized
  }

  /**
   * A discard keeps the documented definition exactly when the discarded node was not finalized or
   * its parent is not left with unfinalized children only.
   */
  lemma DiscardKeepsTipsIff(f: Forest, id: Id)
    requires Inv(f) && f.forkHeads == Tips(f) && id in f.nodes && id != f.root
    ensures Discarded(f, id).forkHeads == Tips(Discarded(f, id))
            <==> !(f.nodes[id].finalized && OnlyUnfinalizedSiblings(f, id))
  {
    var g := Discarded(f, id);
    var p := f.nodes[id].parent.value;
    ParentStays(f, id);
    forall x | x in g.nodes
      ensures Children(g.nodes, x) == Children(f.nodes, x) - {id}
      ensures x != p ==> (x in Tips(g) <==> x in Tips(f))
      ensures x != p ==> (x in g.forkHeads <==> x in f.forkHeads)
    {
      DiscardedChildren(f, id, x);
      if x != p {
        assert Children(g.nodes, x) == Children(f.nodes, x);
        assert forall c :: c in Children(f.nodes, x) ==> c in g.nodes && g.nodes[c] == f.nodes[c];
      }
    }
    DiscardAtParent(f, id);
    assert g.forkHeads <= g.nodes.Keys;
  }

  lemma DiscardAtParent(f: Forest, id: Id)
    requires Inv(f) && f.forkHeads == Tips(f) && id in f.nodes && id != f.root
    ensures var g, p := Discarded(f, id), f.nodes[id].parent.value;
            (p in g.forkHeads <==> p in Tips(g)) <==> !(f.nodes[id].finalized && OnlyUnfinalizedSiblings(f, id))
  {
    var g := Discarded(f, id);
    var p := f.nodes[id].parent.value;
    ParentStays(f, id);
    DiscardedChildren(f, id, p);
    var siblings := Children(f.nodes, p) - {id};
    assert forall c :: c in siblings ==> c in g.nodes && g.nodes[c] == f.nodes[c];
    assert id in Children(f.nodes, p);
    assert HasFinalizedChild(f.nodes, p) <==> f.nodes[id].finalized || exists c :: c in siblings && f.nodes[c].finalized;
    assert HasFinalizedChild(g.nodes, p) <==> exists c :: c in siblings && f.nodes[c].finalized;
  }

  /** Nodes 1 and 4 on root 0, finalized 2 and unfinalized 3 on node 1, the head 5 on node 4. */
  ghost function TwoBranches(): Forest {
    var h := Header(0, []);
    var r, a, x, y, b, c := Id(0), Id(1), Id(2), Id(3), Id(4), Id(5);
    Forest(map[r := Meta(None, 0, true, h), a := Meta(Some(r), 1, true, h), b := Meta(Some(r), 1, true, h),
               c := Meta(Some(b), 2, true, h), x := Meta(Some(a), 2, true, h), y := Meta(Some(a), 2, false, h)],
           r, c, {c, x})
  }

  lemma TwoBranchesTips()
    ensures TwoBranches().forkHeads == Tips(TwoBranches())
  {
    var f := TwoBranches();
    assert Id(2) in Children(f.nodes, Id(1)) && Id(1) in Children(f.nodes, Id(0)) && Id(5) in Children(f.nodes, Id(4));
    assert forall p :: p in {Id(5), Id(2)} ==> Children(f.nodes, p) == {};
    assert forall p :: p in {Id(0), Id(1), Id(4)} ==> HasFinalizedChild(f.nodes, p);
    assert f.nodes.Keys == {Id(0), Id(1), Id(4)} + {Id(5), Id(2), Id(3)};
  }

  lemma TwoBranchesInv()
    ensures Inv(TwoBranches())
  {
  }

  lemma TwoBranchesDiscard()
    ensures Rooted(TwoBranches().nodes) && Legal(Fifo, TwoBranches(), Discard(Id(2)))
    ensures OnlyUnfinalizedSiblings(TwoBranches(), Id(2))
  {
    var f := TwoBranches();
    TwoBranchesInv();
    InvIsRooted(f);
    hide Rooted, Inv;
    assert !AncestorOrSelf(f.nodes, Id(2), Id(4));
    assert Children(f.nodes, Id(1)) - {Id(2)} == {Id(3)};
  }

  /**
   * A forest in which a legal discard breaks it: without node 2, node 1 is a finalized node without
   * finalized children, but no fork head.
   */
  lemma DiscardMayLoseATip() returns (f: Forest, id: Id)
    ensures Inv(f) && f.forkHeads == Tips(f) && Legal(Fifo, f, Discard(id)) && id in f.nodes && id != f.root
    ensures Discarded(f, id).forkHeads != Tips(Discarded(f, id))
  {
    f, id := TwoBranches(), Id(2);
    TwoBranchesTips();
    TwoBranchesInv();
    TwoBranchesDiscard();
    hide Inv, Tips, Discarded, Legal, OnlyUnfinalizedSiblings;
    DiscardKeepsTipsIff(f, id);
  }

  /** Finalizing the root again after its child makes it a fork head above another one. */
  lemma RefinalizeMayBreak(algorithm: Algorithm) returns (f: Forest, id: Id)
    ensures Inv(f) && ForkInv(f) && id in f.nodes && Legal(algorithm, f, Finalize(id)) && !ForkInv(Finalized(algorithm, f, id))
  {
    var h := Header(0, []);
    var r, a := Id(0), Id(1);
    f := Forest(map[r := Meta(None, 0, true, h), a := Meta(Some(r), 1, true, h)], r, a, {a});
    id := r;
    assert a in Children(f.nodes, r) && Children(f.nodes, a) == {};
    assert f.nodes.Keys == {r, a};
    FinalizeKeepsForkInvIff(algorithm, f, id);
  }

  /** A double production: of two nodes of one signer on the root neither is a fork head, but the root is. */
  lemma DoubleProductionMayBreak() returns (f: Forest, id: Id)
    ensures Inv(f) && ForkInv(f) && id in f.nodes && !f.nodes[id].finalized && Legal(Pob, f, Finalize(id))
    ensures var g := Finalized(Pob, f, id); g.forkHeads == {g.root} == {g.head} && !ForkInv(g)
  {
    var h := Header(0, []);
    var r, a, b := Id(0), Id(1), Id(2);
    f := Forest(map[r := Meta(None, 0, true, h), a := Meta(Some(r), 1, true, h), b := Meta(Some(r), 1, false, h)], r, a, {a});
    id := b;
    assert a in Children(f.nodes, r) && Children(f.nodes, a) == {} && f.nodes.Keys == {r, a, b};
    assert f.forkHeads - {a} == {};
    DoubleChoice(f, id);
    assert a in Children(Finalized(Pob, f, id).nodes, r);
  }

  /** The exact condition under which a call keeps the documented definition. */
  ghost predicate KeepsTips(algorithm: Algorithm, f: Forest, op: Op)
    requires Inv(f) && Legal(algorithm, f, op)
  {
    match op
    case Discard(id) => id in f.nodes && id != f.root ==> !(f.nodes[id].finalized && OnlyUnfinalizedSiblings(f, id))
    case GiveUp(_, met) => met !! f.forkHeads
    case _ => Tidy(algorithm, f, op)
  }

  lemma StepKeepsTipsIff(algorithm: Algorithm, f: Forest, op: Op)
    requires Inv(f) && f.forkHeads == Tips(f) && Legal(algorithm, f, op)
    ensures var g := ForestStep(algorithm, f, op);
            g.forkHeads == Tips(g) <==> KeepsTips(algorithm, f, op)
  {
    var g := ForestStep(algorithm, f, op);
    TipsAreForkInv(f);
    StepKeepsInv(algorithm, f, op);
    match op
    case Discard(id) =>
      if id in f.nodes && id != f.root {
        DiscardKeepsTipsIff(f, id);
      }
    case GiveUp(_, met) => GiveUpTips(f, met);
    case _ =>
      StepKeepsForkInvIff(algorithm, f, op);
      if Tidy(algorithm, f, op) {
        forall x | x in Tips(g)
          ensures x in g.forkHeads
        {
          NewTips(algorithm, f, op, x);
        }
        ForkHeadsAreTips(g);
      } else if g.forkHeads == Tips(g) {
        TipsAreForkInv(g);
      }
  }

  lemma GiveUpTips(f: Forest, met: set<Id>)
    requires f.forkHeads == Tips(f)
    ensures var g := f.(forkHeads := f.forkHeads - met); g.forkHeads == Tips(g) <==> met !! f.forkHeads
  {
    var g := f.(forkHeads := f.forkHeads - met);
    assert Tips(g) == Tips(f);
    assert met !! f.forkHeads <==> f.forkHeads - met == f.forkHeads;
  }

  /** What a caller can look up before: every fork head below the node, but the head, is higher than the head. */
  ghost predicate ForkHeadsAreHigher(f: Forest, id: Id)
    requires Rooted(f.nodes) && f.head in f.nodes
  {
    forall x :: x in Subtree(f.nodes, id) && x != f.head && x in f.forkHeads ==> f.nodes[x].revision > f.nodes[f.head].revision
  }

  /** However siblings are ordered, a discard blocked by the head keeps the documented definition exactly then. */
  lemma BlockedDiscardKeepsTipsIff(algorithm: Algorithm, f: Forest, id: Id)
    requires Inv(f) && f.forkHeads == Tips(f) && id in f.nodes && id != f.root && f.head in Subtree(f.nodes, id)
    ensures (forall met :: Legal(algorithm, f, GiveUp(id, met)) ==> KeepsTips(algorithm, f, GiveUp(id, met)))
            <==> ForkHeadsAreHigher(f, id)
  {
    if ForkHeadsAreHigher(f, id) {
      forall met | Legal(algorithm, f, GiveUp(id, met))
        ensures met !! f.forkHeads
      {
        GivesUpAfter(algorithm, f, id, met);
      }
    } else {
      var x :| x in Subtree(f.nodes, id) && x != f.head && x in f.forkHeads && f.nodes[x].revision <= f.nodes[f.head].revision;
      var met := MayGiveUpAfter(algorithm, f, id, x);
    }
  }

  lemma ForkHeadsAreTips(f: Forest)
    requires Inv(f) && ForkInv(f)
    ensures f.forkHeads <= Tips(f)
  {
  }

  lemma NewTips(algorithm: Algorithm, f: Forest, op: Op, x: Id)
    requires Inv(f) && f.forkHeads == Tips(f) && Legal(algorithm, f, op) && Tidy(algorithm, f, op) && !op.Discard? && !op.GiveUp?
    requires x in Tips(ForestStep(algorithm, f, op))
    ensures x in ForestStep(algorithm, f, op).forkHeads
  {
    hide Finalized, Committed, Inv, Tips, Children, FallsToAParent;
    var g := ForestStep(algorithm, f, op);
    match op
    case Finalize(id) =>
      if id in f.nodes {
        HeadPresent(f);
        FinalizedChildren(algorithm, f, id);
        FinalizedForkHeads(algorithm, f, id);
        FinalizedTips(f, g, id, x);
      }
    case Commit(id) =>
      if id in f.nodes && id != f.root {
        CommitTips(f, id, x);
      }
    case _ =>
      GrowTips(algorithm, f, op, x);
  }

  lemma FinalizedTips(f: Forest, g: Forest, id: Id, x: Id)
    requires f.forkHeads == Tips(f) && id in f.nodes && x in Tips(g)
    requires g.nodes == f.nodes[id := f.nodes[id].(finalized := true)]
    requires var parent := f.nodes[id].parent;
             g.forkHeads == (if parent.Some? then f.forkHeads - {parent.value} else f.forkHeads) + {id}
    requires forall x :: Children(g.nodes, x) == Children(f.nodes, x)
    ensures x in g.forkHeads
  {
    assert forall c :: c in Children(f.nodes, x) && f.nodes[c].finalized ==> c in Children(g.nodes, x);
    assert f.nodes[id].parent == Some(x) ==> id in Children(g.nodes, x);
  }

  lemma GrowTips(algorithm: Algorithm, f: Forest, op: Op, x: Id)
    requires Inv(f) && f.forkHeads == Tips(f) && (op.Create? || op.Clone? || op.Put? || op.Remove? || op.Squash?)
    requires x in Tips(ForestStep(algorithm, f, op))
    ensures x in f.forkHeads
  {
    var g := ForestStep(algorithm, f, op);
    assert Children(f.nodes, x) <= Children(g.nodes, x);
    assert HasFinalizedChild(f.nodes, x) ==> HasFinalizedChild(g.nodes, x);
  }

  lemma CommitTips(f: Forest, id: Id, x: Id)
    requires Inv(f) && f.forkHeads == Tips(f) && id in f.nodes && x in Tips(Committed(f, id))
    ensures x in Committed(f, id).forkHeads
  {
    var g := Committed(f, id);
    CommittedChildren(f, id, x);
    assert forall c :: c in Children(f.nodes, x) ==> g.nodes[c].finalized == f.nodes[c].finalized;
  }

  lemma TipsAreForkInv(f: Forest)
    requires Inv(f) && f.forkHeads == Tips(f)
    ensures ForkInv(f)
  {
  }

  // ---------- calls that are not legal ----------

  /** Root 0 with finalized nodes 1 and 2 on it, node 1 being the head: committing node 2 is away from the head. */
  lemma CommitMayBeIllegal(algorithm: Algorithm) returns (f: Forest, id: Id)
    ensures Inv(f) && ForkInv(f) && id in f.nodes && f.nodes[id].finalized && !Legal(algorithm, f, Op.Commit(id))
    ensures !Inv(f.(nodes := f.nodes[id := f.nodes[id].(parent := None)], root := id))
  {
    var h := Header(0, []);
    var r, a, b := Id(0), Id(1), Id(2);
    f := Forest(map[r := Meta(None, 0, true, h), a := Meta(Some(r), 1, true, h), b := Meta(Some(r), 1, true, h)], r, a, {a, b});
    id := b;
    assert a in Children(f.nodes, r) && Children(f.nodes, a) == Children(f.nodes, b) == {} && f.nodes.Keys == {r, a, b};
    var cut := f.nodes[id := f.nodes[id].(parent := None)];
    assert cut[r].parent.None? && r != id;
    assert !AncestorOrSelf(f.nodes, b, r);
  }

  // ---------- the head ----------

  /** A forest with the time at which each finalized node was first finalized. */
  datatype Timeline = Timeline(forest: Forest, stamps: map<Id, nat>, clock: nat)

  ghost function TimelineStep(algorithm: Algorithm, t: Timeline, op: Op): Timeline
    requires Inv(t.forest) && Legal(algorithm, t.forest, op)
  {
    var next := ForestStep(algorithm, t.forest, op);
    if op.Finalize? && op.id in t.forest.nodes && !t.forest.nodes[op.id].finalized
    then Timeline(next, t.stamps[op.id := t.clock], t.clock + 1)
    else Timeline(next, t.stamps, t.clock)
  }

  /** a beats b: a longer chain, then (under block time) an earlier block, then the one finalized first. */
  ghost predicate Beats(algorithm: Algorithm, t: Timeline, a: Id, b: Id)
    requires {a, b} <= t.forest.nodes.Keys && {a, b} <= t.stamps.Keys
  {
    var ma, mb := t.forest.nodes[a], t.forest.nodes[b];
    || ma.revision > mb.revision
    || (ma.revision == mb.revision && algorithm.BlockTime? && ma.header.timestamp < mb.header.timestamp)
    || (ma.revision == mb.revision && (algorithm.BlockTime? ==> ma.header.timestamp == mb.header.timestamp) && t.stamps[a] < t.stamps[b])
  }

  ghost predicate HeadIsChosen(algorithm: Algorithm, t: Timeline) {
    && Inv(t.forest)
    && (forall x :: x in t.forest.nodes && t.forest.nodes[x].finalized ==> x in t.stamps && t.stamps[x] < t.clock)
    && (forall x :: x in t.forest.nodes && t.forest.nodes[x].finalized && x != t.forest.head ==> Beats(algorithm, t, t.forest.head, x))
  }

  /** The rule the head follows: pob goes by block time until a signer produces twice. */
  function HeadRule(algorithm: Algorithm): Algorithm {
    if algorithm.Pob? then BlockTime else algorithm
  }

  /** The call finalizes a node of the head's signer at the head's height. */
  predicate Doubles(algorithm: Algorithm, f: Forest, op: Op)
    requires f.head in f.nodes
  {
    op.Finalize? && op.id in f.nodes && Double(algorithm, f.nodes[f.head], f.nodes[op.id])
  }

  /** A call keeps the head rule exactly if it is no double production; under fifo and block time none is. */
  lemma StepKeepsHeadChosenIff(algorithm: Algorithm, t: Timeline, op: Op)
    requires HeadIsChosen(HeadRule(algorithm), t) && Legal(algorithm, t.forest, op) && t.forest.head in t.forest.nodes
    ensures HeadIsChosen(HeadRule(algorithm), TimelineStep(algorithm, t, op)) <==> !Doubles(algorithm, t.forest, op)
  {
    hide Finalized, Committed, Discarded, Inv;
    var f, rule := t.forest, HeadRule(algorithm);
    StepKeepsInv(algorithm, f, op);
    if op.Finalize? {
      if op.id in f.nodes {
        if Doubles(algorithm, f, op) {
          DoubleBreaksHeadRule(t, op.id);
        } else {
          WithoutDouble(algorithm, f, op.id);
          StepKeepsInv(rule, f, op);
          FinalizeKeepsHeadChosen(rule, t, op.id);
        }
      }
    } else {
      OthersFinalizeNothing(algorithm, f, op);
      StaysChosen(rule, t, ForestStep(algorithm, f, op));
    }
  }

  /** Without a double production pob finalizes as block time does. */
  lemma WithoutDouble(algorithm: Algorithm, f: Forest, id: Id)
    requires Inv(f) && id in f.nodes && !Double(algorithm, f.nodes[f.head], f.nodes[id])
    ensures Finalized(algorithm, f, id) == Finalized(HeadRule(algorithm), f, id)
  {
  }

  /** After one the old head still beats the new one. */
  lemma DoubleBreaksHeadRule(t: Timeline, id: Id)
    requires HeadIsChosen(BlockTime, t) && id in t.forest.nodes && Double(Pob, t.forest.nodes[t.forest.head], t.forest.nodes[id])
    requires Decidable(Pob, t.forest.nodes[t.forest.head], t.forest.nodes[id])
    ensures !HeadIsChosen(BlockTime, TimelineStep(Pob, t, Op.Finalize(id)))
  {
    hide Inv, Finalized, Beats;
    var f, next := t.forest, TimelineStep(Pob, t, Op.Finalize(id));
    HeadPresent(f);
    FinalizedChildren(Pob, f, id);
    PobDropsBothDoubles(f, id);
    FallbackIsFinalized(f, next.forest.head);
    OldHeadStillBeats(t, next, next.forest.head, id);
  }

  /** Only one of two nodes beats the other, and finalizing another one does not turn them around. */
  lemma OldHeadStillBeats(t: Timeline, next: Timeline, x: Id, id: Id)
    requires var f := t.forest;
             {f.head, x} <= f.nodes.Keys && {f.head, x} <= t.stamps.Keys && Beats(BlockTime, t, f.head, x)
    requires id in t.forest.nodes && next.forest.nodes == t.forest.nodes[id := t.forest.nodes[id].(finalized := true)]
    requires t.stamps.Keys <= next.stamps.Keys && next.stamps[x] == t.stamps[x] && next.stamps[t.forest.head] == t.stamps[t.forest.head]
    ensures !Beats(BlockTime, next, x, t.forest.head)
  {
  }

  lemma FallbackIsFinalized(f: Forest, x: Id)
    requires Inv(f) && f.nodes[f.head].parent.Some? && x in (f.forkHeads - {f.head}) + {f.nodes[f.head].parent.value}
    ensures x in f.nodes && f.nodes[x].finalized
  {
  }

  lemma FinalizeKeepsHeadChosen(algorithm: Algorithm, t: Timeline, id: Id)
    requires HeadIsChosen(algorithm, t) && !algorithm.Pob? && id in t.forest.nodes
    requires Inv(TimelineStep(algorithm, t, Op.Finalize(id)).forest)
    ensures HeadIsChosen(algorithm, TimelineStep(algorithm, t, Op.Finalize(id)))
  {
    hide Finalized, Inv;
    var f, next := t.forest, TimelineStep(algorithm, t, Op.Finalize(id));
    HeadPresent(f);
    FinalizedOutsidePob(algorithm, f, id);
    if f.nodes[id].revision == f.nodes[f.head].revision {
      FinalizedPrefers(algorithm, f, id);
    }
  }

  /** Which of the two wins a tie in height. */
  lemma FinalizedPrefers(algorithm: Algorithm, f: Forest, id: Id)
    requires Inv(f) && id in f.nodes && !algorithm.Pob? && f.nodes[id].revision == f.nodes[f.head].revision
    ensures Finalized(algorithm, f, id).head ==
            if algorithm.BlockTime? && f.nodes[id].header.timestamp < f.nodes[f.head].header.timestamp then id else f.head
  {
  }

  /** Every finalized node of g is a finalized node of f with the same revision and header. */
  ghost predicate FinalizedWithin(f: Forest, g: Forest) {
    forall x :: x in g.nodes && g.nodes[x].finalized ==>
      x in f.nodes && f.nodes[x].finalized && g.nodes[x].revision == f.nodes[x].revision && g.nodes[x].header == f.nodes[x].header
  }

  /** Calls other than finalize keep the head and finalize nothing. */
  lemma OthersFinalizeNothing(algorithm: Algorithm, f: Forest, op: Op)
    requires Inv(f) && Legal(algorithm, f, op) && !op.Finalize?
    ensures var g := ForestStep(algorithm, f, op); g.head == f.head && FinalizedWithin(f, g)
  {
    hide Finalized, Subtree, Children, FinalizedWithin;
    SameNodesWithin(f, f);
    match op
    case Discard(id) => if id in f.nodes { DiscardFinalizesNothing(f, id); }
    case Commit(id) => if id in f.nodes { CommitFinalizesNothing(f, id); }
    case GiveUp(_, _) => SameNodesWithin(f, ForestStep(algorithm, f, op));
    case _ => GrowFinalizesNothing(algorithm, f, op);
  }

  lemma SameNodesWithin(f: Forest, g: Forest)
    requires g.nodes == f.nodes
    ensures FinalizedWithin(f, g)
  {
  }

  lemma DiscardFinalizesNothing(f: Forest, id: Id)
    requires Inv(f) && id in f.nodes
    ensures FinalizedWithin(f, Discarded(f, id))
  {
  }

  lemma CommitFinalizesNothing(f: Forest, id: Id)
    requires Inv(f) && id in f.nodes
    ensures FinalizedWithin(f, Committed(f, id))
  {
  }

  lemma GrowFinalizesNothing(algorithm: Algorithm, f: Forest, op: Op)
    requires Inv(f) && (op.Create? || op.Clone? || op.Put? || op.Remove? || op.Squash?)
    ensures FinalizedWithin(f, ForestStep(algorithm, f, op))
  {
  }

  lemma StaysChosen(algorithm: Algorithm, t: Timeline, g: Forest)
    requires HeadIsChosen(algorithm, t) && Inv(g) && g.head == t.forest.head && FinalizedWithin(t.forest, g)
    ensures HeadIsChosen(algorithm, Timeline(g, t.stamps, t.clock))
  {
    hide Inv;
    HeadPresent(t.forest);
    HeadPresent(g);
  }

  /** Where the head rule holds no node is higher than the head, so a blocked discard is safe only if the head is the only leaf. */
  lemma HeadIsTheOnlyLeaf(algorithm: Algorithm, t: Timeline, id: Id)
    requires HeadIsChosen(algorithm, t) && id in t.forest.nodes
    ensures LeavesAreHigher(t.forest, id)
            <==> forall x :: x in Subtree(t.forest.nodes, id) && FinalizedLeaf(t.forest, x) ==> x == t.forest.head
  {
    var f := t.forest;
    forall x | FinalizedLeaf(f, x) && x != f.head
      ensures f.nodes[x].revision <= f.nodes[f.head].revision
    {
      assert Beats(algorithm, t, f.head, x);
    }
  }

  lemma HeadPresent(f: Forest)
    requires Inv(f)
    ensures f.head in f.nodes && f.nodes[f.head].finalized
  {
  }

  /**
   * Under pob, when a node as high as the head and by its signer is finalized, the head becomes the
   * best of the old head's parent and the other fork heads. Of two different nodes neither stays head;
   * and finalizing the head itself again deposes it.
   */
  lemma PobDropsBothDoubles(f: Forest, id: Id)
    requires Inv(f) && id in f.nodes && Double(Pob, f.nodes[f.head], f.nodes[id]) && Decidable(Pob, f.nodes[f.head], f.nodes[id])
    ensures var g, parent := Finalized(Pob, f, id), f.nodes[f.head].parent.value;
            && IsBest(f.nodes, (f.forkHeads - {f.head}) + {parent}, g.head)
            && g.head != f.head && (!f.nodes[id].finalized ==> g.head != id)
  {
    DoubleChoice(f, id);
  }

  /**
   * In so many words: among the old head's parent and the other fork heads, none is higher than the new
   * head, at its height none is earlier, and at its height and time none has a smaller id.
   */
  lemma DoubleHeadIsHighest(f: Forest, id: Id)
    requires Inv(f) && id in f.nodes && f.nodes[f.head].parent.Some?
    requires f.nodes[id].revision == f.nodes[f.head].revision && f.nodes[id].header.signer == f.nodes[f.head].header.signer
    ensures Decidable(Pob, f.nodes[f.head], f.nodes[id])
    ensures var candidates, best := (f.forkHeads - {f.head}) + {f.nodes[f.head].parent.value}, Finalized(Pob, f, id).head;
            && best in candidates && best in f.nodes && best != f.head
            && forall o :: o in candidates && o != best ==>
                 && o in f.nodes
                 && f.nodes[o].revision <= f.nodes[best].revision
                 && (f.nodes[o].revision == f.nodes[best].revision ==> f.nodes[o].header.timestamp >= f.nodes[best].header.timestamp)
                 && (f.nodes[o].revision == f.nodes[best].revision && f.nodes[o].header.timestamp == f.nodes[best].header.timestamp ==>
                       o.value > best.value)
  {
    PobDropsBothDoubles(f, id);
    HeadsParent(f);
    hide Inv, Finalized, Prior, Rooted;
    var best := Finalized(Pob, f, id).head;
    forall o | o in (f.forkHeads - {f.head}) + {f.nodes[f.head].parent.value} && o != best
      ensures o in f.nodes && Prior(best, f.nodes[best], o, f.nodes[o])
    {
    }
    forall o | o in f.nodes && Prior(best, f.nodes[best], o, f.nodes[o])
      ensures f.nodes[o].revision <= f.nodes[best].revision
      ensures f.nodes[o].revision == f.nodes[best].revision ==> f.nodes[o].header.timestamp >= f.nodes[best].header.timestamp
      ensures f.nodes[o].revision == f.nodes[best].revision && f.nodes[o].header.timestamp == f.nodes[best].header.timestamp ==>
                o.value > best.value
    {
      PriorPrefers(best, f.nodes[best], o, f.nodes[o]);
    }
  }

  /** The node would win against the head by height or, except under fifo, by time. */
  predicate Overtakes(algorithm: Algorithm, head: Meta, node: Meta) {
    || node.revision > head.revision
    || (node.revision == head.revision && !algorithm.Fifo? && node.header.timestamp < head.header.timestamp)
  }

  /**
   * Finalizing a node again changes nothing exactly when it is a fork head whose parent is not one, it
   * does not overtake the head, and under pob it is not by the head's signer at the head's height.
   */
  lemma RefinalizeChangesNothingIff(algorithm: Algorithm, f: Forest, id: Id)
    requires Inv(f) && id in f.nodes && f.nodes[id].finalized && Decidable(algorithm, f.nodes[f.head], f.nodes[id])
    ensures var node, head := f.nodes[id], f.nodes[f.head];
            Finalized(algorithm, f, id) == f <==>
            && id in f.forkHeads && (node.parent.Some? ==> node.parent.value !in f.forkHeads)
            && (id == f.head || !Overtakes(algorithm, head, node)) && !Double(algorithm, head, node)
  {
    FinalizedChildren(algorithm, f, id);
    assert f.nodes[id := f.nodes[id].(finalized := true)] == f.nodes;
    if Double(algorithm, f.nodes[f.head], f.nodes[id]) {
      DoubleChoice(f, id);
    }
  }
}
