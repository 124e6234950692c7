/**
 * What discarding a node takes with it: the node and, growing a queue, the children of everything
 * already taken, except the ids the caller spares.
 */
module Queues {
  import opened Deltas
  import opened StateDeltas
  import opened Trees

  ghost predicate Doomed(nodes: Nodes, top: Id, spared: set<Id>, x: Id)
    requires Rooted(nodes) && x in nodes
    decreases nodes[x].revision
  {
    x == top || (x !in spared && nodes[x].parent.Some? && Doomed(nodes, top, spared, nodes[x].parent.value))
  }

  ghost function DoomedSet(nodes: Nodes, top: Id, spared: set<Id>): set<Id>
    requires Rooted(nodes)
  {
    set x | x in nodes && Doomed(nodes, top, spared, x)
  }

  lemma {:induction false} DoomedIsBelow(nodes: Nodes, top: Id, spared: set<Id>, x: Id)
    requires Rooted(nodes) && x in nodes && Doomed(nodes, top, spared, x)
    ensures AncestorOrSelf(nodes, top, x)
    decreases nodes[x].revision
  {
    if x != top {
      DoomedIsBelow(nodes, top, spared, nodes[x].parent.value);
    }
  }

  /** Discarding takes the whole subtree exactly when what it leaves is still a rooted tree. */
  lemma SparesNothingIffRooted(nodes: Nodes, top: Id, spared: set<Id>)
    requires Rooted(nodes) && top in nodes
    ensures Rooted(nodes - DoomedSet(nodes, top, spared)) <==> DoomedSet(nodes, top, spared) == Subtree(nodes, top)
  {
    forall x | x in DoomedSet(nodes, top, spared)
      ensures x in Subtree(nodes, top)
    {
      DoomedIsBelow(nodes, top, spared, x);
    }
    if Rooted(nodes - DoomedSet(nodes, top, spared)) {
      forall x | x in Subtree(nodes, top)
        ensures x in DoomedSet(nodes, top, spared)
      {
        RootedTakesAll(nodes, top, spared, x);
      }
    }
  }

  lemma NothingHangs(nodes: Nodes, absent: Id)
    requires Rooted(nodes) && absent !in nodes
    ensures forall x :: x in nodes ==> nodes[x].parent != Some(absent)
  {
  }

  lemma {:induction false} RootedTakesAll(nodes: Nodes, top: Id, spared: set<Id>, x: Id)
    requires Rooted(nodes) && Rooted(nodes - DoomedSet(nodes, top, spared))
    requires x in nodes && AncestorOrSelf(nodes, top, x)
    ensures Doomed(nodes, top, spared, x)
    decreases nodes[x].revision
  {
    if x != top {
      var parent := nodes[x].parent.value;
      RootedTakesAll(nodes, top, spared, parent);
      var left := nodes - DoomedSet(nodes, top, spared);
      NothingHangs(left, parent);
      assert x !in left;
    }
  }

  lemma {:induction false} SparingNobody(nodes: Nodes, top: Id, x: Id)
    requires Rooted(nodes) && x in nodes
    ensures Doomed(nodes, top, {}, x) <==> AncestorOrSelf(nodes, top, x)
    decreases nodes[x].revision
  {
    if x != top && nodes[x].parent.Some? {
      SparingNobody(nodes, top, nodes[x].parent.value);
    }
  }

  lemma SparingNobodyTakesAll(nodes: Nodes, top: Id)
    requires Rooted(nodes)
    ensures DoomedSet(nodes, top, {}) == Subtree(nodes, top)
  {
    forall x | x in nodes
      ensures Doomed(nodes, top, {}, x) <==> AncestorOrSelf(nodes, top, x)
    {
      SparingNobody(nodes, top, x);
    }
  }

  /** Neither the parent of what is discarded nor another parentless node is taken. */
  lemma NotTaken(nodes: Nodes, top: Id, spared: set<Id>)
    requires Rooted(nodes) && top in nodes
    ensures nodes[top].parent.Some? ==> nodes[top].parent.value in nodes.Keys - DoomedSet(nodes, top, spared)
    ensures forall x :: x in nodes && nodes[x].parent.None? && x != top ==> x !in DoomedSet(nodes, top, spared)
    ensures DoomedSet(nodes, top, spared) <= nodes.Keys
  {
    var parent := nodes[top].parent;
    if parent.Some? && Doomed(nodes, top, spared, parent.value) {
      DoomedIsBelow(nodes, top, spared, parent.value);
      AncestorIsLower(nodes, top, parent.value);
      assert false;
    }
  }

  // ---------- the queue ----------

  ghost function Elements(queue: seq<Id>): set<Id> {
    set x | x in queue
  }

  /** A queue whose first part has had its children added. */
  ghost predicate Collected(nodes: Nodes, top: Id, spared: set<Id>, queue: seq<Id>, done: nat)
    requires Rooted(nodes)
  {
    && Once(queue) && done <= |queue| && |queue| > 0 && queue[0] == top
    && AllDoomed(nodes, top, spared, queue)
    && (forall k :: 0 < k < |queue| ==> IsChildOf(nodes, queue[k], queue[..done]))
    && ChildrenAdded(nodes, spared, queue, queue[..done])
  }

  ghost predicate AllDoomed(nodes: Nodes, top: Id, spared: set<Id>, queue: seq<Id>)
    requires Rooted(nodes)
  {
    forall q :: q in queue ==> q in nodes && Doomed(nodes, top, spared, q)
  }

  ghost predicate IsChildOf(nodes: Nodes, x: Id, parents: seq<Id>) {
    x in nodes && nodes[x].parent.Some? && nodes[x].parent.value in parents
  }

  ghost predicate ChildrenAdded(nodes: Nodes, spared: set<Id>, queue: seq<Id>, parents: seq<Id>) {
    forall x :: x !in spared && IsChildOf(nodes, x, parents) ==> x in queue
  }

  lemma TakeOneMore(queue: seq<Id>, more: seq<Id>, i: nat)
    requires i < |queue|
    ensures (queue + more)[..i + 1] == queue[..i] + [queue[i]]
  {
  }

  lemma CollectedGrows(nodes: Nodes, top: Id, spared: set<Id>, queue: seq<Id>, i: nat, children: seq<Id>)
    requires Rooted(nodes) && Collected(nodes, top, spared, queue, i) && i < |queue|
    requires Once(children) && Elements(children) == Children(nodes, queue[i]) - spared
    ensures Collected(nodes, top, spared, queue + children, i + 1)
    ensures Elements((queue + children)[..i + 1]) == Elements(queue[..i]) + {queue[i]}
  {
    hide Rooted;
    ElementsGrow(queue[..i], queue[i]);
    var grown := queue + children;
    TakeOneMore(queue, children, i);
    forall c | c in children
      ensures c in nodes && c !in spared && nodes[c].parent == Some(queue[i]) && c !in queue
    {
      assert c in Elements(children);
      ChildIsNew(nodes, top, spared, queue, i, c);
    }
    assert AllDoomed(nodes, top, spared, grown);
    assert ChildrenAdded(nodes, spared, grown, grown[..i + 1]) by {
      forall x | x !in spared && IsChildOf(nodes, x, grown[..i + 1])
        ensures x in grown
      {
        assert IsChildOf(nodes, x, queue[..i]) || x in Elements(children);
      }
    }
  }

  lemma ElementsGrow(queue: seq<Id>, x: Id)
    ensures Elements(queue + [x]) == Elements(queue) + {x}
  {
  }

  /** One more step of the queue takes one more doomed node. */
  lemma CollectedStep(nodes: Nodes, top: Id, spared: set<Id>, queue: seq<Id>, i: nat)
    requires Rooted(nodes) && Collected(nodes, top, spared, queue, i) && i < |queue|
    ensures queue[i] in DoomedSet(nodes, top, spared) && queue[i] !in Elements(queue[..i])
    ensures Elements(queue[..i]) < DoomedSet(nodes, top, spared) && DoomedSet(nodes, top, spared) <= nodes.Keys
  {
    hide Rooted, Doomed;
  }

  lemma ChildIsNew(nodes: Nodes, top: Id, spared: set<Id>, queue: seq<Id>, i: nat, c: Id)
    requires Rooted(nodes) && Collected(nodes, top, spared, queue, i) && i < |queue| && c in Children(nodes, queue[i])
    ensures c !in queue
  {
    DoomedIsBelow(nodes, top, spared, queue[i]);
    AncestorIsLower(nodes, top, queue[i]);
  }

  lemma CollectedStart(nodes: Nodes, top: Id, spared: set<Id>)
    requires Rooted(nodes) && top in nodes
    ensures Collected(nodes, top, spared, [top], 0) && Leveled(nodes, [top]) && Elements([top][..0]) == {}
    ensures Grown(nodes, top, spared, [top], 0)
  {
  }

  lemma CollectedAll(nodes: Nodes, top: Id, spared: set<Id>, queue: seq<Id>)
    requires Rooted(nodes) && Collected(nodes, top, spared, queue, |queue|)
    ensures Once(queue) && Elements(queue[..|queue|]) == Elements(queue) == DoomedSet(nodes, top, spared)
  {
    assert queue[..|queue|] == queue;
    forall x | x in DoomedSet(nodes, top, spared)
      ensures x in queue
    {
      CollectedHolds(nodes, top, spared, queue, x);
    }
  }

  lemma {:induction false} CollectedHolds(nodes: Nodes, top: Id, spared: set<Id>, queue: seq<Id>, x: Id)
    requires Rooted(nodes) && Collected(nodes, top, spared, queue, |queue|) && x in nodes && Doomed(nodes, top, spared, x)
    ensures x in queue
    decreases nodes[x].revision
  {
    assert queue[..|queue|] == queue;
    if x != top {
      CollectedHolds(nodes, top, spared, queue, nodes[x].parent.value);
    }
  }

  // ---------- level by level ----------

  /** The queue visits lower revisions first. */
  ghost predicate Leveled(nodes: Nodes, queue: seq<Id>) {
    && (forall q :: q in queue ==> q in nodes)
    && forall a, b :: 0 <= a < b < |queue| ==> nodes[queue[a]].revision <= nodes[queue[b]].revision
  }

  lemma LeveledGrows(nodes: Nodes, top: Id, spared: set<Id>, queue: seq<Id>, i: nat, children: seq<Id>)
    requires Rooted(nodes) && Collected(nodes, top, spared, queue, i) && i < |queue| && Leveled(nodes, queue)
    requires Elements(children) == Children(nodes, queue[i]) - spared
    ensures Leveled(nodes, queue + children)
  {
    var level := nodes[queue[i]].revision;
    forall c | c in children
      ensures c in nodes && nodes[c].revision == level + 1
    {
      assert c in Elements(children);
    }
    forall q | q in queue
      ensures nodes[q].revision <= level + 1
    {
      AtMostOneLevelAhead(nodes, top, spared, queue, i, q);
    }
    hide Rooted, Collected, Children;
  }

  lemma AtMostOneLevelAhead(nodes: Nodes, top: Id, spared: set<Id>, queue: seq<Id>, i: nat, q: Id)
    requires Rooted(nodes) && Collected(nodes, top, spared, queue, i) && i < |queue| && Leveled(nodes, queue) && q in queue
    ensures nodes[q].revision <= nodes[queue[i]].revision + 1
  {
    var k :| 0 <= k < |queue| && queue[k] == q;
    if k > i {
      assert IsChildOf(nodes, queue[k], queue[..i]);
      var j :| 0 <= j < i && queue[j] == nodes[q].parent.value;
    }
  }

  lemma {:induction false} LowerIsMet(nodes: Nodes, top: Id, spared: set<Id>, queue: seq<Id>, i: nat, x: Id)
    requires Rooted(nodes) && Collected(nodes, top, spared, queue, i) && i < |queue| && Leveled(nodes, queue)
    requires x in nodes && Doomed(nodes, top, spared, x) && nodes[x].revision < nodes[queue[i]].revision
    ensures x in queue[..i]
    decreases nodes[x].revision
  {
    if x != top {
      LowerIsMet(nodes, top, spared, queue, i, nodes[x].parent.value);
      assert IsChildOf(nodes, x, queue[..i]);
    }
    var k :| 0 <= k < |queue| && queue[k] == x;
    assert k < i;
  }

  // ---------- the queues there can be ----------

  /** The queue after some entries have had their children added behind it, in any order of siblings. */
  ghost predicate Grown(nodes: Nodes, top: Id, spared: set<Id>, queue: seq<Id>, done: nat)
    decreases done
  {
    if done == 0 then queue == [top]
    else exists k: nat :: AddsChildren(nodes, spared, queue, done - 1, k) && Grown(nodes, top, spared, queue[..k], done - 1)
  }

  ghost predicate AddsChildren(nodes: Nodes, spared: set<Id>, queue: seq<Id>, i: nat, k: nat) {
    i < k <= |queue| && Once(queue[k..]) && Elements(queue[k..]) == Children(nodes, queue[i]) - spared
  }

  lemma GrownStep(nodes: Nodes, top: Id, spared: set<Id>, queue: seq<Id>, i: nat, children: seq<Id>)
    requires Grown(nodes, top, spared, queue, i) && i < |queue|
    requires Once(children) && Elements(children) == Children(nodes, queue[i]) - spared
    ensures Grown(nodes, top, spared, queue + children, i + 1)
  {
    var grown, k := queue + children, |queue|;
    assert grown[..k] == queue && grown[k..] == children && grown[i] == queue[i];
    assert AddsChildren(nodes, spared, grown, i, k);
  }

  lemma {:induction false} GrownIsCollected(nodes: Nodes, top: Id, spared: set<Id>, queue: seq<Id>, done: nat)
    requires Rooted(nodes) && top in nodes && Grown(nodes, top, spared, queue, done)
    ensures Collected(nodes, top, spared, queue, done) && Leveled(nodes, queue)
    decreases done
  {
    hide Rooted, Collected, Leveled, Once, Elements, Children;
    if done == 0 {
      CollectedStart(nodes, top, spared);
    } else {
      var k: nat :| AddsChildren(nodes, spared, queue, done - 1, k) && Grown(nodes, top, spared, queue[..k], done - 1);
      GrownIsCollected(nodes, top, spared, queue[..k], done - 1);
      assert queue == queue[..k] + queue[k..];
      CollectedGrows(nodes, top, spared, queue[..k], done - 1, queue[k..]);
      LeveledGrows(nodes, top, spared, queue[..k], done - 1, queue[k..]);
    }
  }

  /** What a queue has met before it gets to a node. */
  ghost predicate MetBefore(nodes: Nodes, top: Id, spared: set<Id>, met: set<Id>, stop: Id) {
    exists queue: seq<Id>, i: nat ::
      Grown(nodes, top, spared, queue, i) && i < |queue| && queue[i] == stop && met == Elements(queue[..i])
  }

  lemma StopsAt(nodes: Nodes, top: Id, spared: set<Id>, queue: seq<Id>, i: nat)
    requires Grown(nodes, top, spared, queue, i) && i < |queue|
    ensures MetBefore(nodes, top, spared, Elements(queue[..i]), queue[i])
  {
  }

  /** It is doomed, holds all lower doomed nodes and none that is higher. */
  lemma MetBeforeStop(nodes: Nodes, top: Id, spared: set<Id>, met: set<Id>, stop: Id)
    requires Rooted(nodes) && top in nodes && MetBefore(nodes, top, spared, met, stop)
    ensures stop in DoomedSet(nodes, top, spared) && met < DoomedSet(nodes, top, spared) <= nodes.Keys && stop !in met
    ensures forall x :: x in DoomedSet(nodes, top, spared) && nodes[x].revision < nodes[stop].revision ==> x in met
    ensures forall x :: x in met ==> nodes[x].revision <= nodes[stop].revision
  {
    var queue: seq<Id>, i: nat :|
      Grown(nodes, top, spared, queue, i) && i < |queue| && queue[i] == stop && met == Elements(queue[..i]);
    GrownIsCollected(nodes, top, spared, queue, i);
    CollectedStep(nodes, top, spared, queue, i);
    forall x | x in DoomedSet(nodes, top, spared) && nodes[x].revision < nodes[stop].revision
      ensures x in queue[..i]
    {
      LowerIsMet(nodes, top, spared, queue, i, x);
    }
  }

  // ---------- a queue that meets one node before another ----------

  /** On every level the ancestor of x comes before that of h. */
  ghost predicate Ahead(nodes: Nodes, queue: seq<Id>, x: Id, h: Id)
    requires Rooted(nodes) && x in nodes && h in nodes
  {
    forall a, b :: 0 <= a < |queue| && 0 <= b < |queue| && SameLevel(nodes, queue[b], x, queue[a], h) ==> b < a
  }

  /** Two different nodes of one revision, above x and above h. */
  ghost predicate SameLevel(nodes: Nodes, overX: Id, x: Id, overH: Id, h: Id)
    requires Rooted(nodes) && x in nodes && h in nodes
  {
    && overX in nodes && overH in nodes && overX != overH && nodes[overX].revision == nodes[overH].revision
    && AncestorOrSelf(nodes, overX, x) && AncestorOrSelf(nodes, overH, h)
  }

  lemma ParentIsAbove(nodes: Nodes, child: Id, x: Id)
    requires Rooted(nodes) && x in nodes && child in nodes && nodes[child].parent.Some? && AncestorOrSelf(nodes, child, x)
    ensures AncestorOrSelf(nodes, nodes[child].parent.value, x)
  {
    AncestorTransitive(nodes, nodes[child].parent.value, child, x);
  }

  /** If the children above x are added first among their siblings, x stays ahead. */
  lemma AheadGrows(nodes: Nodes, top: Id, queue: seq<Id>, i: nat, children: seq<Id>, x: Id, h: Id)
    requires Rooted(nodes) && x in nodes && h in nodes && Ahead(nodes, queue, x, h)
    requires Collected(nodes, top, {}, queue, i) && Leveled(nodes, queue) && i < |queue|
    requires Elements(children) == Children(nodes, queue[i])
    requires forall m :: 0 < m < |children| ==> !AncestorOrSelf(nodes, children[m], x)
    ensures Ahead(nodes, queue + children, x, h)
  {
    var grown := queue + children;
    forall a, b | 0 <= a < |grown| && 0 <= b < |grown| && SameLevel(nodes, grown[b], x, grown[a], h)
      ensures b < a
    {
      if a < |queue| <= b {
        assert children[b - |queue|] in Elements(children);
        NotAddedBefore(nodes, top, queue, i, grown[b], x, a, h);
        assert false;
      }
    }
  }

  lemma NotAddedBefore(nodes: Nodes, top: Id, queue: seq<Id>, i: nat, child: Id, x: Id, a: nat, h: Id)
    requires Rooted(nodes) && x in nodes && h in nodes && Ahead(nodes, queue, x, h)
    requires Collected(nodes, top, {}, queue, i) && Leveled(nodes, queue) && i < |queue| && a < |queue|
    requires child in Children(nodes, queue[i])
    ensures !SameLevel(nodes, child, x, queue[a], h)
  {
    if SameLevel(nodes, child, x, queue[a], h) {
      var j := ParentsOnALevel(nodes, top, queue, i, child, x, a, h);
      assert false;
    }
  }

  /** Above two nodes of a level, one of them added now, are two of the level above, in the order they were taken. */
  lemma ParentsOnALevel(nodes: Nodes, top: Id, queue: seq<Id>, i: nat, child: Id, x: Id, a: nat, h: Id) returns (j: nat)
    requires Rooted(nodes) && x in nodes && h in nodes
    requires Collected(nodes, top, {}, queue, i) && Leveled(nodes, queue) && i < |queue| && a < |queue|
    requires child in Children(nodes, queue[i]) && SameLevel(nodes, child, x, queue[a], h)
    ensures j < i && SameLevel(nodes, queue[i], x, queue[j], h)
  {
    ParentIsAbove(nodes, child, x);
    assert a > 0;
    assert IsChildOf(nodes, queue[a], queue[..i]);
    ParentIsAbove(nodes, queue[a], h);
    j :| 0 <= j < i && queue[j] == nodes[queue[a]].parent.value;
  }

  lemma {:induction false} Listed(s: set<Id>) returns (q: seq<Id>)
    ensures Once(q) && Elements(q) == s
  {
    if s == {} {
      q := [];
    } else {
      var x :| x in s;
      q := Listed(s - {x});
      assert x !in Elements(q);
      ElementsGrow(q, x);
      q := q + [x];
    }
  }

  /** The children of a node, the one above x first. */
  lemma ChildrenTowardsFirst(nodes: Nodes, parent: Id, x: Id) returns (children: seq<Id>)
    requires Rooted(nodes) && x in nodes
    ensures Once(children) && Elements(children) == Children(nodes, parent)
    ensures forall m :: 0 < m < |children| ==> !AncestorOrSelf(nodes, children[m], x)
  {
    var all := Children(nodes, parent);
    if c :| c in all && AncestorOrSelf(nodes, c, x) {
      var rest := Listed(all - {c});
      children := [c] + rest;
      assert Elements(children) == {c} + Elements(rest);
      assert c !in Elements(rest);
      forall m | 0 < m < |children|
        ensures !AncestorOrSelf(nodes, children[m], x)
      {
        assert children[m] in Elements(rest);
        if AncestorOrSelf(nodes, children[m], x) {
          AncestorsFormAChain(nodes, c, children[m], x);
        }
      }
    } else {
      children := Listed(all);
      assert forall m :: 0 <= m < |children| ==> children[m] in Elements(children);
    }
  }

  lemma {:induction false} GrowTo(nodes: Nodes, top: Id, queue: seq<Id>, i: nat, x: Id, h: Id) returns (grown: seq<Id>, at: nat)
    requires Rooted(nodes) && top in nodes && x in nodes && h in nodes && AncestorOrSelf(nodes, top, h)
    requires Grown(nodes, top, {}, queue, i) && Ahead(nodes, queue, x, h) && i <= |queue| && h !in queue[..i]
    ensures Grown(nodes, top, {}, grown, at) && Ahead(nodes, grown, x, h) && at < |grown| && grown[at] == h
    decreases nodes.Keys - Elements(queue[..i])
  {
    hide Rooted, Collected, Leveled, Grown, Ahead, DoomedSet;
    GrownIsCollected(nodes, top, {}, queue, i);
    if i == |queue| {
      AllAreMet(nodes, top, queue, h);
      assert false;
    } else if queue[i] == h {
      grown, at := queue, i;
    } else {
      var children := ChildrenTowardsFirst(nodes, queue[i], x);
      CollectedStep(nodes, top, {}, queue, i);
      CollectedGrows(nodes, top, {}, queue, i, children);
      AheadGrows(nodes, top, queue, i, children, x, h);
      GrownStep(nodes, top, {}, queue, i, children);
      TakeOneMore(queue, children, i);
      grown, at := GrowTo(nodes, top, queue + children, i + 1, x, h);
    }
  }

  lemma AllAreMet(nodes: Nodes, top: Id, queue: seq<Id>, h: Id)
    requires Rooted(nodes) && Collected(nodes, top, {}, queue, |queue|) && h in nodes && AncestorOrSelf(nodes, top, h)
    ensures h in queue[..|queue|]
  {
    CollectedAll(nodes, top, {}, queue);
    SparingNobody(nodes, top, h);
    assert h in Elements(queue);
    assert queue[..|queue|] == queue;
  }

  /** With the right order of siblings a queue meets any node no higher than the one it stops at. */
  lemma MayMeet(nodes: Nodes, top: Id, x: Id, h: Id) returns (met: set<Id>)
    requires Rooted(nodes) && top in nodes && x in Subtree(nodes, top) && h in Subtree(nodes, top)
    requires x != h && nodes[x].revision <= nodes[h].revision
    ensures MetBefore(nodes, top, {}, met, h) && x in met
  {
    var queue, i := GrowTo(nodes, top, [top], 0, x, h);
    GrownIsCollected(nodes, top, {}, queue, i);
    met := Elements(queue[..i]);
    SparingNobody(nodes, top, x);
    if nodes[x].revision < nodes[h].revision {
      LowerIsMet(nodes, top, {}, queue, i, x);
    } else {
      if x != top {
        SparingNobody(nodes, top, nodes[x].parent.value);
        LowerIsMet(nodes, top, {}, queue, i, nodes[x].parent.value);
        assert IsChildOf(nodes, x, queue[..i]);
      }
      var k :| 0 <= k < |queue| && queue[k] == x;
      assert SameLevel(nodes, queue[k], x, queue[i], h);
    }
  }
}
