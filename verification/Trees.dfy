/** The tree of nodes by parent ids: ancestors, subtrees and children. */
module Trees {
  import opened Deltas
  import opened StateDeltas

  datatype Meta = Meta(parent: Option<Id>, revision: nat, finalized: bool, header: Header)

  type Nodes = map<Id, Meta>

  /** Parents are present and exactly one revision lower. */
  ghost predicate Rooted(nodes: Nodes) {
    forall x :: x in nodes && nodes[x].parent.Some? ==>
      nodes[x].parent.value in nodes && nodes[x].revision == nodes[nodes[x].parent.value].revision + 1
  }

  ghost predicate AncestorOrSelf(nodes: Nodes, a: Id, x: Id)
    requires Rooted(nodes) && x in nodes
    decreases nodes[x].revision
  {
    a == x || (nodes[x].parent.Some? && AncestorOrSelf(nodes, a, nodes[x].parent.value))
  }

  ghost function Subtree(nodes: Nodes, a: Id): set<Id>
    requires Rooted(nodes)
  {
    set x | x in nodes && AncestorOrSelf(nodes, a, x)
  }

  ghost function Children(nodes: Nodes, x: Id): set<Id> {
    set c | c in nodes && nodes[c].parent == Some(x)
  }

  ghost predicate HasFinalizedChild(nodes: Nodes, x: Id) {
    exists c :: c in Children(nodes, x) && nodes[c].finalized
  }

  lemma {:induction false} AncestorIsLower(nodes: Nodes, a: Id, x: Id)
    requires Rooted(nodes) && x in nodes && AncestorOrSelf(nodes, a, x)
    ensures a in nodes && nodes[a].revision <= nodes[x].revision
    ensures nodes[a].revision == nodes[x].revision ==> a == x
    decreases nodes[x].revision
  {
    if a != x {
      AncestorIsLower(nodes, a, nodes[x].parent.value);
    }
  }

  lemma {:induction false} AncestorTransitive(nodes: Nodes, a: Id, b: Id, x: Id)
    requires Rooted(nodes) && x in nodes && b in nodes
    requires AncestorOrSelf(nodes, b, x) && AncestorOrSelf(nodes, a, b)
    ensures AncestorOrSelf(nodes, a, x)
    decreases nodes[x].revision
  {
    if b != x {
      AncestorTransitive(nodes, a, b, nodes[x].parent.value);
    }
  }

  /** Two ancestors of a node are comparable; at one revision there is only one. */
  lemma {:induction false} AncestorsFormAChain(nodes: Nodes, a: Id, b: Id, x: Id)
    requires Rooted(nodes) && x in nodes
    requires AncestorOrSelf(nodes, a, x) && AncestorOrSelf(nodes, b, x)
    ensures a in nodes && b in nodes
    ensures nodes[a].revision <= nodes[b].revision ==> AncestorOrSelf(nodes, a, b)
    ensures nodes[a].revision == nodes[b].revision ==> a == b
    decreases nodes[x].revision
  {
    AncestorIsLower(nodes, a, x);
    AncestorIsLower(nodes, b, x);
    if a != x && b != x {
      AncestorsFormAChain(nodes, a, b, nodes[x].parent.value);
    }
    if nodes[a].revision == nodes[b].revision {
      AncestorIsLower(nodes, a, b);
    }
  }

  /** The ancestor a strict ancestor has on the way down. */
  lemma {:induction false} ChildTowards(nodes: Nodes, a: Id, x: Id) returns (c: Id)
    requires Rooted(nodes) && x in nodes && AncestorOrSelf(nodes, a, x) && a != x
    ensures c in Children(nodes, a) && AncestorOrSelf(nodes, c, x)
    decreases nodes[x].revision
  {
    var p := nodes[x].parent.value;
    if p == a {
      c := x;
    } else {
      c := ChildTowards(nodes, a, p);
    }
  }
}
