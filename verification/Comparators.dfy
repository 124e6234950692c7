/** The three head comparators as finalize_node calls them, on a list of fork heads they may change. */
module Comparators {
  import opened Deltas
  import opened StateDeltas
  import opened Trees
  import opened Forests

  predicate Precedes(a: StateDelta, b: StateDelta) {
    Prior(a.id, Meta(None, a.revision, true, a.header), b.id, Meta(None, b.revision, true, b.header))
  }

  /** The forest knows this delta under its id, revision and header. */
  ghost predicate Describes(f: Forest, d: StateDelta) {
    d.id in f.nodes && f.nodes[d.id].revision == d.revision && f.nodes[d.id].header == d.header
  }

  ghost predicate DescribesAll(f: Forest, forks: seq<StateDelta>) {
    && (forall d :: d in forks ==> Describes(f, d))
    && (forall i, j :: 0 <= i < j < |forks| ==> forks[i].id != forks[j].id)
  }

  ghost function Ids(forks: seq<StateDelta>): set<Id> {
    set d | d in forks :: d.id
  }

  method FifoComparator(forks: seq<StateDelta>, head: StateDelta, node: StateDelta) returns (choice: StateDelta?)
    ensures choice == head
  {
    choice := head;
  }

  method BlockTimeComparator(forks: seq<StateDelta>, head: StateDelta, node: StateDelta) returns (choice: StateDelta?)
    ensures choice == if node.header.timestamp < head.header.timestamp then node else head
  {
    choice := if node.header.timestamp < head.header.timestamp then node else head;
  }

  /** std::find_if for an id and erase. */
  method EraseFork(forks: seq<StateDelta>, id: Id) returns (rest: seq<StateDelta>)
    requires forall i, j :: 0 <= i < j < |forks| ==> forks[i].id != forks[j].id
    ensures forall d :: d in rest <==> d in forks && d.id != id
    ensures forall i, j :: 0 <= i < j < |rest| ==> rest[i].id != rest[j].id
  {
    rest := forks;
    for i := 0 to |forks|
      invariant rest == forks
      invariant forall j :: 0 <= j < i ==> forks[j].id != id
    {
      if forks[i].id == id {
        rest := forks[..i] + forks[i + 1..];
        return;
      }
    }
  }

  /** std::sort by priority. */
  method SortByPriority(forks: seq<StateDelta>) returns (sorted: seq<StateDelta>)
    requires forall i, j :: 0 <= i < j < |forks| ==> forks[i].id != forks[j].id
    ensures forall d :: d in sorted <==> d in forks
    ensures forall i, j :: 0 <= i < j < |sorted| ==> Precedes(sorted[i], sorted[j])
    ensures forall i, j :: 0 <= i < j < |sorted| ==>
              && sorted[i].revision >= sorted[j].revision
              && (sorted[i].revision == sorted[j].revision ==> sorted[i].header.timestamp <= sorted[j].header.timestamp)
              && (sorted[i].revision == sorted[j].revision && sorted[i].header.timestamp == sorted[j].header.timestamp ==>
                    sorted[i].id.value < sorted[j].id.value)
  {
    sorted := [];
    for i := 0 to |forks|
      invariant forall d :: d in sorted <==> d in forks[..i]
      invariant forall i, j :: 0 <= i < j < |sorted| ==> Precedes(sorted[i], sorted[j])
    {
      var fork, at := forks[i], 0;
      while at < |sorted| && Precedes(sorted[at], fork)
        invariant at <= |sorted|
        invariant forall k :: 0 <= k < at ==> Precedes(sorted[k], fork)
      {
        at := at + 1;
      }
      assert forall k :: at <= k < |sorted| ==> sorted[k] in forks[..i];
      assert forks[..i + 1] == forks[..i] + [fork];
      sorted := sorted[..at] + [fork] + sorted[at..];
    }
    assert forks[..|forks|] == forks;
  }

  method PobComparator(forks: seq<StateDelta>, head: StateDelta, node: StateDelta) returns (choice: StateDelta?)
    requires forall i, j :: 0 <= i < j < |forks| ==> forks[i].id != forks[j].id
    requires node.header.signer == head.header.signer ==> head.parent != null
    ensures node.header.signer != head.header.signer ==>
              choice == if node.header.timestamp < head.header.timestamp then node else head
    ensures node.header.signer == head.header.signer && choice != null ==>
              && choice in forks && choice.id != head.id && !Precedes(head.parent, choice)
              && forall d :: d in forks && d.id != head.id && d != choice ==> Precedes(choice, d)
    ensures node.header.signer == head.header.signer && choice == null ==>
              forall d :: d in forks && d.id != head.id ==> Precedes(head.parent, d)
    ensures node.header.signer == head.header.signer ==>
              var best := if choice != null then choice else head.parent;
              forall d :: d in forks + [head.parent] && d.id != head.id && d.id != best.id ==>
                && best.revision >= d.revision
                && (best.revision == d.revision ==> best.header.timestamp <= d.header.timestamp)
                && (best.revision == d.revision && best.header.timestamp == d.header.timestamp ==> best.id.value < d.id.value)
  {
    if head.header.signer != node.header.signer {
      choice := if node.header.timestamp < head.header.timestamp then node else head;
      return;
    }
    var rest := EraseFork(forks, head.id);
    choice := null;
    if |rest| > 0 {
      var sorted := SortByPriority(rest);
      assert rest[0] in sorted;
      rest := sorted;
      choice := if Precedes(head.parent, rest[0]) then null else rest[0];
    }
  }

  method Compare(algorithm: Algorithm, forks: seq<StateDelta>, head: StateDelta, node: StateDelta, ghost f: Forest)
    returns (choice: StateDelta?)
    requires Rooted(f.nodes) && f.forkHeads <= f.nodes.Keys && DescribesAll(f, forks) && Ids(forks) == f.forkHeads
    requires Describes(f, head) && Describes(f, node) && head.id == f.head && head.revision == node.revision
    requires Decidable(algorithm, f.nodes[f.head], f.nodes[node.id])
    requires f.nodes[f.head].parent.Some? <==> head.parent != null
    requires head.parent != null ==> f.nodes[f.head].parent == Some(head.parent.id) && Describes(f, head.parent)
    ensures Choose(algorithm, f, node.id) == if choice == null then None else Some(choice.id)
    ensures choice != null ==> choice in forks || choice == head || choice == node
  {
    match algorithm
    case Fifo => choice := FifoComparator(forks, head, node);
    case BlockTime => choice := BlockTimeComparator(forks, head, node);
    case Pob =>
      choice := PobComparator(forks, head, node);
      if head.header.signer == node.header.signer {
        PobChooses(forks, head, node, f, choice);
      }
  }

  /** What the sorted list yields is what the specification chooses. */
  lemma PobChooses(forks: seq<StateDelta>, head: StateDelta, node: StateDelta, f: Forest, choice: StateDelta?)
    requires Rooted(f.nodes) && f.forkHeads <= f.nodes.Keys && DescribesAll(f, forks) && Ids(forks) == f.forkHeads
    requires Describes(f, head) && Describes(f, node) && head.id == f.head && head.revision == node.revision
    requires head.header.signer == node.header.signer && head.parent != null
    requires f.nodes[f.head].parent == Some(head.parent.id) && Describes(f, head.parent)
    requires choice != null ==>
               && choice in forks && choice.id != head.id && !Precedes(head.parent, choice)
               && forall d :: d in forks && d.id != head.id && d != choice ==> Precedes(choice, d)
    requires choice == null ==> forall d :: d in forks && d.id != head.id ==> Precedes(head.parent, d)
    ensures Choose(Pob, f, node.id) == if choice == null then None else Some(choice.id)
  {
    var others := f.forkHeads - {f.head};
    assert choice != null ==> choice.id in Ids(forks) && choice.id in others;
    if others != {} {
      var b := Best(f.nodes, others);
      var d :| d in forks && d.id == b;
      if choice != null && choice != d {
        assert false;
      }
    }
  }
}
