/** The mutable state delta: one node of the delta tree, linked to its parent. */
module StateDeltas {
  import opened ByteStrings
  import opened Deltas

  /** A block id; ids are compared as numbers. */
  datatype Id = Id(value: nat)

  datatype Header = Header(timestamp: nat, signer: Bytes)

  /** Every parent link stays inside the set and goes to a lower revision. */
  ghost predicate Linked(nodes: set<StateDelta>)
    reads nodes
  {
    forall d :: d in nodes && d.parent != null ==> d.parent in nodes && d.parent.revision < d.revision
  }

  class StateDelta {
    var parent: StateDelta?
    var backend: View
    var removed: set<Bytes>
    var finalized: bool
    const id: Id
    const revision: nat
    const header: Header

    /** A root over existing objects, or a default-constructed delta. */
    constructor (id: Id, revision: nat, header: Header, backend: View)
      ensures this.id == id && this.revision == revision && this.header == header
      ensures parent == null && Snapshot() == Delta(backend, {}) && !finalized
    {
      this.id, this.revision, this.header := id, revision, header;
      this.parent, this.backend, this.removed, this.finalized := null, backend, {}, false;
    }

    function Snapshot(): Delta
      reads this
    {
      Delta(backend, removed)
    }

    /** The deltas from the root down to this one. */
    ghost function Chain(nodes: set<StateDelta>): (chain: seq<Delta>)
      requires this in nodes && Linked(nodes)
      reads nodes
      ensures chain != [] && chain[|chain| - 1] == Snapshot()
      decreases revision
    {
      (if parent == null then [] else parent.Chain(nodes)) + [Snapshot()]
    }

    ghost function Revisions(nodes: set<StateDelta>): seq<nat>
      requires this in nodes && Linked(nodes)
      reads nodes
      decreases revision
    {
      (if parent == null then [] else parent.Revisions(nodes)) + [revision]
    }

    /** One step of a walk from a delta to the root that collects what it passes. */
    lemma WalkStep(nodes: set<StateDelta>, deque: seq<Delta>, levels: seq<nat>)
      requires this in nodes && Linked(nodes)
      ensures Chain(nodes) + deque == (if parent == null then [] else parent.Chain(nodes)) + ([Snapshot()] + deque)
      ensures Revisions(nodes) + levels == (if parent == null then [] else parent.Revisions(nodes)) + ([revision] + levels)
    {
    }

    /** What a reader of this delta sees. */
    ghost function Visible(nodes: set<StateDelta>): View
      requires this in nodes && Linked(nodes)
      reads nodes
    {
      Flatten(Chain(nodes))
    }

    predicate IsRoot()
      reads this
    {
      parent == null
    }

    function Lookup(key: Bytes, ghost nodes: set<StateDelta>): Option<Bytes>
      requires this in nodes && Linked(nodes)
      reads nodes
      decreases revision
    {
      if key in backend then Some(backend[key])
      else if key in removed then None
      else if IsRoot() then None
      else parent.Lookup(key, nodes)
    }

    /** The point lookup through the parent links reads the view. */
    lemma {:induction false} LookupReadsTheView(key: Bytes, nodes: set<StateDelta>)
      requires this in nodes && Linked(nodes)
      ensures Lookup(key, nodes) == Get(Visible(nodes), key)
      decreases revision
    {
      var below := if parent == null then [] else parent.Chain(nodes);
      FlattenSnoc(below, Snapshot());
      if parent != null {
        parent.LookupReadsTheView(key, nodes);
      }
    }

    /** The part of the chain below this delta, read from the lower revisions only. */
    ghost function Below(nodes: set<StateDelta>): seq<Delta>
      requires Linked(Lower(nodes, revision)) && (parent != null ==> parent in Lower(nodes, revision))
      reads this, Lower(nodes, revision)
    {
      if parent == null then [] else parent.Chain(Lower(nodes, revision))
    }

    lemma ChainAboveBelow(nodes: set<StateDelta>)
      requires this in nodes && Linked(nodes)
      ensures Linked(Lower(nodes, revision)) && (parent != null ==> parent in Lower(nodes, revision))
      ensures Chain(nodes) == Below(nodes) + [Snapshot()]
      ensures Visible(nodes) == Apply(Flatten(Below(nodes)), Snapshot())
    {
      if parent != null {
        ChainWithin(parent, nodes, Lower(nodes, revision));
      }
      FlattenSnoc(Below(nodes), Snapshot());
    }

    method Put(key: Bytes, value: Bytes)
      modifies this
      ensures Snapshot() == old(Snapshot()).Put(key, value)
      ensures backend == old(backend)[key := value] && removed == old(removed)
      ensures parent == old(parent) && finalized == old(finalized)
    {
      backend := backend[key := value];
    }

    method Erase(key: Bytes, ghost nodes: set<StateDelta>)
      requires this in nodes && Linked(nodes)
      modifies this
      ensures Snapshot() == old(Snapshot().Erase(key, key in Visible(nodes)))
      ensures key !in old(Visible(nodes)) ==> backend == old(backend) && removed == old(removed)
      ensures key in old(Visible(nodes)) ==> backend == old(backend) - {key} && removed == old(removed) + {key}
      ensures parent == old(parent) && finalized == old(finalized)
    {
      LookupReadsTheView(key, nodes);
      var found := Lookup(key, nodes);
      if found.Some? {
        backend := backend - {key};
        removed := removed + {key};
      }
    }

    method MakeChild(id: Id, header: Header) returns (child: StateDelta)
      ensures fresh(child) && child.id == id && child.header == header
      ensures child.parent == this && child.revision == revision + 1
      ensures child.Snapshot() == EMPTY_DELTA && !child.finalized
    {
      child := new StateDelta(id, revision + 1, header, map[]);
      child.parent := this;
    }

    method Clone(id: Id, header: Header) returns (copy: StateDelta)
      ensures fresh(copy) && copy.id == id && copy.header == header
      ensures copy.parent == parent && copy.revision == revision
      ensures copy.Snapshot() == Snapshot() && copy.finalized == finalized
    {
      copy := new StateDelta(id, revision, header, backend);
      copy.parent := parent;
      copy.removed := removed;
      copy.finalized := finalized;
    }

    /** Folds this delta into its parent. */
    method Squash()
      requires parent != this
      modifies parent
      ensures parent != null ==>
                parent.Snapshot() == old(parent.Snapshot()).Squashed(parent.parent == null, Snapshot())
      ensures parent != null ==>
                && parent.backend == (old(parent.backend) - removed) + backend
                && parent.removed == if parent.parent == null then old(parent.removed)
                                     else (old(parent.removed) + removed) - backend.Keys
      ensures parent != null ==> parent.parent == old(parent.parent) && parent.finalized == old(parent.finalized)
    {
      if IsRoot() {
        return;
      }
      SquashTombstones(parent);
      SquashObjects(parent);
    }

    method SquashTombstones(target: StateDelta)
      requires target != this
      modifies target
      ensures target.backend == old(target.backend) - removed
      ensures target.removed == if target.IsRoot() then old(target.removed) else old(target.removed) + removed
      ensures target.parent == old(target.parent) && target.finalized == old(target.finalized)
    {
      ghost var was := target.Snapshot();
      var rest := removed;
      while rest != {}
        invariant rest <= removed && removed == old(removed)
        invariant target.backend == was.backend - (removed - rest)
        invariant target.removed == if target.IsRoot() then was.removed else was.removed + (removed - rest)
        invariant target.parent == old(target.parent) && target.finalized == old(target.finalized)
      {
        var key :| key in rest;
        target.backend := target.backend - {key};
        if !target.IsRoot() {
          target.removed := target.removed + {key};
        }
        rest := rest - {key};
      }
    }

    method SquashObjects(target: StateDelta)
      requires target != this
      modifies target
      ensures target.backend == old(target.backend) + backend
      ensures target.removed == if target.IsRoot() then old(target.removed) else old(target.removed) - backend.Keys
      ensures target.parent == old(target.parent) && target.finalized == old(target.finalized)
    {
      ghost var was := target.Snapshot();
      var keys := backend.Keys;
      while keys != {}
        invariant keys <= backend.Keys && backend == old(backend)
        invariant target.backend == was.backend + (backend - keys)
        invariant target.removed == if target.IsRoot() then was.removed else was.removed - (backend.Keys - keys)
        invariant target.parent == old(target.parent) && target.finalized == old(target.finalized)
      {
        var key := Least(keys);
        target.backend := target.backend[key := backend[key]];
        if !target.IsRoot() {
          target.removed := target.removed - {key};
        }
        keys := keys - {key};
      }
      assert backend - {} == backend;
    }

    /** Writes this delta over a backend: tombstones first, then the objects in key order. */
    method WriteTo(base: View) returns (written: View)
      ensures written == Apply(base, Snapshot())
    {
      written := base;
      var rest := removed;
      while rest != {}
        invariant rest <= removed
        invariant written == base - (removed - rest)
      {
        var key :| key in rest;
        written := written - {key};
        rest := rest - {key};
      }
      var keys := backend.Keys;
      while keys != {}
        invariant keys <= backend.Keys
        invariant written == (base - removed) + (backend - keys)
      {
        var key := Least(keys);
        written := written[key := backend[key]];
        keys := keys - {key};
      }
      assert backend - {} == backend;
    }

    /** The delta at the bottom of the chain. */
    ghost function Bottom(nodes: set<StateDelta>): (bottom: StateDelta)
      requires this in nodes && Linked(nodes)
      reads nodes
      ensures bottom in nodes && bottom.parent == null && (parent != null ==> bottom != this)
      ensures bottom.revision <= revision
      decreases revision
    {
      if parent == null then this else parent.Bottom(nodes)
    }

    lemma ChainStep(nodes: set<StateDelta>)
      requires this in nodes && Linked(nodes)
      ensures parent == null ==> Chain(nodes) == [Snapshot()] && Bottom(nodes) == this
      ensures parent != null ==>
                && parent in nodes && parent.revision < revision
                && Chain(nodes) == parent.Chain(nodes) + [Snapshot()] && Bottom(nodes) == parent.Bottom(nodes)
    {
    }

    /** This delta and its ancestors, root last. */
    method Stack(ghost nodes: set<StateDelta>) returns (stack: seq<StateDelta>)
      requires this in nodes && Linked(nodes)
      ensures |stack| == |Chain(nodes)| && stack[0] == this && stack[|stack| - 1] == Bottom(nodes)
      ensures Mirrors(stack, Chain(nodes))
      ensures forall j :: 0 <= j < |stack| - 1 ==> stack[j] != Bottom(nodes)
    {
      hide Mirrors, Linked, StateDelta.Chain, StateDelta.Bottom;
      stack := [];
      var current: StateDelta? := this;
      ghost var chain := Chain(nodes);
      MirrorsNone(chain);
      while current != null
        invariant current != null ==> current in nodes && current.Bottom(nodes) == Bottom(nodes)
        invariant current != null ==> |stack| + |current.Chain(nodes)| == |chain|
        invariant current != null ==> current.Chain(nodes) == chain[..|chain| - |stack|]
        invariant current == null ==> |stack| == |chain| > 0 && stack[|stack| - 1] == Bottom(nodes)
        invariant if stack == [] then current == this else stack[0] == this
        invariant Mirrors(stack, chain)
        invariant forall j :: 0 <= j < |stack| && (current != null || j < |stack| - 1) ==> stack[j].parent != null
        decreases if current == null then 0 else current.revision + 1
      {
        current.ChainStep(nodes);
        MirrorsSnoc(stack, chain, current);
        stack := stack + [current];
        current := current.parent;
      }
    }

    /** Pops a stack of deltas off, writing each to the backend. */
    static method WriteStack(base: View, stack: seq<StateDelta>, ghost chain: seq<Delta>) returns (written: View)
      requires Mirrors(stack, chain) && base == Flatten(chain[..|chain| - |stack|])
      ensures written == Flatten(chain)
    {
      hide Flatten, Apply;
      written := base;
      var rest := stack;
      while rest != []
        invariant rest <= stack && written == Flatten(chain[..|chain| - |rest|])
      {
        FlattenTake(chain, |chain| - |rest|);
        written := rest[|rest| - 1].WriteTo(written);
        rest := rest[..|rest| - 1];
      }
      assert chain[..|chain|] == chain;
    }

    /**
     * Makes this delta the root: the whole chain is written to the root's backend, which then
     * moves here. The old root is left without a backend.
     */
    method Commit(ghost nodes: set<StateDelta>)
      requires this in nodes && Linked(nodes) && !IsRoot()
      modifies this, Bottom(nodes)
      ensures parent == null && Snapshot() == Delta(old(Visible(nodes)), {}) && finalized == old(finalized)
      ensures var root := old(Bottom(nodes));
              && root.parent == null && root.finalized == old(Bottom(nodes).finalized)
              && root.Snapshot() == Delta(map[], old(Bottom(nodes).removed))
    {
      hide Flatten, Apply, Linked, StateDelta.Chain, StateDelta.Bottom;
      ghost var chain := Chain(nodes);
      var stack := Stack(nodes);
      var root := stack[|stack| - 1];
      var written := root.backend;
      FlattenFirst(chain);
      root.backend := map[];
      written := WriteStack(written, stack[..|stack| - 1], chain);
      removed := {};
      backend := written;
      parent := null;
    }

    /** The keys of the objects and then of the tombstones, unsorted. */
    method ModifiedKeys() returns (keys: seq<Bytes>)
      ensures multiset(keys) == multiset(backend.Keys) + multiset(removed)
    {
      hide SortedKeys, Least;
      keys := SortedKeys(backend.Keys);
      SortedKeysOnce(backend.Keys);
      var rest := removed;
      while rest != {}
        invariant rest <= removed
        invariant multiset(keys) == multiset(backend.Keys) + multiset(removed - rest)
      {
        var key :| key in rest;
        OneMoreKey(keys, removed, rest, key);
        keys := keys + [key];
        rest := rest - {key};
      }
      assert removed - {} == removed;
    }

    /** The writes of this node for export: key order, tombstones without a value, no key that does not parse. */
    method GetDeltaEntries(parses: Bytes -> bool) returns (entries: seq<Entry>)
      ensures AreEntriesOf(entries, Snapshot(), parses)
      ensures forall i, j :: 0 <= i < j < |entries| ==> !Less(entries[j].key, entries[i].key)
    {
      hide Less, Sort, Kept, EntryKeys;
      var keys := ModifiedKeys();
      keys := Sort(keys);
      entries := [];
      KeptNone(keys, parses);
      for i := 0 to |keys|
        invariant EntryKeys(entries) == Kept(keys[..i], parses)
        invariant forall j :: 0 <= j < |entries| ==> entries[j].value == Get(backend, entries[j].key)
      {
        KeptStep(keys, i, parses);
        if parses(keys[i]) {
          EntryKeysSnoc(entries, Entry(keys[i], Get(backend, keys[i])));
          entries := entries + [Entry(keys[i], Get(backend, keys[i]))];
        }
      }
      assert keys[..|keys|] == keys;
      KeptCounts(keys, parses);
    }
  }

  /** The keys that parse, in order. */
  ghost function Kept(keys: seq<Bytes>, parses: Bytes -> bool): seq<Bytes> {
    if keys == [] then []
    else
      var last := keys[|keys| - 1];
      Kept(keys[..|keys| - 1], parses) + if parses(last) then [last] else []
  }

  lemma KeptNone(keys: seq<Bytes>, parses: Bytes -> bool)
    ensures Kept(keys[..0], parses) == EntryKeys([]) == []
  {
  }

  lemma KeptStep(keys: seq<Bytes>, i: nat, parses: Bytes -> bool)
    requires i < |keys|
    ensures Kept(keys[..i + 1], parses) == Kept(keys[..i], parses) + if parses(keys[i]) then [keys[i]] else []
  {
    assert keys[..i + 1][..i] == keys[..i];
  }

  lemma EntryKeysSnoc(entries: seq<Entry>, entry: Entry)
    ensures EntryKeys(entries + [entry]) == EntryKeys(entries) + [entry.key]
  {
  }

  lemma {:induction false} KeptCounts(keys: seq<Bytes>, parses: Bytes -> bool)
    requires Ascending(keys)
    ensures Ascending(Kept(keys, parses))
    ensures forall k :: multiset(Kept(keys, parses))[k] == if parses(k) then multiset(keys)[k] else 0
  {
    hide Less;
    if keys != [] {
      var init, last := keys[..|keys| - 1], keys[|keys| - 1];
      assert keys == init + [last];
      KeptCounts(init, parses);
      forall k | k in Kept(init, parses)
        ensures !Less(last, k)
      {
        assert k in multiset(Kept(init, parses));
        assert k in multiset(init);
        var i :| 0 <= i < |init| && init[i] == k;
        assert keys[i] == k;
      }
      AscendingSnoc(Kept(init, parses), last);
    }
  }

  lemma AscendingSnoc(sorted: seq<Bytes>, last: Bytes)
    requires Ascending(sorted) && forall k :: k in sorted ==> !Less(last, k)
    ensures Ascending(sorted + [last])
  {
  }

  /** The stack holds the end of the chain, last first. */
  ghost predicate Mirrors(stack: seq<StateDelta>, chain: seq<Delta>)
    reads stack
  {
    |stack| <= |chain| && forall j :: 0 <= j < |stack| ==> chain[|chain| - 1 - j] == stack[j].Snapshot()
  }

  lemma MirrorsNone(chain: seq<Delta>)
    ensures Mirrors([], chain)
  {
  }

  lemma MirrorsSnoc(stack: seq<StateDelta>, chain: seq<Delta>, d: StateDelta)
    requires Mirrors(stack, chain) && |stack| < |chain| && chain[|chain| - 1 - |stack|] == d.Snapshot()
    ensures Mirrors(stack + [d], chain)
  {
  }

  lemma FlattenFirst(chain: seq<Delta>)
    requires chain != []
    ensures Flatten(chain[..1]) == chain[0].backend
  {
    FlattenTake(chain, 0);
  }

  lemma FlattenTake(chain: seq<Delta>, m: nat)
    requires m < |chain|
    ensures Flatten(chain[..m + 1]) == Apply(Flatten(chain[..m]), chain[m])
  {
    assert chain[..m + 1] == chain[..m] + [chain[m]];
    FlattenSnoc(chain[..m], chain[m]);
  }

  lemma OneMoreKey(keys: seq<Bytes>, all: set<Bytes>, rest: set<Bytes>, key: Bytes)
    requires key in rest && rest <= all
    ensures multiset(keys + [key]) == multiset(keys) + multiset{key}
    ensures multiset(all - (rest - {key})) == multiset(all - rest) + multiset{key}
  {
    assert all - (rest - {key}) == (all - rest) + {key};
  }

  lemma {:induction false} SortedKeysOnce(s: set<Bytes>)
    ensures multiset(SortedKeys(s)) == multiset(s)
  {
    if s != {} {
      SortedKeysOnce(s - {Least(s)});
      assert s == (s - {Least(s)}) + {Least(s)};
    }
  }

  ghost function Lower(nodes: set<StateDelta>, revision: nat): set<StateDelta> {
    set d | d in nodes && d.revision < revision
  }

  /** A chain is the same in every linked set that holds it. */
  lemma {:induction false} ChainWithin(d: StateDelta, nodes: set<StateDelta>, part: set<StateDelta>)
    requires d in part && part <= nodes && Linked(nodes) && Linked(part)
    ensures d.Chain(part) == d.Chain(nodes)
    decreases d.revision
  {
    if d.parent != null {
      ChainWithin(d.parent, nodes, part);
    }
  }

  /** std::sort on keys. */
  function Sort(keys: seq<Bytes>): (sorted: seq<Bytes>)
    ensures Ascending(sorted) && multiset(sorted) == multiset(keys)
  {
    if keys == [] then []
    else
      assert keys == [keys[0]] + keys[1..];
      Insert(keys[0], Sort(keys[1..]))
  }

  function Insert(key: Bytes, sorted: seq<Bytes>): (r: seq<Bytes>)
    requires Ascending(sorted)
    ensures Ascending(r) && multiset(r) == multiset(sorted) + multiset{key}
  {
    if sorted == [] || !Less(sorted[0], key) then
      NoneBelow(sorted, key);
      AscendingCons(key, sorted);
      [key] + sorted
    else
      assert sorted == [sorted[0]] + sorted[1..];
      var rest := Insert(key, sorted[1..]);
      NoneBelow(sorted, sorted[0]);
      NoneBelow([sorted[0]], key);
      AscendingCons(sorted[0], rest);
      [sorted[0]] + rest
  }

  /** If the first of a sorted list is not below a key, none is; and what is above the first has it not above itself. */
  lemma NoneBelow(sorted: seq<Bytes>, key: Bytes)
    requires Ascending(sorted)
    ensures sorted != [] && !Less(sorted[0], key) ==> forall k :: k in multiset(sorted) ==> !Less(k, key)
    ensures sorted != [] && Less(sorted[0], key) ==> !Less(key, sorted[0])
    ensures sorted != [] ==> !Less(sorted[0], sorted[0])
  {
    hide Less, Rank;
    LessIsTotalOrder();
    forall k | k in multiset(sorted) && !Less(sorted[0], key)
      ensures !Less(k, key)
    {
      var i :| 0 <= i < |sorted| && sorted[i] == k;
      assert i > 0 ==> !Less(sorted[i], sorted[0]);
    }
  }

  lemma AscendingCons(first: Bytes, sorted: seq<Bytes>)
    requires Ascending(sorted) && forall k :: k in multiset(sorted) ==> !Less(k, first)
    ensures Ascending([first] + sorted)
  {
    forall j | 0 <= j < |sorted|
      ensures !Less(sorted[j], first)
    {
      assert sorted[j] in multiset(sorted);
    }
  }
}
