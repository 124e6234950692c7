/**
 * State deltas as values. A chain of deltas, root first, stands for the map that a reader at its
 * last delta sees; everything the delta tree does is judged by what it does to that map.
 */
module Deltas {
  import opened ByteStrings

  datatype Option<+T> = None | Some(value: T)

  type View = map<Bytes, Bytes>

  ghost predicate Once<T>(s: seq<T>) {
    forall i, j :: 0 <= i < j < |s| ==> s[i] != s[j]
  }

  function Get(view: View, key: Bytes): Option<Bytes> {
    if key in view then Some(view[key]) else None
  }

  /** The writes of one node: the objects it holds and the tombstones it has left. A key can be in both. */
  datatype Delta = Delta(backend: View, removed: set<Bytes>) {
    predicate Modified(key: Bytes) {
      key in backend || key in removed
    }

    function Put(key: Bytes, value: Bytes): Delta {
      this.(backend := backend[key := value])
    }

    /** Only an object that a reader can see leaves a tombstone. */
    function Erase(key: Bytes, visible: bool): Delta {
      if visible then Delta(backend - {key}, removed + {key}) else this
    }

    /** This delta after `child` has been squashed into it. A root takes no tombstones over. */
    function Squashed(isRoot: bool, child: Delta): Delta {
      Delta((backend - child.removed) + child.backend,
            if isRoot then removed else (removed + child.removed) - child.backend.Keys)
    }
  }

  const EMPTY_DELTA := Delta(map[], {})

  /** The view above a base: tombstones first, so that an object in the backend wins over its own tombstone. */
  function Apply(base: View, delta: Delta): View {
    (base - delta.removed) + delta.backend
  }

  /** The view of the last delta of a chain. */
  function Flatten(chain: seq<Delta>): View {
    if chain == [] then map[] else Apply(Flatten(chain[..|chain| - 1]), chain[|chain| - 1])
  }

  /** The point lookup: newest delta first, stopping at the first object or tombstone. */
  function Find(chain: seq<Delta>, key: Bytes): Option<Bytes>
    requires chain != []
  {
    var last := chain[|chain| - 1];
    if key in last.backend then Some(last.backend[key])
    else if key in last.removed then None
    else if |chain| == 1 then None
    else Find(chain[..|chain| - 1], key)
  }

  lemma {:induction false} FindReadsTheView(chain: seq<Delta>, key: Bytes)
    requires chain != []
    ensures Find(chain, key) == Get(Flatten(chain), key)
  {
    if |chain| > 1 {
      FindReadsTheView(chain[..|chain| - 1], key);
    } else {
      assert Flatten(chain[..0]) == map[];
    }
  }

  lemma FlattenSnoc(below: seq<Delta>, last: Delta)
    ensures Flatten(below + [last]) == Apply(Flatten(below), last)
  {
    assert (below + [last])[..|below|] == below;
  }

  // ---------- single writes ----------

  lemma PutUpdatesView(base: View, delta: Delta, key: Bytes, value: Bytes)
    ensures Apply(base, delta.Put(key, value)) == Apply(base, delta)[key := value]
    ensures delta.Put(key, value).removed == delta.removed && delta.Put(key, value).backend == delta.backend[key := value]
  {
  }

  lemma EraseUpdatesView(base: View, delta: Delta, key: Bytes)
    ensures var view := Apply(base, delta); Apply(base, delta.Erase(key, key in view)) == view - {key}
    ensures key !in Apply(base, delta) ==> delta.Erase(key, false) == delta
    ensures var erased := delta.Erase(key, true);
            key !in erased.backend && key in erased.removed && erased.removed - {key} == delta.removed - {key}
  {
  }

  // ---------- squash and commit ----------

  /** After a squash the parent reads as the child did, the child reads as before, and the parent's modified keys are the union. */
  lemma SquashKeepsView(below: seq<Delta>, parent: Delta, child: Delta)
    ensures var squashed := parent.Squashed(below == [], child);
            && Flatten(below + [squashed]) == Flatten(below + [parent, child])
            && Flatten(below + [squashed, child]) == Flatten(below + [parent, child])
            && (below != [] ==> forall k :: squashed.Modified(k) <==> parent.Modified(k) || child.Modified(k))
  {
    var squashed := parent.Squashed(below == [], child);
    var base := Flatten(below);
    assert below + [parent, child] == below + [parent] + [child];
    assert below + [squashed, child] == below + [squashed] + [child];
    FlattenSnoc(below, parent);
    FlattenSnoc(below + [parent], child);
    FlattenSnoc(below, squashed);
    FlattenSnoc(below + [squashed], child);
    SquashedApplies(base, below == [], parent, child);
  }

  lemma SquashedApplies(base: View, isRoot: bool, parent: Delta, child: Delta)
    requires isRoot ==> base == map[]
    ensures var squashed := parent.Squashed(isRoot, child);
            var view := Apply(Apply(base, parent), child);
            Apply(base, squashed) == view && Apply(view, child) == view
  {
  }

  /** Replacing a prefix of a chain by one delta that holds the prefix's view changes no view above it. */
  lemma {:induction false} CommitKeepsView(prefix: seq<Delta>, above: seq<Delta>)
    ensures Flatten([Delta(Flatten(prefix), {})] + above) == Flatten(prefix + above)
  {
    var root := Delta(Flatten(prefix), {});
    if above == [] {
      FlattenRoot(Flatten(prefix));
      assert [root] + above == [root] && prefix + above == prefix;
    } else {
      hide Flatten, Apply;
      var n := |above| - 1;
      CommitKeepsView(prefix, above[..n]);
      FlattenSnoc([root] + above[..n], above[n]);
      FlattenSnoc(prefix + above[..n], above[n]);
      assert [root] + above == [root] + above[..n] + [above[n]];
      assert prefix + above == prefix + above[..n] + [above[n]];
    }
  }

  lemma FlattenRoot(view: View)
    ensures Flatten([Delta(view, {})]) == view
  {
    FlattenSnoc([], Delta(view, {}));
    assert [] + [Delta(view, {})] == [Delta(view, {})];
  }

  // ---------- delta entries ----------

  datatype Entry = Entry(key: Bytes, value: Option<Bytes>)

  /** What a consumer of the entries does with them, in order. */
  function Replay(base: View, entries: seq<Entry>): View {
    if entries == [] then base
    else
      var before := Replay(base, entries[..|entries| - 1]);
      var last := entries[|entries| - 1];
      if last.value.Some? then before[last.key := last.value.value] else before - {last.key}
  }

  function EntryKeys(entries: seq<Entry>): (keys: seq<Bytes>)
    ensures |keys| == |entries| && forall i :: 0 <= i < |keys| ==> keys[i] == entries[i].key
  {
    seq(|entries|, i requires 0 <= i < |entries| => entries[i].key)
  }

  /**
   * The list get_delta_entries returns: every object and every tombstone once, by key, with what the
   * backend holds, leaving out keys that do not parse as a database key.
   */
  ghost predicate AreEntriesOf(entries: seq<Entry>, delta: Delta, parses: Bytes -> bool) {
    var keys := EntryKeys(entries);
    && Ascending(keys)
    && (forall k :: multiset(keys)[k] == if parses(k) then (multiset(delta.backend.Keys) + multiset(delta.removed))[k] else 0)
    && (forall i :: 0 <= i < |entries| ==> entries[i].value == Get(delta.backend, entries[i].key))
  }

  lemma {:induction false} ReplayPrefix(base: View, entries: seq<Entry>, source: View, key: Bytes)
    requires forall i :: 0 <= i < |entries| ==> entries[i].value == Get(source, entries[i].key)
    ensures Get(Replay(base, entries), key) == if key in EntryKeys(entries) then Get(source, key) else Get(base, key)
  {
    if entries != [] {
      var init, last := entries[..|entries| - 1], entries[|entries| - 1];
      ReplayPrefix(base, init, source, key);
      assert entries == init + [last];
      assert EntryKeys(entries) == EntryKeys(init) + [last.key];
    }
  }

  /** What replaying the entries makes of a key. */
  lemma ReplayReads(base: View, delta: Delta, entries: seq<Entry>, parses: Bytes -> bool, key: Bytes)
    requires AreEntriesOf(entries, delta, parses)
    ensures Get(Replay(base, entries), key)
            == if delta.Modified(key) && !parses(key) then Get(base, key) else Get(Apply(base, delta), key)
  {
    ReplayPrefix(base, entries, delta.backend, key);
    EntryKeysAreModified(entries, delta, parses, key);
  }

  /** Replaying a node's entries on its parent's view gives the node's own view if all its keys parse. */
  lemma ReplayGivesView(below: seq<Delta>, delta: Delta, entries: seq<Entry>, parses: Bytes -> bool)
    requires AreEntriesOf(entries, delta, parses) && forall k :: delta.Modified(k) ==> parses(k)
    ensures Replay(Flatten(below), entries) == Flatten(below + [delta])
  {
    FlattenSnoc(below, delta);
    ReplayAppliesIff(delta, entries, parses);
  }

  /** The entries stand for the delta on every base exactly if all its keys parse. */
  lemma ReplayAppliesIff(delta: Delta, entries: seq<Entry>, parses: Bytes -> bool)
    requires AreEntriesOf(entries, delta, parses)
    ensures (forall base :: Replay(base, entries) == Apply(base, delta)) <==> forall k :: delta.Modified(k) ==> parses(k)
  {
    if k :| delta.Modified(k) && !parses(k) {
      var base: View := if k in delta.backend then map[] else map[k := []];
      ReplayReads(base, delta, entries, parses, k);
      assert Get(Replay(base, entries), k) != Get(Apply(base, delta), k);
    } else {
      forall base
        ensures Replay(base, entries) == Apply(base, delta)
      {
        forall k
          ensures Get(Replay(base, entries), k) == Get(Apply(base, delta), k)
        {
          ReplayReads(base, delta, entries, parses, k);
        }
        SameReads(Replay(base, entries), Apply(base, delta));
      }
    }
  }

  lemma EntryKeysAreModified(entries: seq<Entry>, delta: Delta, parses: Bytes -> bool, key: Bytes)
    requires AreEntriesOf(entries, delta, parses)
    ensures key in EntryKeys(entries) <==> delta.Modified(key) && parses(key)
  {
    assert key in EntryKeys(entries) <==> key in multiset(EntryKeys(entries));
  }

  lemma SameReads(a: View, b: View)
    requires forall k :: Get(a, k) == Get(b, k)
    ensures a == b
  {
    assert forall k :: k in a <==> Get(a, k).Some?;
    assert forall k :: k in b <==> Get(b, k).Some?;
    assert forall k :: k in a ==> a[k] == Get(a, k).value == Get(b, k).value;
  }

  /** A key is listed twice exactly when it is held although the node left a tombstone for it. */
  lemma EntryMultiplicity(entries: seq<Entry>, delta: Delta, parses: Bytes -> bool, key: Bytes)
    requires AreEntriesOf(entries, delta, parses)
    ensures multiset(EntryKeys(entries))[key] <= 2
    ensures multiset(EntryKeys(entries))[key] == 2 <==> key in delta.backend && key in delta.removed && parses(key)
  {
  }

  // ---------- sizes ----------

  /** Total key and value bytes of a view. */
  ghost function Size(view: View): nat {
    if view == map[] then 0
    else
      var k :| k in view;
      |k| + |view[k]| + Size(view - {k})
  }

  lemma {:induction false} SizeWithout(view: View, key: Bytes)
    requires key in view
    ensures Size(view) == |key| + |view[key]| + Size(view - {key})
  {
    var k :| k in view && Size(view) == |k| + |view[k]| + Size(view - {k});
    if k != key {
      SizeWithout(view - {k}, key);
      SizeWithout(view - {key}, k);
      assert view - {k} - {key} == view - {key} - {k};
    }
  }

  lemma SizeAfterPut(view: View, key: Bytes, value: Bytes)
    ensures Size(view[key := value]) == Size(view - {key}) + |key| + |value|
  {
    SizeWithout(view[key := value], key);
    assert view[key := value] - {key} == view - {key};
  }
}
