/** What a node's delta holds after any sequence of writes, told by the writes alone. */
module Histories {
  import opened ByteStrings
  import opened Deltas
  import opened StateNodes
  import opened Runs

  /** The delta of a node, empty at first, after some writes over what lies below it. */
  function DeltaAfter(base: View, writes: seq<Write>): Delta {
    if writes == [] then EMPTY_DELTA
    else
      var n := |writes| - 1;
      var before := DeltaAfter(base, writes[..n]);
      Changed(before, writes[n], Apply(base, before))
  }

  /** What a reader sees after some writes: each is made on the view, none on a delta. */
  function ViewAfter(base: View, writes: seq<Write>): View {
    if writes == [] then base else Written(ViewAfter(base, writes[..|writes| - 1]), writes[|writes| - 1])
  }

  lemma {:induction false} ReadersSeeTheWrites(base: View, writes: seq<Write>)
    ensures Apply(base, DeltaAfter(base, writes)) == ViewAfter(base, writes)
  {
    if writes != [] {
      var n := |writes| - 1;
      var before := DeltaAfter(base, writes[..n]);
      ReadersSeeTheWrites(base, writes[..n]);
      match writes[n]
      case PutWrite(key, value) => PutUpdatesView(base, before, key, value);
      case RemoveWrite(key) => EraseUpdatesView(base, before, key);
    }
  }

  /** A write removes a key that a reader could see. */
  ghost predicate RemovedAt(base: View, writes: seq<Write>, i: nat, key: Bytes) {
    i < |writes| && writes[i] == RemoveWrite(key) && key in ViewAfter(base, writes[..i])
  }

  /** A write puts a key that no later write removes or puts again. */
  ghost predicate LastPutAt(writes: seq<Write>, i: nat, key: Bytes) {
    i < |writes| && writes[i].PutWrite? && writes[i].key == key && forall j :: i < j < |writes| ==> writes[j].key != key
  }

  lemma WithoutLastWrite(base: View, writes: seq<Write>, i: nat, key: Bytes)
    requires i < |writes| - 1
    ensures RemovedAt(base, writes, i, key) <==> RemovedAt(base, writes[..|writes| - 1], i, key)
    ensures LastPutAt(writes, i, key) <==> LastPutAt(writes[..|writes| - 1], i, key) && writes[|writes| - 1].key != key
  {
    assert writes[..|writes| - 1][..i] == writes[..i];
  }

  /** A node has a tombstone exactly for the keys once removed while they were visible. */
  lemma {:induction false} TombstoneIff(base: View, writes: seq<Write>, key: Bytes)
    ensures key in DeltaAfter(base, writes).removed <==> exists i: nat :: RemovedAt(base, writes, i, key)
  {
    if writes != [] {
      var n := |writes| - 1;
      TombstoneIff(base, writes[..n], key);
      ReadersSeeTheWrites(base, writes[..n]);
      forall i: nat | i < n
        ensures RemovedAt(base, writes, i, key) <==> RemovedAt(base, writes[..n], i, key)
      {
        WithoutLastWrite(base, writes, i, key);
      }
      assert RemovedAt(base, writes, n, key) <==> writes[n] == RemoveWrite(key) && key in ViewAfter(base, writes[..n]);
    }
  }

  /** It holds exactly the keys whose last write was a put, with the value of that put. */
  lemma {:induction false} HeldIff(base: View, writes: seq<Write>, key: Bytes)
    ensures key in DeltaAfter(base, writes).backend <==> exists i: nat :: LastPutAt(writes, i, key)
    ensures forall i: nat :: LastPutAt(writes, i, key) ==>
              key in DeltaAfter(base, writes).backend && DeltaAfter(base, writes).backend[key] == writes[i].value
  {
    if writes != [] {
      var n := |writes| - 1;
      HeldIff(base, writes[..n], key);
      forall i: nat | i < n
        ensures LastPutAt(writes, i, key) <==> LastPutAt(writes[..n], i, key) && writes[n].key != key
      {
        WithoutLastWrite(base, writes, i, key);
      }
      assert LastPutAt(writes, n, key) <==> writes[n].PutWrite? && writes[n].key == key;
    }
  }

  /** A key is exported twice exactly if it parses and was removed while visible and put for good afterwards. */
  lemma ExportedTwiceIff(base: View, writes: seq<Write>, entries: seq<Entry>, parses: Bytes -> bool, key: Bytes)
    requires AreEntriesOf(entries, DeltaAfter(base, writes), parses)
    ensures multiset(EntryKeys(entries))[key] == 2 <==>
            parses(key) && exists i: nat, j: nat :: i < j && RemovedAt(base, writes, i, key) && LastPutAt(writes, j, key)
  {
    EntryMultiplicity(entries, DeltaAfter(base, writes), parses, key);
    TombstoneIff(base, writes, key);
    HeldIff(base, writes, key);
    forall i: nat, j: nat | RemovedAt(base, writes, i, key) && LastPutAt(writes, j, key)
      ensures i < j
    {
    }
  }

  /** A key exported without a value was removed while visible, and not put since. */
  lemma ExportedWithoutValueIff(base: View, writes: seq<Write>, entries: seq<Entry>, parses: Bytes -> bool, key: Bytes)
    requires AreEntriesOf(entries, DeltaAfter(base, writes), parses)
    ensures Entry(key, None) in entries <==>
            && parses(key) && (exists i: nat :: RemovedAt(base, writes, i, key))
            && forall j: nat :: !LastPutAt(writes, j, key)
  {
    var delta := DeltaAfter(base, writes);
    TombstoneIff(base, writes, key);
    HeldIff(base, writes, key);
    EntryKeysAreModified(entries, delta, parses, key);
    if key in EntryKeys(entries) {
      var k :| 0 <= k < |entries| && EntryKeys(entries)[k] == key;
      assert entries[k] == Entry(key, Get(delta.backend, key));
    }
    if Entry(key, None) in entries {
      var k :| 0 <= k < |entries| && entries[k] == Entry(key, None);
      assert EntryKeys(entries)[k] == key;
    }
  }
}
