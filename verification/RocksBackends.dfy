/**
 * The RocksDB backend outside a write batch: a map under a read-through cache that also remembers
 * absent keys. Readers must not be able to tell the cache is there.
 */
module RocksBackends {
  import opened ByteStrings
  import opened Deltas
  import opened ObjectCaches

  const CACHE_SIZE: nat := 0x400_0000

  /** No write the cache could not hold: the cache evicts until an entry fits. */
  predicate Fits(key: Bytes, value: Option<Bytes>) {
    EntrySize(key, value) <= CACHE_SIZE
  }

  class RocksBackend {
    var db: View
    var size: nat
    const cache: ObjectCache

    /** Every cache entry, present or absent, says what the map says. */
    ghost predicate Valid()
      reads this, cache
    {
      && cache.Valid() && cache.maxSize == CACHE_SIZE && size == |db|
      && (forall key :: key in cache.objects ==> cache.objects[key] == Deltas.Get(db, key))
      && (forall key :: key in db ==> Fits(key, Some(db[key])))
    }

    constructor (db: View)
      requires forall key :: key in db ==> Fits(key, Some(db[key]))
      ensures Valid() && this.db == db && fresh(cache) && cache.Contents() == []
    {
      this.db, size := db, |db|;
      cache := new ObjectCache(CACHE_SIZE);
    }

    /** Reads the cache, or the map on a miss; either way the key is the most recent entry afterwards. */
    method Get(key: Bytes) returns (value: Option<Bytes>)
      requires Valid() && Fits(key, None)
      modifies cache
      ensures Valid() && value == Deltas.Get(db, key)
      ensures cache.Contents() == AfterRead(old(cache.Contents()), key, value, CACHE_SIZE)
    {
      hide ContentsOf, Total, Without, Fitting, EntrySize, Once, Held;
      cache.HoldsItsItems(key);
      var hit;
      hit, value := cache.Get(key);
      if hit {
        return;
      }
      value := Deltas.Get(db, key);
      var _ := cache.Put(key, value);
    }

    /** Caches what the map now holds for the one key the cache may be wrong about. */
    method Remember(key: Bytes, value: Option<Bytes>)
      requires cache.Valid() && cache.maxSize == CACHE_SIZE && value == Deltas.Get(db, key) && Fits(key, value)
      requires forall k :: k in cache.objects && k != key ==> cache.objects[k] == Deltas.Get(db, k)
      modifies cache
      ensures cache.Valid() && forall k :: k in cache.objects ==> cache.objects[k] == Deltas.Get(db, k)
      ensures cache.Contents() == AfterPut(old(cache.Contents()), key, value, CACHE_SIZE)
    {
      hide ContentsOf, Total, Without, Fitting, EntrySize, Once;
      var _ := cache.Put(key, value);
    }

    method Put(key: Bytes, value: Bytes)
      requires Valid() && Fits(key, Some(value))
      modifies this`db, this`size, cache
      ensures Valid() && db == old(db)[key := value]
      ensures cache.Contents() == AfterWrite(old(cache.Contents()), key, Deltas.Get(old(db), key), Some(value), CACHE_SIZE)
    {
      hide ContentsOf, Total, Without, Fitting, AfterRead, AfterPut, Once;
      var found := Get(key);
      db := db[key := value];
      if found.None? {
        size := size + 1;
      }
      Remember(key, Some(value));
    }

    method Erase(key: Bytes)
      requires Valid() && Fits(key, None)
      modifies this`db, this`size, cache
      ensures Valid() && db == old(db) - {key}
      ensures cache.Contents() == AfterWrite(old(cache.Contents()), key, Deltas.Get(old(db), key), None, CACHE_SIZE)
    {
      hide ContentsOf, Total, Without, Fitting, AfterRead, AfterPut, EntrySize, Once;
      var found := Get(key);
      SizeErased(db, key);
      db := db - {key};
      if found.Some? {
        size := size - 1;
      }
      Remember(key, None);
    }
  }

  lemma SizeErased(db: View, key: Bytes)
    ensures |db - {key}| == if key in db then |db| - 1 else |db|
  {
    assert (db - {key}).Keys == db.Keys - {key};
  }

  // ---------- what the size of the cache does and does not change ----------

  ghost predicate Has(items: seq<Item>, key: Bytes) {
    exists i :: 0 <= i < |items| && items[i].key == key
  }

  ghost function AfterPut(items: seq<Item>, key: Bytes, value: Option<Bytes>, maxSize: nat): seq<Item> {
    [Item(key, value)] + Fitting(Without(items, key), maxSize - EntrySize(key, value))
  }

  ghost function AfterRead(items: seq<Item>, key: Bytes, value: Option<Bytes>, maxSize: nat): seq<Item> {
    if Has(items, key) then [Item(key, value)] + Without(items, key) else AfterPut(items, key, value, maxSize)
  }

  ghost function AfterWrite(items: seq<Item>, key: Bytes, was: Option<Bytes>, value: Option<Bytes>, maxSize: nat): seq<Item> {
    AfterPut(AfterRead(items, key, was, maxSize), key, value, maxSize)
  }

  datatype Access = Read(key: Bytes) | Write(key: Bytes, value: Option<Bytes>)

  /** The cache after a run of accesses over a map. */
  ghost function AfterRun(items: seq<Item>, db: View, run: seq<Access>, maxSize: nat): seq<Item>
    decreases |run|
  {
    if run == [] then items
    else
      match run[0]
      case Read(key) => AfterRun(AfterRead(items, key, Deltas.Get(db, key), maxSize), db, run[1..], maxSize)
      case Write(key, value) =>
        AfterRun(AfterWrite(items, key, Deltas.Get(db, key), value, maxSize),
                 if value.Some? then db[key := value.value] else db - {key}, run[1..], maxSize)
  }

  /** Every entry the run caches fits, so that eviction ends before the list does. */
  ghost predicate RunFits(db: View, run: seq<Access>, maxSize: nat)
    decreases |run|
  {
    run != [] ==>
      var key := run[0].key;
      && EntrySize(key, Deltas.Get(db, key)) <= maxSize
      && match run[0]
         case Read(_) => RunFits(db, run[1..], maxSize)
         case Write(_, value) =>
           && EntrySize(key, value) <= maxSize
           && RunFits(if value.Some? then db[key := value.value] else db - {key}, run[1..], maxSize)
  }

  lemma {:induction false} WithoutPrefix(small: seq<Item>, large: seq<Item>, key: Bytes)
    requires small <= large
    ensures Without(small, key) <= Without(large, key)
    ensures Has(small, key) ==> Has(large, key)
    ensures !Has(small, key) ==> Without(small, key) == small
  {
    if small != [] {
      assert Has(small[1..], key) ==> Has(small, key) by {
        if i :| 0 <= i < |small[1..]| && small[1..][i].key == key {
          assert small[i + 1].key == key;
        }
      }
      WithoutPrefix(small[1..], large[1..], key);
    }
  }

  lemma {:induction false} FittingMonotone(small: seq<Item>, large: seq<Item>, room: int, more: int)
    requires small <= large && room <= more
    ensures Fitting(small, room) <= small && Fitting(small, room) <= Fitting(large, more)
  {
    if small != [] {
      var first := EntrySize(small[0].key, small[0].value);
      FittingMonotone(small[1..], large[1..], room - first, more - first);
    }
  }

  lemma ReadIncludes(small: seq<Item>, large: seq<Item>, key: Bytes, value: Option<Bytes>, less: nat, more: nat)
    requires small <= large && less <= more
    ensures AfterRead(small, key, value, less) <= AfterRead(large, key, value, more)
    ensures AfterPut(small, key, value, less) <= AfterPut(large, key, value, more)
  {
    hide Has, Without, Fitting, EntrySize;
    WithoutPrefix(small, large, key);
    FittingMonotone(Without(small, key), Without(large, key), less - EntrySize(key, value), more - EntrySize(key, value));
  }

  /** A larger cache always holds at least what a smaller one holds, and so hits whenever that one does. */
  lemma {:induction false} LargerCacheHoldsMore(small: seq<Item>, large: seq<Item>, db: View, run: seq<Access>, less: nat, more: nat)
    requires small <= large && less <= more && RunFits(db, run, less)
    ensures AfterRun(small, db, run, less) <= AfterRun(large, db, run, more)
    decreases |run|
  {
    if run != [] {
      var key := run[0].key;
      ReadIncludes(small, large, key, Deltas.Get(db, key), less, more);
      var s, l := AfterRead(small, key, Deltas.Get(db, key), less), AfterRead(large, key, Deltas.Get(db, key), more);
      match run[0]
      case Read(_) => LargerCacheHoldsMore(s, l, db, run[1..], less, more);
      case Write(_, value) =>
        ReadIncludes(s, l, key, value, less, more);
        LargerCacheHoldsMore(AfterPut(s, key, value, less), AfterPut(l, key, value, more),
                             if value.Some? then db[key := value.value] else db - {key}, run[1..], less, more);
    }
  }
}
