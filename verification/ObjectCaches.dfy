/**
 * The object cache: a byte-bounded list of entries, most recently used first, with a map for the
 * lookup. An entry without a value remembers that the key is absent underneath.
 */
module ObjectCaches {
  import opened ByteStrings
  import opened Deltas

  datatype Item = Item(key: Bytes, value: Option<Bytes>)

  /** At least one byte for the key and one for the value. */
  function EntrySize(key: Bytes, value: Option<Bytes>): nat {
    var bytes := |key| + if value.Some? then |value.value| else 0;
    if bytes < 2 then 2 else bytes
  }

  ghost function Total(items: seq<Item>): nat {
    if items == [] then 0 else EntrySize(items[0].key, items[0].value) + Total(items[1..])
  }

  ghost function Without(items: seq<Item>, key: Bytes): seq<Item> {
    if items == [] then []
    else if items[0].key == key then Without(items[1..], key)
    else [items[0]] + Without(items[1..], key)
  }

  /** The most recent entries that fit, stopping at the first that does not. */
  ghost function Fitting(items: seq<Item>, room: int): seq<Item> {
    if items == [] || EntrySize(items[0].key, items[0].value) > room then []
    else [items[0]] + Fitting(items[1..], room - EntrySize(items[0].key, items[0].value))
  }

  /** An entry is kept exactly when everything as recent as it fits. */
  lemma {:induction false} FittingKeeps(items: seq<Item>, room: int, n: nat)
    requires n <= |items|
    ensures Fitting(items, room) <= items
    ensures n > 0 ==> (n <= |Fitting(items, room)| <==> Total(items[..n]) <= room)
  {
    if items != [] {
      var first := EntrySize(items[0].key, items[0].value);
      if n > 0 {
        FittingKeeps(items[1..], room - first, n - 1);
        assert items[..n][1..] == items[1..][..n - 1];
      } else {
        FittingKeeps(items[1..], room - first, 0);
      }
    }
  }

  /** Dropping the last entry until the rest fits leaves the longest prefix that fits. */
  lemma FittingIs(items: seq<Item>, room: nat, n: nat)
    requires n <= |items| && Total(items[..n]) <= room && (n < |items| ==> Total(items[..n + 1]) > room)
    ensures Fitting(items, room) == items[..n]
  {
    FittingKeeps(items, room, n);
    if n < |items| {
      FittingKeeps(items, room, n + 1);
    }
  }

  // ---------- bytes ----------

  /** The key and value bytes of some entries. */
  ghost function HeldBytes(items: seq<Item>): nat {
    if items == [] then 0
    else |items[0].key| + (if items[0].value.Some? then |items[0].value.value| else 0) + HeldBytes(items[1..])
  }

  /** The same with at least two bytes counted for every entry. */
  ghost function ChargedBytes(items: seq<Item>): nat {
    if items == [] then 0
    else
      var own := HeldBytes([items[0]]);
      (if own >= 2 then own else 2) + ChargedBytes(items[1..])
  }

  /** What the cache adds up is the bytes it charges: at least those held and at least two an entry. */
  lemma {:induction false} TotalIsCharged(items: seq<Item>)
    ensures Total(items) == ChargedBytes(items)
    ensures HeldBytes(items) <= ChargedBytes(items) && 2 * |items| <= ChargedBytes(items)
  {
    if items != [] {
      var first := [items[0]];
      assert first[1..] == [] && HeldBytes(first) == |first[0].key| + if first[0].value.Some? then |first[0].value.value| else 0;
      TotalIsCharged(items[1..]);
    }
  }

  /** Behind a new entry another one is kept exactly when the bytes of everything as recent as it fit. */
  lemma KeptIff(items: seq<Item>, added: Item, maxSize: nat, n: nat)
    requires 0 < n <= |items|
    ensures var kept := Fitting(items, maxSize - EntrySize(added.key, added.value));
            kept <= items && (n <= |kept| <==> ChargedBytes([added] + items[..n]) <= maxSize)
  {
    FittingKeeps(items, maxSize - EntrySize(added.key, added.value), n);
    TotalIsCharged([added] + items[..n]);
    assert ([added] + items[..n])[1..] == items[..n];
  }

  /** If everything fits together nothing is evicted. */
  lemma EvictsNothing(items: seq<Item>, added: Item, maxSize: nat)
    ensures ChargedBytes([added] + items) <= maxSize ==> Fitting(items, maxSize - EntrySize(added.key, added.value)) == items
  {
    if items != [] {
      KeptIff(items, added, maxSize, |items|);
      assert items[..|items|] == items;
    }
  }

  // ---------- the list of keys and the map ----------

  type Objects = map<Bytes, Option<Bytes>>

  ghost predicate Held(keys: seq<Bytes>, objects: Objects) {
    forall i :: 0 <= i < |keys| ==> keys[i] in objects
  }

  ghost function ContentsOf(keys: seq<Bytes>, objects: Objects): (items: seq<Item>)
    requires Held(keys, objects)
    ensures |items| == |keys| && forall i :: 0 <= i < |keys| ==> items[i] == Item(keys[i], objects[keys[i]])
  {
    if keys == [] then [] else [Item(keys[0], objects[keys[0]])] + ContentsOf(keys[1..], objects)
  }

  /** list::erase at the position of a key. */
  function Unlink(keys: seq<Bytes>, key: Bytes): seq<Bytes> {
    if keys == [] then []
    else if keys[0] == key then keys[1..]
    else [keys[0]] + Unlink(keys[1..], key)
  }

  lemma {:induction false} UnlinkKeys(keys: seq<Bytes>, key: Bytes)
    requires Once(keys)
    ensures Once(Unlink(keys, key)) && forall k :: k in Unlink(keys, key) <==> k in keys && k != key
    ensures key !in keys ==> Unlink(keys, key) == keys
  {
    if keys != [] {
      var rest := keys[1..];
      assert keys == [keys[0]] + rest && keys[0] !in rest;
      UnlinkKeys(rest, key);
    }
  }

  lemma {:induction false} UnlinkIsWithout(keys: seq<Bytes>, objects: Objects, key: Bytes)
    requires Once(keys) && Held(keys, objects)
    ensures Held(Unlink(keys, key), objects)
    ensures ContentsOf(Unlink(keys, key), objects) == Without(ContentsOf(keys, objects), key)
    ensures key !in keys ==> Without(ContentsOf(keys, objects), key) == ContentsOf(keys, objects)
  {
    if keys != [] {
      var rest := keys[1..];
      UnlinkIsWithout(rest, objects, key);
      assert ContentsOf(keys, objects)[1..] == ContentsOf(rest, objects);
      if keys[0] == key {
        assert key !in rest;
      } else {
        assert Unlink(keys, key)[1..] == Unlink(rest, key);
        assert key in keys ==> key in rest;
      }
    }
  }

  lemma {:induction false} WithoutAbsent(items: seq<Item>, key: Bytes)
    requires forall i :: 0 <= i < |items| ==> items[i].key != key
    ensures Without(items, key) == items
  {
    if items != [] {
      WithoutAbsent(items[1..], key);
    }
  }

  /** Taking an entry out takes its size out of the total. */
  lemma {:induction false} WithoutTotal(items: seq<Item>, at: nat)
    requires at < |items| && forall i :: 0 <= i < |items| && i != at ==> items[i].key != items[at].key
    ensures Total(items) == EntrySize(items[at].key, items[at].value) + Total(Without(items, items[at].key))
  {
    hide EntrySize;
    if at == 0 {
      WithoutAbsent(items[1..], items[0].key);
    } else {
      var key, rest := items[at].key, items[1..];
      WithoutTotal(rest, at - 1);
      assert Without(items, key)[1..] == Without(rest, key);
    }
  }

  /** The list and the map hold the same keys, each once. */
  ghost predicate Matches(keys: seq<Bytes>, objects: Objects) {
    Once(keys) && Held(keys, objects) && forall k :: k in objects ==> k in keys
  }

  /** What removing a key does to the list and the map. */
  lemma Removed(keys: seq<Bytes>, objects: Objects, key: Bytes)
    requires Matches(keys, objects) && key in objects
    ensures var left := Unlink(keys, key);
            && Matches(left, objects - {key})
            && ContentsOf(left, objects - {key}) == Without(ContentsOf(keys, objects), key)
            && Total(ContentsOf(keys, objects)) == EntrySize(key, objects[key]) + Total(Without(ContentsOf(keys, objects), key))
  {
    hide EntrySize, Total, Without, Unlink;
    UnlinkKeys(keys, key);
    UnlinkIsWithout(keys, objects, key);
    SameContents(Unlink(keys, key), objects - {key}, objects);
    var at :| 0 <= at < |keys| && keys[at] == key;
    WithoutTotal(ContentsOf(keys, objects), at);
  }

  lemma NothingRemoved(keys: seq<Bytes>, objects: Objects, key: Bytes)
    requires Matches(keys, objects) && key !in objects
    ensures Without(ContentsOf(keys, objects), key) == ContentsOf(keys, objects) && objects - {key} == objects
  {
    hide Once, Held, ContentsOf, Without, Unlink;
    HeldByMatch(keys, objects);
    UnlinkIsWithout(keys, objects, key);
  }

  /** What adding a key in front does to them. */
  lemma PushedFront(keys: seq<Bytes>, objects: Objects, key: Bytes, value: Option<Bytes>)
    requires Matches(keys, objects) && key !in objects
    ensures var front, all := [key] + keys, objects[key := value];
            && Matches(front, all)
            && ContentsOf(front, all) == [Item(key, value)] + ContentsOf(keys, objects)
            && Total(ContentsOf(front, all)) == EntrySize(key, value) + Total(ContentsOf(keys, objects))
  {
    hide EntrySize, Total, Matches, Once;
    FrontMatches(keys, objects, key, value);
    HeldByMatch(keys, objects);
    HeldByMatch([key] + keys, objects[key := value]);
    FrontContents(keys, objects[key := value], key);
    SameContents(keys, objects[key := value], objects);
  }

  lemma HeldByMatch(keys: seq<Bytes>, objects: Objects)
    requires Matches(keys, objects)
    ensures Held(keys, objects) && forall k :: k in keys <==> k in objects
  {
  }

  lemma FrontMatches(keys: seq<Bytes>, objects: Objects, key: Bytes, value: Option<Bytes>)
    requires Matches(keys, objects) && key !in objects
    ensures Matches([key] + keys, objects[key := value]) && Held(keys, objects[key := value])
  {
    forall k | k in objects[key := value]
      ensures k in [key] + keys
    {
    }
  }

  lemma FrontContents(keys: seq<Bytes>, objects: Objects, key: Bytes)
    requires Held(keys, objects) && Held([key] + keys, objects) && key in objects
    ensures ContentsOf([key] + keys, objects) == [Item(key, objects[key])] + ContentsOf(keys, objects)
    ensures Total(ContentsOf([key] + keys, objects)) == EntrySize(key, objects[key]) + Total(ContentsOf(keys, objects))
  {
    hide EntrySize;
    assert ([key] + keys)[1..] == keys;
    var items := ContentsOf(keys, objects);
    assert ([Item(key, objects[key])] + items)[1..] == items;
  }

  /** What a hit does to the list: the key is removed and added in front. */
  lemma MovedToFront(keys: seq<Bytes>, objects: Objects, key: Bytes)
    requires Matches(keys, objects) && key in objects
    ensures var front := [key] + Unlink(keys, key);
            && Matches(front, objects)
            && ContentsOf(front, objects) == [Item(key, objects[key])] + Without(ContentsOf(keys, objects), key)
            && Total(ContentsOf(front, objects)) == Total(ContentsOf(keys, objects))
  {
    hide EntrySize, Total, Without, Unlink, Matches, Once, Held;
    Removed(keys, objects, key);
    PushedFront(Unlink(keys, key), objects - {key}, key, objects[key]);
    assert (objects - {key})[key := objects[key]] == objects;
  }

  /** The rest stays in order. */
  lemma {:induction false} WithoutIs(items: seq<Item>, at: nat)
    requires at < |items| && forall i :: 0 <= i < |items| && i != at ==> items[i].key != items[at].key
    ensures Without(items, items[at].key) == items[..at] + items[at + 1..]
  {
    var key, rest := items[at].key, items[1..];
    if at == 0 {
      WithoutAbsent(rest, key);
    } else {
      WithoutIs(rest, at - 1);
      assert items[..at] + items[at + 1..] == [items[0]] + (rest[..at - 1] + rest[at..]);
    }
  }

  lemma {:induction false} SameContents(keys: seq<Bytes>, a: Objects, b: Objects)
    requires Held(keys, a) && Held(keys, b) && forall k :: k in keys ==> a[k] == b[k]
    ensures ContentsOf(keys, a) == ContentsOf(keys, b)
  {
  }

  lemma SomethingToEvict(keys: seq<Bytes>, objects: Objects)
    requires Matches(keys, objects) && Total(ContentsOf(keys, objects)) > 0
    ensures keys != [] && ContentsOf(keys, objects) != []
  {
  }

  class ObjectCache {
    const maxSize: nat
    var lru: seq<Bytes>
    var objects: Objects
    var size: nat

    /** List and map hold the same distinct keys, and the size is the sum over the entries and within bounds. */
    ghost predicate Valid()
      reads this
    {
      Matches(lru, objects) && size == Total(Contents()) <= maxSize
    }

    ghost function Contents(): seq<Item>
      requires Matches(lru, objects)
      reads this
    {
      ContentsOf(lru, objects)
    }

    lemma HoldsItsItems(key: Bytes)
      requires Valid()
      ensures key in objects <==> exists i :: 0 <= i < |Contents()| && Contents()[i].key == key
    {
      assert forall i :: 0 <= i < |lru| ==> Contents()[i].key == lru[i];
    }

    /** The size is the bytes charged; the bytes held and two for every entry stay within the bound. */
    lemma Accounts()
      requires Valid()
      ensures size == ChargedBytes(Contents()) <= maxSize
      ensures HeldBytes(Contents()) <= maxSize && 2 * |Contents()| <= maxSize
    {
      TotalIsCharged(Contents());
    }

    constructor (maxSize: nat)
      ensures Valid() && this.maxSize == maxSize && Contents() == [] && objects == map[]
    {
      this.maxSize, lru, objects, size := maxSize, [], map[], 0;
    }

    /** A hit becomes the most recent entry. */
    method Get(key: Bytes) returns (hit: bool, value: Option<Bytes>)
      requires Valid()
      modifies this
      ensures Valid() && objects == old(objects)
      ensures (hit <==> key in objects) && value == if hit then objects[key] else None
      ensures Contents() == if hit then [Item(key, value)] + Without(old(Contents()), key) else old(Contents())
    {
      if key !in objects {
        return false, None;
      }
      hide Matches, ContentsOf, Unlink, Total, Without;
      MovedToFront(lru, objects, key);
      lru := [key] + Unlink(lru, key);
      hit, value := true, objects[key];
    }

    method Remove(key: Bytes)
      requires Valid()
      modifies this
      ensures Valid() && objects == old(objects) - {key}
      ensures Contents() == Without(old(Contents()), key)
    {
      hide Matches, ContentsOf, Unlink, Total, Without, EntrySize;
      if key in objects {
        Removed(lru, objects, key);
        size := size - EntrySize(key, objects[key]);
        lru := Unlink(lru, key);
        objects := objects - {key};
      } else {
        NothingRemoved(lru, objects, key);
      }
    }

    /** Removes the least recent entry. */
    method Evict()
      requires Valid() && lru != []
      modifies this
      ensures Valid() && objects.Keys <= old(objects.Keys)
      ensures Contents() == old(Contents())[..|old(Contents())| - 1]
      ensures forall k :: k in objects ==> k in old(objects) && objects[k] == old(objects)[k]
    {
      WithoutIs(Contents(), |lru| - 1);
      Remove(lru[|lru| - 1]);
    }

    /** Evicts until an entry fits; then the longest most recent part that leaves the room is left. */
    method MakeRoom(entrySize: nat)
      requires Valid() && entrySize <= maxSize
      modifies this
      ensures Valid() && size + entrySize <= maxSize
      ensures Contents() == Fitting(old(Contents()), maxSize - entrySize)
      ensures forall k :: k in objects ==> k in old(objects) && objects[k] == old(objects)[k]
    {
      hide Matches, ContentsOf, Without, Fitting, Total, EntrySize;
      ghost var items := Contents();
      ghost var n: nat := |items|;
      assert items[..n] == items;
      while size + entrySize > maxSize
        invariant Valid() && forall k :: k in objects ==> k in old(objects) && objects[k] == old(objects)[k]
        invariant n <= |items| && Contents() == items[..n] && (n < |items| ==> Total(items[..n + 1]) + entrySize > maxSize)
        decreases n
      {
        SomethingToEvict(lru, objects);
        Evict();
        n := n - 1;
      }
      FittingIs(items, maxSize - entrySize, n);
    }

    /** The new entry comes first; behind it stay the most recent others that fit. */
    method Put(key: Bytes, value: Option<Bytes>) returns (stored: Option<Bytes>)
      requires Valid() && EntrySize(key, value) <= maxSize
      modifies this
      ensures Valid() && stored == value
      ensures Contents() == [Item(key, value)] + Fitting(Without(old(Contents()), key), maxSize - EntrySize(key, value))
      ensures var all := [Item(key, value)] + Without(old(Contents()), key);
              ChargedBytes(all) <= maxSize ==> Contents() == all
      ensures key in objects && objects[key] == value
      ensures forall k :: k in objects && k != key ==> k in old(objects) && objects[k] == old(objects)[k]
    {
      hide Matches, ContentsOf, Without, Fitting, Total, EntrySize, ChargedBytes;
      Remove(key);
      EvictsNothing(Contents(), Item(key, value), maxSize);
      var entrySize := EntrySize(key, value);
      MakeRoom(entrySize);
      PushedFront(lru, objects, key, value);
      lru := [key] + lru;
      objects := objects[key := value];
      size := size + entrySize;
      stored := value;
    }
  }
}
