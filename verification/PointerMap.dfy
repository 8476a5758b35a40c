/** The pointer map (src/map/pointer/mulle--pointermap-generic.c, src/map/mulle--map.c):
    linear probing over a power-of-two table that grows, shrinks and deletes without
    tombstones, refining the mathematical map of MapModel. */
module PointerMaps {
  import opened BitMath
  import opened Pointers
  import opened ProbeTable
  import opened TableContents
  import opened MapModel
  import opened ProbeStorage
  import opened MapItems

  const MIN_SIZE: nat := 4
  const INITIAL_SIZE: nat := 4

  /** The count at which a table of `size` slots is full: three quarters of it. */
  function FullCount(size: nat): nat {
    size - size / 4
  }

  /** Would the table still not be full with half of `size` slots? */
  predicate IsSparseSize(count: nat, size: nat) {
    count < FullCount(size / 2)
  }

  /** The number of slots that `init` allocates for a capacity. */
  function InitialSize(capacity: nat): (size: nat)
    ensures capacity > 0 ==> IsPower(size) && size >= INITIAL_SIZE && size > capacity
    ensures capacity == 0 ==> size == 0
  {
    RoundUpIsLeast(capacity + capacity / 4);
    assert Pow2(2) == INITIAL_SIZE;
    if capacity == 0 then 0
    else if capacity >= MIN_SIZE then RoundUp(capacity + capacity / 4)
    else INITIAL_SIZE
  }

  /** They fill no more than three quarters of the next power of two, or the quarter that is
      added leads beyond that power, or they are fewer than the smallest table takes. */
  predicate CapacityFits(capacity: nat) {
    var p := RoundUp(capacity);
    capacity <= FullCount(p) || capacity + capacity / 4 > p || capacity < MIN_SIZE
  }

  /** `init` is said to make room for `capacity` pairs: when the table has it. */
  lemma CapacityFitsIff(capacity: nat)
    requires capacity > 0
    ensures capacity <= FullCount(InitialSize(capacity)) <==> CapacityFits(capacity)
  {
    var p, q := RoundUp(capacity), RoundUp(capacity + capacity / 4);
    RoundUpIsLeast(capacity);
    RoundUpIsLeast(capacity + capacity / 4);
    hide RoundUp, IsPower;
    if capacity + capacity / 4 > p {
      NextPower(p, q);
    } else {
      assert q == p;
    }
  }

  /** A capacity of 13 gives 16 slots, which are full with 12 pairs. */
  lemma CapacityCanBeShort()
    ensures InitialSize(13) == 16 && FullCount(InitialSize(13)) == 12
  {
    assert Len(15) == 4 && Pow2(4) == 16;
  }

  /** The storage of an empty map. */
  method NewStorage(capacity: nat, callback: KeyCallback) returns (buf: array<Pointer>, size: nat)
    ensures fresh(buf) && size == InitialSize(capacity) && buf.Length == 2 * size
    ensures size > 0 ==> Table(callback, buf[..size])
    ensures Holds(buf[..size], buf[size..], callback.notakey, map[], multiset{}, multiset{})
  {
    hide Holds, Table;
    if capacity == 0 {
      buf, size := new Pointer[0], 0;
    } else {
      size := if capacity >= MIN_SIZE then RoundUp(capacity + capacity / 4) else INITIAL_SIZE;
      assert size == InitialSize(capacity);
      buf := AllocateStorage(size, callback.notakey);
      EmptyTable(callback, buf[..size]);
    }
    HolesHold(buf[..size], buf[size..], callback.notakey);
  }

  class PointerMap {
    // every call on one map is made with the same callbacks
    const callback: KeyCallback
    // do the release callbacks do anything?
    const releases: bool

    var storage: array<Pointer>
    var count: nat
    var size: nat

    // references that the retain callbacks acquired and the release callbacks did not return
    ghost var heldKeys: multiset<Pointer>
    ghost var heldValues: multiset<Pointer>
    // the calls of these callbacks so far
    ghost var calls: seq<Call>

    ghost function Contents(): map<Pointer, Pointer>
      requires storage.Length == 2 * size
      reads this, storage
    {
      Entries(storage[..size], storage[size..], callback.notakey)
    }

    ghost predicate Valid()
      reads this, storage
    {
      && callback.Valid()
      && storage.Length == 2 * size
      && (size == 0 || (size >= INITIAL_SIZE && IsPower(size) && Table(callback, storage[..size])))
      && count == |heldKeys| <= FullCount(size)
      && Holds(storage[..size], storage[size..], callback.notakey, Contents(), heldKeys, heldValues)
      && (releases ==> Balanced(calls, heldKeys, heldValues))
    }

    lemma ValidMap()
      requires Valid()
      ensures Keyed(callback, Contents())
      ensures count == |Contents()| && heldKeys == multiset(Contents().Keys)
      ensures size > 0 ==> callback.notakey in storage[..size]
      ensures count == 0 ==> Contents() == map[] && heldKeys == heldValues == multiset{}
    {
      hide Table;
      ValidUnique();
      TableKeyed(callback, storage[..size], storage[size..]);
      HoldsSize(storage[..size], storage[size..], callback.notakey, Contents(), heldKeys, heldValues);
    }

    constructor (capacity: nat, callback: KeyCallback, releases: bool)
      requires callback.Valid()
      ensures Valid() && fresh(storage) && Contents() == map[]
      ensures this.callback == callback && this.releases == releases
      ensures heldKeys == heldValues == multiset{} && calls == []
      ensures size == InitialSize(capacity)
      ensures capacity == 0 ==> size == 0
      ensures 0 < capacity < 4 ==> size == 4
      ensures 4 <= capacity ==> IsLeastPower(size, capacity + capacity / 4)
    {
      RoundUpIsLeast(capacity + capacity / 4);
      hide IsLeastPower;
      var buf, n := NewStorage(capacity, callback);
      this.callback, this.releases := callback, releases;
      storage, count, size := buf, 0, n;
      heldKeys, heldValues, calls := multiset{}, multiset{}, [];
      new;
      BalanceBegins();
      hide Holds, Entries, Table, IsPower, InitialSize, Balanced;
      HoldsEntries(storage[..size], storage[size..], callback.notakey, map[], multiset{}, multiset{});
    }

    predicate IsFull()
      reads this
    {
      count >= FullCount(size)
    }

    predicate IsSparse()
      reads this
    {
      IsSparseSize(count, size)
    }

    /** The pairs in a new storage of `newSize` slots. */
    method Rehash(newSize: nat) returns (buf: array<Pointer>)
      requires Valid() && newSize >= INITIAL_SIZE && count <= FullCount(newSize)
      ensures fresh(buf) && buf.Length == 2 * newSize && Table(callback, buf[..newSize])
      ensures Holds(buf[..newSize], buf[newSize..], callback.notakey, Contents(), heldKeys, heldValues)
    {
      ValidUnique();
      ValidBags();
      hide Table, Holds, Entries, Balanced, Unique, Bag;
      buf := AllocateStorage(newSize, callback.notakey);
      CopyStorage(callback, buf, newSize, storage, size);
    }

    /** Go over to a table of `newSize` slots. */
    method Resize(newSize: nat)
      requires Valid() && newSize >= INITIAL_SIZE && IsPower(newSize) && count <= FullCount(newSize)
      modifies this
      ensures Valid() && fresh(storage) && size == newSize
      ensures Contents() == old(Contents()) && count == old(count)
      ensures heldKeys == old(heldKeys) && heldValues == old(heldValues) && calls == old(calls)
    {
      hide Table, Holds, Entries, Balanced, IsPower;
      ghost var m := Contents();
      storage := Rehash(newSize);
      size := newSize;
      HoldsEntries(storage[..size], storage[size..], callback.notakey, m, heldKeys, heldValues);
    }

    method Grow()
      requires Valid()
      modifies this
      ensures Valid() && fresh(storage) && count < FullCount(size)
      ensures size == if old(size) == 0 then INITIAL_SIZE else 2 * old(size)
      ensures Contents() == old(Contents()) && count == old(count)
      ensures heldKeys == old(heldKeys) && heldValues == old(heldValues) && calls == old(calls)
    {
      var newSize := size * 2;
      if newSize == 0 {
        newSize := INITIAL_SIZE;
        assert Pow2(2) == newSize;
      } else {
        var k: nat :| size == Pow2(k);
        assert newSize == Pow2(k + 1);
      }
      Resize(newSize);
    }

    /** Smaller tables while the pairs leave room; never below the initial size. */
    method Shrink()
      requires Valid() && IsSparse()
      modifies this
      ensures Valid() && (storage == old(storage) || fresh(storage)) && size <= old(size)
      ensures Contents() == old(Contents()) && count == old(count)
      ensures heldKeys == old(heldKeys) && heldValues == old(heldValues) && calls == old(calls)
      ensures size > INITIAL_SIZE ==> !IsSparse()
      ensures size < old(size) ==> count < size - size / 4
    {
      ghost var k: nat :| size == Pow2(k);
      var newSize := size / 2;
      k := k - 1;
      while IsSparseSize(count, newSize)
        invariant newSize == Pow2(k) && newSize < size && count < FullCount(newSize)
        invariant newSize >= 2
        decreases newSize
      {
        newSize := newSize / 2;
        k := k - 1;
        if newSize < INITIAL_SIZE {
          break;
        }
      }
      if newSize < INITIAL_SIZE {
        newSize := INITIAL_SIZE;
        assert Pow2(2) == newSize;
      }
      if newSize >= size {
        return;
      }
      Resize(newSize);
    }

    method ShrinkIfNeeded()
      requires Valid()
      modifies this
      ensures Valid() && (storage == old(storage) || fresh(storage)) && size <= old(size)
      ensures Contents() == old(Contents())
      ensures heldKeys == old(heldKeys) && heldValues == old(heldValues) && calls == old(calls)
      ensures size > 4 ==> count >= size / 2 - size / 2 / 4
      ensures size < old(size) ==> count < size - size / 4
    {
      if IsSparse() {
        Shrink();
      }
    }

    // ----- writing -----

    /** Replace the pair in slot `i` by an equal key and its value. */
    method ReplaceAt(i: nat, retained: Pair)
      requires Valid() && i < size && storage[i] != callback.notakey
      requires retained.key != callback.notakey && callback.IsEqual(retained.key, storage[i])
      modifies this, storage
      ensures Valid() && storage == old(storage)
      ensures Contents() == (old(Contents()) - {old(storage[i])})[retained.key := retained.value]
      ensures calls == old(calls) + [Retain(retained), Release(old(Pair(storage[i], storage[i + size])))]
      ensures size == old(size) && count == old(count)
    {
      hide Table, Holds, Entries, Balanced;
      ghost var keys, values, m := storage[..size], storage[size..], Contents();
      ghost var m' := (m - {keys[i]})[retained.key := retained.value];
      StoredReplace(callback, keys, values, i, retained, m, heldKeys, heldValues);
      // retain the new pair, then release the old one
      RetainPair(retained);
      ReleasePair(keys[i], values[i]);
      keys, values := keys[i := retained.key], values[i := retained.value];
      assert Stored(callback, keys, values, m', heldKeys, heldValues);
      SetSlot(storage, size, i, retained.key, retained.value);
      HoldsEntries(keys, values, callback.notakey, m', heldKeys, heldValues);
    }

    /** A write that has found the key in slot `i`. */
    method WriteFound(i: nat, mode: Mode, pair: Pair, retained: Pair) returns (r: Pointer)
      requires Valid() && Storable(callback, pair, retained)
      requires i < size && storage[i] != callback.notakey && callback.IsEqual(pair.key, storage[i])
      modifies this, storage
      ensures Valid() && storage == old(storage)
      ensures Contents() == WriteMap(callback, old(Contents()), mode, pair, retained)
      ensures r == WriteResult(mode, Entry(callback, old(Contents()), pair.key), pair)
      ensures calls == old(calls) + WriteCalls(mode, Entry(callback, old(Contents()), pair.key), pair, retained)
      ensures size == old(size) && count == old(count)
    {
      hide Table, Holds, Entries, Balanced, Entry, WriteMap;
      ghost var m := Contents();
      ValidMap();
      WriteMapCases(callback, m, mode, pair, retained);
      var oldValue := storage[i + size];
      FoundEntry(callback, storage[..size], storage[size..], pair.key, i);
      if mode == Insert {
        return oldValue;
      }
      if oldValue == pair.value && storage[i] == pair.key {
        return NULL;
      }
      ReplaceAt(i, retained);
      return if mode == Update then oldValue else NULL;
    }

    /** A write in terms of the entry of its key. */
    method Store(mode: Mode, pair: Pair, retained: Pair) returns (r: Pointer)
      requires Valid() && Storable(callback, pair, retained)
      modifies this, storage
      ensures Valid() && (storage == old(storage) || fresh(storage))
      ensures Contents() == WriteMap(callback, old(Contents()), mode, pair, retained)
      ensures r == WriteResult(mode, Entry(callback, old(Contents()), pair.key), pair)
      ensures calls == old(calls) + WriteCalls(mode, Entry(callback, old(Contents()), pair.key), pair, retained)
      ensures count == old(count) + if Entry(callback, old(Contents()), pair.key) == None then 1 else 0
      ensures size == if Entry(callback, old(Contents()), pair.key) == None && old(count) >= old(size) - old(size) / 4
                      then (if old(size) == 0 then INITIAL_SIZE else 2 * old(size)) else old(size)
    {
      hide Table, Holds, Entries, Balanced, Missed, WriteMap;
      ghost var m := Contents();
      ValidMap();
      WriteMapCases(callback, m, mode, pair, retained);
      if count > 0 {
        var found, _ := FindIndex(callback, storage, size, pair.key);
        if found.Found? {
          r := WriteFound(found.index, mode, pair, retained);
          return;
        }
        MissIsAbsence(callback, storage[..size], pair.key, found.hole);
        AbsentEntry(callback, storage[..size], storage[size..], pair.key);
        if !IsFull() {
          PlaceAt(found.hole, pair.key, retained);
          return NULL;
        }
      }
      assert Entry(callback, m, pair.key) == None;
      if IsFull() {
        Grow();
      }
      PlaceAnywhere(pair.key, retained);
      return NULL;
    }

    method Write(mode: Mode, pair: Pair, retained: Pair) returns (r: Pointer)
      requires Valid() && Storable(callback, pair, retained)
      modifies this, storage
      ensures Valid() && (storage == old(storage) || fresh(storage))
      ensures Contents() == WriteMap(callback, old(Contents()), mode, pair, retained)
      ensures r == WriteResult(mode, Entry(callback, old(Contents()), pair.key), pair)
      ensures calls == old(calls) + WriteCalls(mode, Entry(callback, old(Contents()), pair.key), pair, retained)
      ensures count == old(count) + if Entry(callback, old(Contents()), pair.key) == None then 1 else 0
      ensures size == if Entry(callback, old(Contents()), pair.key) == None && old(count) >= old(size) - old(size) / 4
                      then (if old(size) == 0 then INITIAL_SIZE else 2 * old(size)) else old(size)
      ensures (forall s :: s in old(Contents()) ==> !callback.IsEqual(pair.key, s)) ==>
                && Contents() == old(Contents())[retained.key := retained.value] && r == NULL
                && calls == old(calls) + [Retain(retained)]
      ensures forall s :: s in old(Contents()) && callback.IsEqual(pair.key, s) ==>
                var stored := Pair(s, old(Contents())[s]);
                && Contents() == (if mode == Insert || stored == pair then old(Contents())
                                  else (old(Contents()) - {s})[retained.key := retained.value])
                && r == (if mode == Insert || (mode == Update && stored != pair) then stored.value else NULL)
                && calls == old(calls) + if mode == Insert || stored == pair then []
                                         else [Retain(retained), Release(stored)]
      ensures mode == Update ==>
                (UpdateAsDocumented(callback, old(Contents()), pair, Contents(), r)
                 <==> UpdateKeepsPromise(callback, old(Contents()), pair))
    {
      hide Table, Holds, Entries, Balanced, WriteMap, WriteResult, WriteCalls, Entry, Keyed;
      hide UpdateAsDocumented, UpdateKeepsPromise;
      ghost var m := Contents();
      ValidMap();
      UpdateAsDocumentedIff(callback, m, pair, retained);
      if forall s :: s in m ==> !callback.IsEqual(pair.key, s) {
        WriteAbsent(callback, m, mode, pair, retained);
      }
      forall s | s in m && callback.IsEqual(pair.key, s)
        ensures WriteMap(callback, m, mode, pair, retained)
                == if mode == Insert || Pair(s, m[s]) == pair then m
                   else (m - {s})[retained.key := retained.value]
        ensures WriteResult(mode, Entry(callback, m, pair.key), pair)
                == if mode == Insert || (mode == Update && Pair(s, m[s]) != pair) then m[s] else NULL
        ensures WriteCalls(mode, Entry(callback, m, pair.key), pair, retained)
                == if mode == Insert || Pair(s, m[s]) == pair then []
                   else [Retain(retained), Release(Pair(s, m[s]))]
      {
        WritePresent(callback, m, mode, pair, retained, s);
      }
      r := Store(mode, pair, retained);
    }

    /** Insert without overwriting; tells by the count whether the key was absent. */
    method InsertPair(pair: Pair, retained: Pair) returns (inserted: bool)
      requires Valid() && Storable(callback, pair, retained)
      modifies this, storage
      ensures Valid() && (storage == old(storage) || fresh(storage))
      ensures inserted <==> forall s :: s in old(Contents()) ==> !callback.IsEqual(pair.key, s)
      ensures Contents() == if inserted then old(Contents())[retained.key := retained.value]
                            else old(Contents())
    {
      hide Table, Holds, Entries, Balanced;
      ghost var m := Contents();
      ValidMap();
      WriteMapCases(callback, m, Insert, pair, retained);
      EntrySpec(callback, m, pair.key);
      var oldCount := count;
      var _ := Write(Insert, pair, retained);
      ValidMap();
      inserted := count != oldCount;
    }

    /** Store a new pair in the hole that the probe for its key has run into. */
    method PlaceAt(i: nat, ghost key: Pointer, retained: Pair)
      requires Valid() && i < size && storage[i] == callback.notakey && count < FullCount(size)
      requires retained.key != callback.notakey && callback.IsEqual(key, retained.key)
      requires Missed(callback, storage[..size], key, i)
      modifies this, storage
      ensures Valid() && storage == old(storage)
      ensures Contents() == old(Contents())[retained.key := retained.value]
      ensures calls == old(calls) + [Retain(retained)] && size == old(size) && count == old(count) + 1
    {
      MissIsAbsence(callback, storage[..size], key, i);
      StoredPlace(callback, storage[..size], storage[size..], i, key, retained,
                  Contents(), heldKeys, heldValues);
      RetainPair(retained);
      SetSlot(storage, size, i, retained.key, retained.value);
      count := count + 1;
    }

    /** Store a new pair in the first hole after its home slot. */
    method PlaceAnywhere(key: Pointer, retained: Pair)
      requires Valid() && count < FullCount(size)
      requires retained.key != callback.notakey && callback.IsEqual(key, retained.key)
      requires Entry(callback, Contents(), key) == None
      modifies this, storage
      ensures Valid() && storage == old(storage)
      ensures Contents() == old(Contents())[retained.key := retained.value]
      ensures calls == old(calls) + [Retain(retained)] && size == old(size) && count == old(count) + 1
    {
      hide Table, Holds, Entries, Balanced, Entry;
      ghost var keys, values := storage[..size], storage[size..];
      ghost var m := Contents();
      ValidMap();
      NoEntryIsAbsent(callback, keys, values, key);
      ghost var slot := StoreKeyValue(storage, size, callback.Home(key, size),
                                      retained.key, retained.value, callback.notakey);
      assert PathFull(callback, keys, key, slot);
      StoredPlace(callback, keys, values, slot, key, retained, m, heldKeys, heldValues);
      RetainPair(retained);
      count := count + 1;
      HoldsEntries(storage[..size], storage[size..], callback.notakey,
                   m[retained.key := retained.value], heldKeys, heldValues);
    }

    // ----- removal -----

    /** Release the pair in slot `i` and close the gap it leaves. */
    method RemoveAt(i: nat)
      requires Valid() && i < size && storage[i] != callback.notakey
      modifies this, storage
      ensures Valid() && storage == old(storage)
      ensures Contents() == old(Contents()) - {old(storage[i])}
      ensures calls == old(calls) + [Release(old(Pair(storage[i], storage[i + size])))] && size == old(size)
    {
      hide Table, Holds, Entries, Balanced;
      ghost var keys, values, m := storage[..size], storage[size..], Contents();
      ValidMap();
      ClearHolds(keys, values, callback.notakey, i, m, heldKeys, heldValues);
      ReleasePair(keys[i], values[i]);
      count := count - 1;
      ShiftBack(callback, storage, size, i, m - {keys[i]}, heldKeys, heldValues);
      HoldsEntries(storage[..size], storage[size..], callback.notakey, m - {keys[i]}, heldKeys, heldValues);
    }

    /** The slot of the entry of `key`, if there is one. */
    method FindEntry(key: Pointer) returns (r: Option<nat>)
      requires Valid()
      ensures r == None ==> Entry(callback, Contents(), key) == None
      ensures r != None ==>
                && r.value < size && storage[r.value] != callback.notakey
                && Entry(callback, Contents(), key)
                   == Some(Pair(storage[r.value], storage[r.value + size]))
    {
      hide Table, Holds, Entries, Balanced, Missed, Keyed;
      ValidMap();
      if count == 0 {
        return None;
      }
      var found, _ := FindIndex(callback, storage, size, key);
      if found.NotFound? {
        MissIsAbsence(callback, storage[..size], key, found.hole);
        AbsentEntry(callback, storage[..size], storage[size..], key);
        return None;
      }
      FoundEntry(callback, storage[..size], storage[size..], key, found.index);
      return Some(found.index);
    }

    /** A removal in terms of the entry of its key. */
    method TakeOut(key: Pointer) returns (removed: bool)
      requires Valid()
      modifies this, storage
      ensures Valid() && storage == old(storage)
      ensures Contents() == RemoveMap(callback, old(Contents()), key)
      ensures removed <==> Entry(callback, old(Contents()), key) != None
      ensures calls == old(calls) + if removed then [Release(Entry(callback, old(Contents()), key).value)] else []
      ensures size == old(size)
    {
      hide Table, Holds, Entries, Balanced, Entry;
      var slot := FindEntry(key);
      if slot == None {
        return false;
      }
      RemoveAt(slot.value);
      removed := true;
    }

    method Remove(key: Pointer) returns (removed: bool)
      requires Valid()
      modifies this, storage
      ensures Valid() && storage == old(storage)
      ensures Contents() == RemoveMap(callback, old(Contents()), key)
      ensures removed <==> Entry(callback, old(Contents()), key) != None
      ensures removed <==> exists s :: s in old(Contents()) && callback.IsEqual(key, s)
      ensures !removed ==> Contents() == old(Contents())
      ensures forall s :: s in old(Contents()) && callback.IsEqual(key, s) ==>
                && Contents() == old(Contents()) - {s}
                && calls == old(calls) + [Release(Pair(s, old(Contents())[s]))]
      ensures !removed ==> calls == old(calls)
      ensures calls == old(calls) + if removed then [Release(Entry(callback, old(Contents()), key).value)] else []
      ensures size == old(size)
    {
      ValidMap();
      EntrySpec(callback, Contents(), key);
      RemoveIs(callback, Contents(), key);
      EntryIsStored(callback, Contents(), key);
      hide Table, Holds, Entries, Balanced, Entry, Keyed, RemoveMap;
      removed := TakeOut(key);
    }

    // ----- lookup -----

    /** The slot of `key`, by hash; pointer equality saves the call of `is_equal`. */
    method FindSlot(key: Pointer) returns (r: Option<nat>)
      requires Valid()
      ensures r == None ==> Entry(callback, Contents(), key) == None
      ensures r != None ==>
                && r.value < size
                && Entry(callback, Contents(), key)
                   == Some(Pair(storage[r.value], storage[r.value + size]))
    {
      hide Table, Holds, Entries, Balanced, Missed;
      ValidMap();
      if count == 0 {
        return None;
      }
      var found, _ := FindByHash(callback, storage, size, key);
      if found.NotFound? {
        MissIsAbsence(callback, storage[..size], key, found.hole);
        AbsentEntry(callback, storage[..size], storage[size..], key);
        return None;
      }
      FoundEntry(callback, storage[..size], storage[size..], key, found.index);
      return Some(found.index);
    }

    method GetHashed(key: Pointer) returns (value: Pointer)
      requires Valid()
      ensures value == ValueOf(Entry(callback, Contents(), key))
      ensures (forall s :: s in Contents() ==> !callback.IsEqual(key, s)) ==> value == NULL
      ensures forall s :: s in Contents() && callback.IsEqual(key, s) ==> value == Contents()[s]
    {
      ValidMap();
      EntrySpec(callback, Contents(), key);
      EntryIsStored(callback, Contents(), key);
      hide Table, Holds, Entries, Balanced, Entry, Keyed;
      var slot := FindSlot(key);
      return if slot == None then NULL else storage[slot.value + size];
    }

    method GetPair(key: Pointer) returns (pair: Option<Pair>)
      requires Valid()
      ensures pair == if key == callback.notakey then None else Entry(callback, Contents(), key)
      ensures key == callback.notakey ==> pair == None
      ensures key != callback.notakey ==>
                (pair == None <==> forall s :: s in Contents() ==> !callback.IsEqual(key, s))
      ensures pair != None ==>
                && callback.IsEqual(key, pair.value.key)
                && pair.value.key in Contents() && Contents()[pair.value.key] == pair.value.value
    {
      ValidMap();
      EntrySpec(callback, Contents(), key);
      hide Table, Holds, Entries, Balanced, Entry, Keyed;
      if key == callback.notakey {
        return None;
      }
      var slot := FindSlot(key);
      return if slot == None then None else Some(Pair(storage[slot.value], storage[slot.value + size]));
    }

    /** The value stored under this very pointer, or NULL. */
    method PointerEqualitySearch(key: Pointer) returns (value: Pointer)
      requires Valid() && key != callback.notakey
      ensures value == if key in Contents() then Contents()[key] else NULL
    {
      hide Holds, Table;
      ghost var keys := storage[..size];
      for q := 0 to size
        invariant key !in keys[..q]
      {
        assert keys[..q + 1] == keys[..q] + [keys[q]];
        if storage[q] == key {
          ValidDistinct();
          EntryAt(keys, storage[size..], callback.notakey, q);
          return storage[q + size];
        }
      }
      assert keys[..size] == keys;
      return NULL;
    }

    lemma ValidDistinct()
      requires Valid()
      ensures DistinctKeys(storage[..size], callback.notakey)
    {
    }

    lemma ValidUnique()
      requires Valid()
      ensures Unique(callback, storage[..size])
    {
    }

    /** The lookup: small tables are first searched for the pointer itself. */
    method Get(key: Pointer) returns (value: Pointer)
      requires Valid()
      ensures value == Lookup(callback, Contents(), key)
      ensures key == callback.notakey ==> value == NULL
      ensures (forall s :: s in Contents() ==> !callback.IsEqual(key, s)) ==> value == NULL
      ensures forall s :: s in Contents() && callback.IsEqual(key, s) && key != callback.notakey ==>
                            value == Contents()[s]
    {
      ValidMap();
      LookupIs(callback, Contents(), key);
      hide Table, Holds, Entries, Balanced, Entry, Keyed;
      if key == callback.notakey {
        return NULL;
      }
      if size <= 32 {
        value := PointerEqualitySearch(key);
        if value != NULL {
          EntryIs(callback, Contents(), key, key);
          return;
        }
      }
      value := GetHashed(key);
    }

    // ----- enumeration and lifecycle -----

    method Enumerate() returns (rover: MapEnumerator)
      requires Valid()
      ensures fresh(rover) && rover.Valid() && rover.storage == storage
      ensures rover.Pending() == Items(storage[..size], storage[size..], callback.notakey, 0)
    {
      ItemsBags(storage[..size], storage[size..], callback.notakey, 0);
      rover := new MapEnumerator(storage, size, count, callback.notakey);
    }

    /** Enumerating the whole map yields each of its pairs once. */
    method AllPairs() returns (items: seq<Pair>)
      requires Valid()
      ensures DifferentKeys(items) && |items| == count
      ensures forall p :: p in items <==> p.key in Contents() && Contents()[p.key] == p.value
    {
      ValidDistinct();
      ValidMap();
      ItemsAreEntries(storage[..size], storage[size..], callback.notakey);
      var rover := Enumerate();
      items := Drain(rover);
    }

    /** Release every stored pair, unless the release callbacks do nothing anyway. */
    method ReleaseAll()
      requires Valid()
      modifies `heldKeys, `heldValues, `calls
      ensures heldKeys == heldValues == multiset{}
      ensures calls == old(calls)
                       + if releases then Releases(Items(storage[..size], storage[size..], callback.notakey, 0))
                         else []
      ensures releases ==> Balanced(calls, heldKeys, heldValues)
    {
      hide Balanced;
      if !releases {
        heldKeys, heldValues := multiset{}, multiset{};
        return;
      }
      ReleaseStored();
    }

    method ReleaseStored()
      requires Valid()
      modifies `heldKeys, `heldValues, `calls
      ensures heldKeys == heldValues == multiset{}
      ensures calls == old(calls) + Releases(Items(storage[..size], storage[size..], callback.notakey, 0))
      ensures releases ==> Balanced(calls, heldKeys, heldValues)
    {
      hide Balanced, Table, Holds, Items, Entries, KeyBag, ValueBag, Bag, Releases;
      ghost var items := Items(storage[..size], storage[size..], callback.notakey, 0);
      ItemsBags(storage[..size], storage[size..], callback.notakey, 0);
      NothingBefore(KeyBag(items));
      NothingBefore(ValueBag(items));
      ValidBags();
      var rover := Enumerate();
      ReleasePending(rover);
    }

    lemma NothingBefore(bag: multiset<Pointer>)
      ensures multiset{} + bag == bag
    {
    }

    method ReleasePending(rover: MapEnumerator)
      requires rover.Valid()
      requires heldKeys == KeyBag(rover.Pending()) && heldValues == ValueBag(rover.Pending())
      modifies `heldKeys, `heldValues, `calls, rover
      ensures heldKeys == heldValues == multiset{}
      ensures calls == old(calls) + Releases(old(rover.Pending()))
      ensures old(Balanced(calls, heldKeys, heldValues)) ==> Balanced(calls, heldKeys, heldValues)
    {
      hide Balanced, Items, KeyBag, ValueBag, Releases;
      HeadBags(rover.Pending());
      HeadReleases(calls, rover.Pending());
      ghost var expected := calls + Releases(rover.Pending());
      var more, key, value := rover.Next();
      while more
        invariant rover.Valid()
        invariant more ==> heldKeys == multiset{key} + KeyBag(rover.Pending())
        invariant more ==> heldValues == multiset{value} + ValueBag(rover.Pending())
        invariant !more ==> heldKeys == heldValues == multiset{}
        invariant more ==> expected == calls + [Release(Pair(key, value))] + Releases(rover.Pending())
        invariant !more ==> expected == calls
        invariant old(Balanced(calls, heldKeys, heldValues)) ==> Balanced(calls, heldKeys, heldValues)
        decreases more, |rover.Pending()|
      {
        ghost var ahead := rover.Pending();
        TakeHead(key, KeyBag(ahead));
        TakeHead(value, ValueBag(ahead));
        ReleasePair(key, value);
        HeadBags(ahead);
        HeadReleases(calls, ahead);
        more, key, value := rover.Next();
      }
    }

    /** The release callbacks; only what is held can be released. */
    ghost method ReleasePair(key: Pointer, value: Pointer)
      requires key in heldKeys && value in heldValues
      modifies `heldKeys, `heldValues, `calls
      ensures heldKeys == old(heldKeys) - multiset{key}
      ensures heldValues == old(heldValues) - multiset{value}
      ensures calls == old(calls) + [Release(Pair(key, value))]
      ensures old(Balanced(calls, heldKeys, heldValues)) ==> Balanced(calls, heldKeys, heldValues)
    {
      if Balanced(calls, heldKeys, heldValues) {
        BalanceRelease(calls, heldKeys, heldValues, Pair(key, value));
      }
      hide Balanced;
      calls := calls + [Release(Pair(key, value))];
      heldKeys := heldKeys - multiset{key};
      heldValues := heldValues - multiset{value};
    }

    /** The retain callbacks. */
    ghost method RetainPair(pair: Pair)
      modifies `heldKeys, `heldValues, `calls
      ensures heldKeys == old(heldKeys) + multiset{pair.key}
      ensures heldValues == old(heldValues) + multiset{pair.value}
      ensures calls == old(calls) + [Retain(pair)]
      ensures old(Balanced(calls, heldKeys, heldValues)) ==> Balanced(calls, heldKeys, heldValues)
    {
      if Balanced(calls, heldKeys, heldValues) {
        BalanceRetain(calls, heldKeys, heldValues, pair);
      }
      hide Balanced;
      calls := calls + [Retain(pair)];
      heldKeys := heldKeys + multiset{pair.key};
      heldValues := heldValues + multiset{pair.value};
    }

    lemma ValidBags()
      requires Valid()
      ensures heldKeys == Bag(storage[..size], storage[..size], callback.notakey)
      ensures heldValues == Bag(storage[..size], storage[size..], callback.notakey)
    {
    }

    /** Back to the state after `init` with no capacity; an empty map is left alone. */
    method Reset()
      requires Valid()
      modifies this
      ensures Valid() && (storage == old(storage) || fresh(storage))
      ensures Contents() == map[] && heldKeys == heldValues == multiset{} && count == 0
      ensures old(count) == 0 ==> storage == old(storage) && size == old(size) && calls == old(calls)
      ensures old(count) > 0 ==>
                && size == 0
                && var items := old(Items(storage[..size], storage[size..], callback.notakey, 0));
                   calls == old(calls) + if releases then Releases(items) else []
    {
      hide Table, Holds, Entries, Items, Releases, Balanced;
      ValidMap();
      if count > 0 {
        ReleaseAll();
        storage := new Pointer[0];
        count, size := 0, 0;
        HolesHold(storage[..size], storage[size..], callback.notakey);
        HoldsEntries(storage[..size], storage[size..], callback.notakey, map[], multiset{}, multiset{});
      }
    }
  }

  /** The answer to a lookup of `key` in the map `m`. */
  ghost predicate AnswersLookup(cb: KeyCallback, m: map<Pointer, Pointer>, key: Pointer, answer: Outcome) {
    && answer.Returned?
    && (key == cb.notakey || (forall s :: s in m ==> !cb.IsEqual(key, s)) ==> answer.value == NULL)
    && (forall s :: s in m && cb.IsEqual(key, s) && key != cb.notakey ==> answer.value == m[s])
  }

  method Step(m: PointerMap, op: Op) returns (answer: Outcome)
    requires m.Valid() && LegalOp(m.callback, op)
    modifies m, m.storage
    ensures m.Valid() && (m.storage == old(m.storage) || fresh(m.storage))
    ensures m.Contents() == StepMap(m.callback, old(m.Contents()), op)
    ensures answer == Answer(m.callback, old(m.Contents()), op)
    ensures op.Get? ==> AnswersLookup(m.callback, old(m.Contents()), op.key, answer)
  {
    hide PointerMap.Valid, PointerMap.Contents, WriteMap, RemoveMap, WriteResult, Entry, Lookup;
    match op
    case Write(mode, pair, retained) =>
      var r := m.Write(mode, pair, retained);
      answer := Returned(r);
    case Remove(key) =>
      var removed := m.Remove(key);
      answer := Removed(removed);
    case Get(key) =>
      var value := m.Get(key);
      answer := Returned(value);
    case ShrinkIfNeeded =>
      m.ShrinkIfNeeded();
      answer := Done;
    case Reset =>
      m.Reset();
      answer := Done;
  }

  ghost predicate KeysFrom(m: map<Pointer, Pointer>, retained: seq<Pair>, n: nat)
    requires n <= |retained|
  {
    forall k :: k in m ==> exists j :: 0 <= j < n && retained[j].key == k
  }

  /** The next of pairs with different keys is absent, and comes to the others. */
  lemma NextIsAbsent(cb: KeyCallback, m: map<Pointer, Pointer>, mode: Mode,
                     pairs: seq<Pair>, retained: seq<Pair>, n: nat)
    requires cb.Valid() && Keyed(cb, m) && n < |pairs| == |retained| && KeysFrom(m, retained, n)
    requires forall i :: 0 <= i < |pairs| ==> Storable(cb, pairs[i], retained[i])
    requires forall i, j :: 0 <= i < j < |pairs| ==> !cb.IsEqual(pairs[i].key, pairs[j].key)
    ensures Entry(cb, m, pairs[n].key) == None
    ensures KeysFrom(WriteMap(cb, m, mode, pairs[n], retained[n]), retained, n + 1)
  {
    EntrySpec(cb, m, pairs[n].key);
    forall k | k in m ensures !cb.IsEqual(pairs[n].key, k) {
      var j :| 0 <= j < n && retained[j].key == k;
      assert Storable(cb, pairs[j], retained[j]) && !cb.IsEqual(pairs[j].key, pairs[n].key);
    }
    WriteMapCases(cb, m, mode, pairs[n], retained[n]);
  }

  /** A new map for a capacity takes pairs with different keys without growing exactly as
      long as they are not more than the table's limit. For as many pairs as the capacity
      says, that is the condition of CapacityFitsIff. */
  method Fill(capacity: nat, callback: KeyCallback, releases: bool, mode: Mode, pairs: seq<Pair>, retained: seq<Pair>)
    returns (m: PointerMap)
    requires callback.Valid() && capacity > 0 && |pairs| == |retained|
    requires forall i :: 0 <= i < |pairs| ==> Storable(callback, pairs[i], retained[i])
    requires forall i, j :: 0 <= i < j < |pairs| ==> !callback.IsEqual(pairs[i].key, pairs[j].key)
    ensures fresh(m) && m.Valid() && m.count == |pairs|
    ensures m.size == InitialSize(capacity) <==> |pairs| <= FullCount(InitialSize(capacity))
    ensures |pairs| == capacity ==>
              (m.size == InitialSize(capacity) <==> CapacityFits(capacity))
  {
    CapacityFitsIff(capacity);
    m := new PointerMap(capacity, callback, releases);
    m.ValidMap();
    for i := 0 to |pairs|
      invariant fresh(m) && fresh(m.storage) && m.Valid() && m.callback == callback && m.count == i
      invariant KeysFrom(m.Contents(), retained, i)
      invariant m.size >= InitialSize(capacity)
      invariant m.size == InitialSize(capacity) <==> i <= FullCount(InitialSize(capacity))
    {
      hide Table, Holds, Entries, Balanced, CapacityFits, InitialSize, UpdateAsDocumented, UpdateKeepsPromise;
      hide WriteMap, WriteResult, WriteCalls, Entry, KeysFrom;
      m.ValidMap();
      NextIsAbsent(callback, m.Contents(), mode, pairs, retained, i);
      var _ := m.Write(mode, pairs[i], retained[i]);
    }
  }

  /** Each answer of a run is that of the map at the time. */
  ghost predicate Answered(cb: KeyCallback, m: map<Pointer, Pointer>, ops: seq<Op>, out: seq<Outcome>) {
    && |out| == |ops|
    && forall i :: 0 <= i < |ops| ==>
                     && out[i] == Answer(cb, RunMap(cb, m, ops[..i]), ops[i])
                     && (ops[i].Get? ==> AnswersLookup(cb, RunMap(cb, m, ops[..i]), ops[i].key, out[i]))
  }

  lemma OneMoreAnswer(cb: KeyCallback, m: map<Pointer, Pointer>, ops: seq<Op>, i: nat, out: seq<Outcome>,
                      answer: Outcome)
    requires i < |ops| && Answered(cb, m, ops[..i], out)
    requires answer == Answer(cb, RunMap(cb, m, ops[..i]), ops[i])
    requires ops[i].Get? ==> AnswersLookup(cb, RunMap(cb, m, ops[..i]), ops[i].key, answer)
    ensures Answered(cb, m, ops[..i + 1], out + [answer])
  {
    hide Answer, AnswersLookup, RunMap;
    var now, out' := ops[..i + 1], out + [answer];
    forall j | 0 <= j <= i
      ensures out'[j] == Answer(cb, RunMap(cb, m, now[..j]), now[j])
      ensures now[j].Get? ==> AnswersLookup(cb, RunMap(cb, m, now[..j]), now[j].key, out'[j])
    {
      assert now[..j] == ops[..j];
      assert j < i ==> ops[..i][..j] == ops[..j] && out'[j] == out[j];
    }
  }

  /** The operations of a run, one after the other. */
  method StepAll(m: PointerMap, ops: seq<Op>) returns (out: seq<Outcome>)
    requires m.Valid() && Legal(m.callback, ops)
    modifies m, m.storage
    ensures m.Valid()
    ensures m.Contents() == RunMap(m.callback, old(m.Contents()), ops)
    ensures Answered(m.callback, old(m.Contents()), ops, out)
  {
    out := [];
    for i := 0 to |ops|
      invariant m.Valid() && (m.storage == old(m.storage) || fresh(m.storage))
      invariant m.Contents() == RunMap(m.callback, old(m.Contents()), ops[..i])
      invariant Answered(m.callback, old(m.Contents()), ops[..i], out)
    {
      hide PointerMap.Valid, PointerMap.Contents, StepMap, Answer, LegalOp, AnswersLookup, Answered;
      assert ops[..i + 1][..i] == ops[..i] && ops[..i + 1][i] == ops[i];
      var answer := Step(m, ops[i]);
      OneMoreAnswer(m.callback, old(m.Contents()), ops, i, out, answer);
      out := out + [answer];
    }
    assert ops[..|ops|] == ops;
  }

  /** Every run refines the mathematical map, keeps the invariant (with it the balance of
      retains and releases), answers as that map does, and leaves in the map for each key
      what its own history says. A lookup answers the value under the stored key that equals
      its key at that time, and NULL without one. */
  method Perform(m: PointerMap, ops: seq<Op>) returns (out: seq<Outcome>)
    requires m.Valid() && Legal(m.callback, ops)
    modifies m, m.storage
    ensures m.Valid()
    ensures m.Contents() == RunMap(m.callback, old(m.Contents()), ops)
    ensures Answered(m.callback, old(m.Contents()), ops, out)
    ensures forall k :: Entry(m.callback, m.Contents(), k)
                        == RunEntry(m.callback, k, Entry(m.callback, old(m.Contents()), k), ops)
    ensures m.heldKeys == multiset(m.Contents().Keys) && m.count == |m.Contents()|
    ensures m.releases ==> Balanced(m.calls, m.heldKeys, m.heldValues)
  {
    m.ValidMap();
    hide PointerMap.Contents, Legal, Answered, Keyed;
    out := StepAll(m, ops);
    m.ValidMap();
    forall k {
      RunIsPerKey(m.callback, old(m.Contents()), ops, k);
    }
  }
}
