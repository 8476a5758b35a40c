/** The routines of src/map/pointer/mulle--pointermap-generic.c that work on the storage
    alone: one buffer with the keys in its lower and the values in its upper half. */
module ProbeStorage {
  import opened BitMath
  import opened Pointers
  import opened Collisions
  import opened ProbeTable
  import opened TableContents
  import opened MapModel
  import opened Sequences

  datatype FindResult = Found(index: nat) | NotFound(hole: nat)

  // ----- lemmas that connect a table with the map it stores -----

  lemma TableDistinct(cb: KeyCallback, keys: seq<Pointer>)
    requires cb.Valid() && Unique(cb, keys)
    ensures DistinctKeys(keys, cb.notakey)
  {
  }

  lemma FoundEntry(cb: KeyCallback, keys: seq<Pointer>, values: seq<Pointer>, key: Pointer, i: nat)
    requires cb.Valid() && Table(cb, keys) && |keys| == |values| && i < |keys|
    requires keys[i] != cb.notakey && cb.IsEqual(key, keys[i])
    ensures Keyed(cb, Entries(keys, values, cb.notakey))
    ensures Entry(cb, Entries(keys, values, cb.notakey), key) == Some(Pair(keys[i], values[i]))
  {
    TableDistinct(cb, keys);
    TableKeyed(cb, keys, values);
    EntryAt(keys, values, cb.notakey, i);
    EntryIs(cb, Entries(keys, values, cb.notakey), key, keys[i]);
  }

  lemma TableKeyed(cb: KeyCallback, keys: seq<Pointer>, values: seq<Pointer>)
    requires Unique(cb, keys) && |keys| == |values|
    ensures Keyed(cb, Entries(keys, values, cb.notakey))
  {
    var m := Entries(keys, values, cb.notakey);
    forall a, b | a in m && b in m && a != b ensures !cb.IsEqual(a, b) {
      assert keys[IndexOf(keys, a)] == a && keys[IndexOf(keys, b)] == b;
    }
  }

  lemma AbsentEntry(cb: KeyCallback, keys: seq<Pointer>, values: seq<Pointer>, key: Pointer)
    requires cb.Valid() && Table(cb, keys) && |keys| == |values| && !Stores(cb, keys, key)
    ensures Keyed(cb, Entries(keys, values, cb.notakey))
    ensures Entry(cb, Entries(keys, values, cb.notakey), key) == None
  {
    var m := Entries(keys, values, cb.notakey);
    TableKeyed(cb, keys, values);
    forall s | s in m ensures !cb.IsEqual(key, s) {
      assert keys[IndexOf(keys, s)] == s;
    }
  }

  lemma NoEntryIsAbsent(cb: KeyCallback, keys: seq<Pointer>, values: seq<Pointer>, key: Pointer)
    requires cb.Valid() && Table(cb, keys) && |keys| == |values|
    requires Entry(cb, Entries(keys, values, cb.notakey), key) == None
    ensures !Stores(cb, keys, key)
  {
    TableKeyed(cb, keys, values);
    EntrySpec(cb, Entries(keys, values, cb.notakey), key);
    forall s | 0 <= s < |keys| && keys[s] != cb.notakey ensures !cb.IsEqual(key, keys[s]) {
      assert keys[s] in Entries(keys, values, cb.notakey);
    }
  }

  lemma AbsentIsNew(cb: KeyCallback, keys: seq<Pointer>, key: Pointer, retained: Pointer)
    requires cb.Valid() && cb.IsEqual(key, retained) && !Stores(cb, keys, key)
    requires retained != cb.notakey
    ensures !Stores(cb, keys, retained) && retained !in keys
  {
    assert !Stores(cb, keys, retained);
    forall s | 0 <= s < |keys| ensures keys[s] != retained {
      assert cb.IsEqual(retained, retained);
    }
  }

  lemma EqualIsSameSlot(cb: KeyCallback, keys: seq<Pointer>, key: Pointer, i: nat)
    requires cb.Valid() && Unique(cb, keys) && i < |keys|
    requires key != cb.notakey && keys[i] != cb.notakey && cb.IsEqual(key, keys[i])
    ensures key == keys[i] || key !in keys
  {
    assert forall s :: 0 <= s < |keys| && s != i && keys[s] != cb.notakey ==> !cb.IsEqual(keys[s], keys[i]);
  }

  /** A table that stores the map `m` and refers to `heldKeys` and `heldValues`. */
  ghost predicate Stored(cb: KeyCallback, keys: seq<Pointer>, values: seq<Pointer>,
                         m: map<Pointer, Pointer>,
                         heldKeys: multiset<Pointer>, heldValues: multiset<Pointer>)
  {
    && Table(cb, keys)
    && Holds(keys, values, cb.notakey, m, heldKeys, heldValues)
  }

  lemma StoredReplace(cb: KeyCallback, keys: seq<Pointer>, values: seq<Pointer>, i: nat, pair: Pair,
                      m: map<Pointer, Pointer>, heldKeys: multiset<Pointer>, heldValues: multiset<Pointer>)
    requires cb.Valid() && Stored(cb, keys, values, m, heldKeys, heldValues)
    requires i < |keys| && keys[i] != cb.notakey
    requires pair.key != cb.notakey && cb.IsEqual(pair.key, keys[i])
    ensures keys[i] in heldKeys && values[i] in heldValues
    ensures Stored(cb, keys[i := pair.key], values[i := pair.value],
                   (m - {keys[i]})[pair.key := pair.value],
                   heldKeys + multiset{pair.key} - multiset{keys[i]},
                   heldValues + multiset{pair.value} - multiset{values[i]})
    ensures |heldKeys + multiset{pair.key} - multiset{keys[i]}| == |heldKeys|
  {
    ReplaceKeepsTable(cb, keys, pair.key, i);
    EqualIsSameSlot(cb, keys, pair.key, i);
    ReplaceHolds(keys, values, cb.notakey, i, pair.key, pair.value, m, heldKeys, heldValues);
    SwapOrder(heldKeys, keys[i], pair.key);
    SwapOrder(heldValues, values[i], pair.value);
  }

  lemma SwapOrder(held: multiset<Pointer>, released: Pointer, retained: Pointer)
    requires released in held
    ensures held - multiset{released} + multiset{retained} == held + multiset{retained} - multiset{released}
    ensures |held + multiset{retained} - multiset{released}| == |held|
  {
  }

  lemma StoredPlace(cb: KeyCallback, keys: seq<Pointer>, values: seq<Pointer>, i: nat,
                    key: Pointer, pair: Pair,
                    m: map<Pointer, Pointer>, heldKeys: multiset<Pointer>, heldValues: multiset<Pointer>)
    requires cb.Valid() && Stored(cb, keys, values, m, heldKeys, heldValues)
    requires i < |keys| && keys[i] == cb.notakey
    requires pair.key != cb.notakey && cb.IsEqual(key, pair.key) && !Stores(cb, keys, key)
    requires PathFull(cb, keys, key, i)
    ensures Stored(cb, keys[i := pair.key], values[i := pair.value], m[pair.key := pair.value],
                   heldKeys + multiset{pair.key}, heldValues + multiset{pair.value})
  {
    AbsentIsNew(cb, keys, key, pair.key);
    assert cb.Home(key, |keys|) == cb.Home(pair.key, |keys|);
    PlaceKeepsTable(cb, keys, pair.key, i);
    PutHolds(keys, values, cb.notakey, i, pair.key, pair.value, m, heldKeys, heldValues);
  }

  // ----- storage level routines -----

  method AllocateStorage(n: nat, notakey: Pointer) returns (buf: array<Pointer>)
    requires n >= 2
    ensures fresh(buf) && buf.Length == 2 * n
    ensures forall s :: 0 <= s < n ==> buf[s] == notakey
  {
    if notakey == NULL {
      buf := new Pointer[2 * n](_ => NULL);
      return;
    }
    buf := new Pointer[2 * n];
    var p := 0;
    while p < n
      invariant 0 <= p <= n
      invariant forall s :: 0 <= s < p ==> buf[s] == notakey
    {
      buf[p] := notakey;
      p := p + 1;
    }
  }

  /** Store a pair in the first hole at or after slot `start`. */
  method StoreKeyValue(storage: array<Pointer>, size: nat, start: nat,
                       key: Pointer, value: Pointer, notakey: Pointer)
    returns (ghost slot: nat)
    requires size >= 2 && storage.Length == 2 * size && start < size
    requires notakey in storage[..size]
    modifies storage
    ensures slot < size && old(storage[slot]) == notakey
    ensures forall j :: 0 <= j < size && Dist(start, j, size) < Dist(start, slot, size) ==>
                          old(storage[j]) != notakey
    ensures storage[..size] == old(storage[..size])[slot := key]
    ensures storage[size..] == old(storage[size..])[slot := value]
  {
    ghost var keys, values := storage[..size], storage[size..];
    ghost var w: nat :| w < size && keys[w] == notakey;
    var i: nat := start;
    while storage[i] != notakey
      invariant i < size && Dist(start, i, size) <= Dist(start, w, size)
      invariant forall j :: 0 <= j < size && Dist(start, j, size) < Dist(start, i, size) ==>
                              storage[j] != notakey
      decreases Dist(start, w, size) - Dist(start, i, size)
    {
      assert i != w;
      i := i + 1;
      if i < size {
        continue;
      }
      i := 0;
    }
    storage[i] := key;
    storage[i + size] := value;
    slot := i;
    assert storage[..size] == keys[i := key];
    assert storage[size..] == values[i := value];
  }

  /** The probe that all operations share: from the home slot to an equal key or a hole.
      `misses` counts the comparisons that failed. */
  method FindIndex(cb: KeyCallback, storage: array<Pointer>, size: nat, key: Pointer)
    returns (r: FindResult, ghost misses: nat)
    requires size >= 2 && IsPower(size) && storage.Length == 2 * size
    requires cb.notakey in storage[..size]
    ensures r.Found? ==>
              && r.index < size && storage[r.index] != cb.notakey
              && cb.IsEqual(key, storage[r.index])
              && Missed(cb, storage[..size], key, r.index)
    ensures r.NotFound? ==>
              && r.hole < size && storage[r.hole] == cb.notakey
              && Missed(cb, storage[..size], key, r.hole)
    ensures misses == Dist(cb.Home(key, size), if r.Found? then r.index else r.hole, size)
    ensures misses == LookupMisses(cb, storage[..size], key)
  {
    ghost var keys := storage[..size];
    ghost var w: nat :| w < size && keys[w] == cb.notakey;
    var home := cb.Home(key, size);
    assert Missed(cb, keys, key, home);
    hide And, IsPower, KeyCallback.Home, Missed, LookupMisses;
    var i: nat := home;
    var q := storage[i];
    misses := 0;
    while q != cb.notakey
      invariant i < size && q == storage[i]
      invariant misses == Dist(home, i, size) <= Dist(home, w, size)
      invariant Missed(cb, keys, key, i)
      decreases Dist(home, w, size) - Dist(home, i, size)
    {
      if cb.IsEqual(key, q) {
        ProbeMisses(cb, keys, key, i);
        return Found(i), misses;
      }
      assert i != w && q == keys[i];
      misses := misses + 1;
      MissStep(cb, keys, key, i, w);
      MaskStep(i, size);
      i := And(i + 1, size - 1);
      q := storage[i];
    }
    ProbeMisses(cb, keys, key, i);
    r := NotFound(i);
  }

  /** The probe of the lookups: pointer equality saves the call of `is_equal`. */
  method FindByHash(cb: KeyCallback, storage: array<Pointer>, size: nat, key: Pointer)
    returns (r: FindResult, ghost misses: nat)
    requires size >= 2 && IsPower(size) && storage.Length == 2 * size
    requires cb.notakey in storage[..size]
    ensures r.Found? ==>
              && r.index < size && storage[r.index] != cb.notakey
              && cb.IsEqual(key, storage[r.index])
              && Missed(cb, storage[..size], key, r.index)
    ensures r.NotFound? ==>
              && r.hole < size && storage[r.hole] == cb.notakey
              && Missed(cb, storage[..size], key, r.hole)
    ensures misses == Dist(cb.Home(key, size), if r.Found? then r.index else r.hole, size)
    ensures misses == LookupMisses(cb, storage[..size], key)
  {
    ghost var keys := storage[..size];
    ghost var w: nat :| w < size && keys[w] == cb.notakey;
    var home := cb.Home(key, size);
    assert Missed(cb, keys, key, home);
    hide And, IsPower, KeyCallback.Home, Missed, LookupMisses;
    var i: nat := home;
    misses := 0;
    while true
      invariant i < size && misses == Dist(home, i, size) <= Dist(home, w, size)
      invariant Missed(cb, keys, key, i)
      decreases Dist(home, w, size) - Dist(home, i, size)
    {
      var found := storage[i];
      if found == cb.notakey {
        ProbeMisses(cb, keys, key, i);
        return NotFound(i), misses;
      }
      if key == found {
        break;
      }
      if cb.IsEqual(found, key) {
        break;
      }
      assert i != w && found == keys[i];
      misses := misses + 1;
      MissStep(cb, keys, key, i, w);
      MaskStep(i, size);
      i := And(i + 1, size - 1);
    }
    ProbeMisses(cb, keys, key, i);
    r := Found(i);
  }

  /** The first `p` slots of a table have been copied into another one. */
  ghost predicate Copied(cb: KeyCallback, keys: seq<Pointer>, values: seq<Pointer>, p: nat,
                         keys': seq<Pointer>, values': seq<Pointer>)
    requires p <= |keys| == |values|
  {
    && Table(cb, keys')
    && Holds(keys', values', cb.notakey, Entries(keys[..p], values[..p], cb.notakey),
             BagUpTo(keys, keys, cb.notakey, p), BagUpTo(keys, values, cb.notakey, p))
  }

  lemma CopyBegins(cb: KeyCallback, keys: seq<Pointer>, values: seq<Pointer>,
                   keys': seq<Pointer>, values': seq<Pointer>)
    requires |keys| == |values| && |keys'| == |values'| >= 2
    requires forall s :: 0 <= s < |keys'| ==> keys'[s] == cb.notakey
    ensures Copied(cb, keys, values, 0, keys', values')
  {
    EmptyTable(cb, keys');
    HolesHold(keys', values', cb.notakey);
  }

  lemma CopySkip(cb: KeyCallback, keys: seq<Pointer>, values: seq<Pointer>, p: nat,
                 keys': seq<Pointer>, values': seq<Pointer>)
    requires cb.Valid() && Unique(cb, keys) && p < |keys| == |values| && keys[p] == cb.notakey
    requires Copied(cb, keys, values, p, keys', values')
    ensures Copied(cb, keys, values, p + 1, keys', values')
  {
    TableDistinct(cb, keys);
    PrefixEntries(keys, values, cb.notakey, p);
  }

  lemma CopyStep(cb: KeyCallback, keys: seq<Pointer>, values: seq<Pointer>, p: nat,
                 keys': seq<Pointer>, values': seq<Pointer>, slot: nat)
    requires cb.Valid() && Unique(cb, keys) && p < |keys| == |values| && keys[p] != cb.notakey
    requires Copied(cb, keys, values, p, keys', values')
    requires slot < |keys'| && keys'[slot] == cb.notakey && PathFull(cb, keys', keys[p], slot)
    requires !Stores(cb, keys', keys[p]) && keys[p] !in keys'
    ensures Copied(cb, keys, values, p + 1, keys'[slot := keys[p]], values'[slot := values[p]])
  {
    TableDistinct(cb, keys);
    PrefixEntries(keys, values, cb.notakey, p);
    PlaceKeepsTable(cb, keys', keys[p], slot);
    PutHolds(keys', values', cb.notakey, slot, keys[p], values[p], Entries(keys[..p], values[..p], cb.notakey),
             BagUpTo(keys, keys, cb.notakey, p), BagUpTo(keys, values, cb.notakey, p));
  }

  /** While copying, the target has a hole and does not store the next key. */
  lemma CopyHasRoom(cb: KeyCallback, keys: seq<Pointer>, values: seq<Pointer>, p: nat,
                    keys': seq<Pointer>, values': seq<Pointer>)
    requires cb.Valid() && Unique(cb, keys) && p < |keys| == |values| && keys[p] != cb.notakey
    requires Copied(cb, keys, values, p, keys', values')
    requires |Bag(keys, keys, cb.notakey)| < |keys'|
    ensures cb.notakey in keys'
    ensures !Stores(cb, keys', keys[p]) && keys[p] !in keys'
  {
    BagGrows(keys, cb.notakey, p, |keys|);
    HoldsSize(keys', values', cb.notakey, Entries(keys[..p], values[..p], cb.notakey),
              BagUpTo(keys, keys, cb.notakey, p), BagUpTo(keys, values, cb.notakey, p));
    forall s | 0 <= s < |keys'| && keys'[s] != cb.notakey ensures !cb.IsEqual(keys[p], keys'[s]) {
      assert keys'[s] in Entries(keys', values', cb.notakey);
      assert keys'[s] in keys[..p];
    }
    AbsentIsNew(cb, keys', keys[p], keys[p]);
  }

  lemma CopyEnds(cb: KeyCallback, keys: seq<Pointer>, values: seq<Pointer>,
                 keys': seq<Pointer>, values': seq<Pointer>)
    requires |keys| == |values| && Copied(cb, keys, values, |keys|, keys', values')
    ensures Table(cb, keys')
    ensures Holds(keys', values', cb.notakey, Entries(keys, values, cb.notakey),
                  Bag(keys, keys, cb.notakey), Bag(keys, values, cb.notakey))
  {
    assert keys[..|keys|] == keys && values[..|keys|] == values;
  }

  /** Move every pair of `src` into the empty table `dst`. */
  method CopyStorage(cb: KeyCallback, dst: array<Pointer>, dstSize: nat,
                     src: array<Pointer>, srcSize: nat)
    requires cb.Valid() && dst != src
    requires dstSize >= 2 && dst.Length == 2 * dstSize && src.Length == 2 * srcSize
    requires forall s :: 0 <= s < dstSize ==> dst[s] == cb.notakey
    requires Unique(cb, src[..srcSize])
    requires |Bag(src[..srcSize], src[..srcSize], cb.notakey)| < dstSize
    modifies dst
    ensures Table(cb, dst[..dstSize])
    ensures Holds(dst[..dstSize], dst[dstSize..], cb.notakey,
                  Entries(src[..srcSize], src[srcSize..], cb.notakey),
                  Bag(src[..srcSize], src[..srcSize], cb.notakey),
                  Bag(src[..srcSize], src[srcSize..], cb.notakey))
  {
    hide Copied, Table, Holds, Unique;
    ghost var keys, values := src[..srcSize], src[srcSize..];
    CopyBegins(cb, keys, values, dst[..dstSize], dst[dstSize..]);
    var p := 0;
    while p < srcSize
      invariant p <= srcSize && src[..srcSize] == keys && src[srcSize..] == values
      invariant Copied(cb, keys, values, p, dst[..dstSize], dst[dstSize..])
    {
      var key := src[p];
      ghost var keys', values' := dst[..dstSize], dst[dstSize..];
      if key != cb.notakey {
        CopyHasRoom(cb, keys, values, p, keys', values');
        ghost var slot := StoreKeyValue(dst, dstSize, cb.Home(key, dstSize), key, src[p + srcSize], cb.notakey);
        assert PathFull(cb, keys', key, slot);
        CopyStep(cb, keys, values, p, keys', values', slot);
      } else {
        CopySkip(cb, keys, values, p, keys', values');
      }
      p := p + 1;
    }
    CopyEnds(cb, keys, values, dst[..dstSize], dst[dstSize..]);
  }

  /** A table with a gap at `dst`, scanned up to `i`, that stores `m`. */
  ghost predicate Gap(cb: KeyCallback, keys: seq<Pointer>, values: seq<Pointer>, dst: nat, i: nat,
                      m: map<Pointer, Pointer>,
                      heldKeys: multiset<Pointer>, heldValues: multiset<Pointer>)
  {
    && |keys| >= 2 && dst < |keys| && i < |keys|
    && Shifting(cb, keys, dst, i)
    && Holds(keys, values, cb.notakey, m, heldKeys, heldValues)
  }

  lemma GapMoves(cb: KeyCallback, keys: seq<Pointer>, values: seq<Pointer>, dst: nat, i: nat,
                 m: map<Pointer, Pointer>,
                 heldKeys: multiset<Pointer>, heldValues: multiset<Pointer>)
    requires Gap(cb, keys, values, dst, i, m, heldKeys, heldValues)
    requires Next(i, |keys|) != dst && keys[Next(i, |keys|)] != cb.notakey
    requires !Stays(cb.Home(keys[Next(i, |keys|)], |keys|), dst, Next(i, |keys|))
    ensures var i' := Next(i, |keys|);
            Gap(cb, keys[dst := keys[i']][i' := cb.notakey], values[dst := values[i']], i', i',
                m, heldKeys, heldValues)
  {
    ShiftMove(cb, keys, dst, i);
    MoveHolds(keys, values, cb.notakey, dst, Next(i, |keys|), m, heldKeys, heldValues);
  }

  /** Write one slot: its key and its value. */
  method SetSlot(storage: array<Pointer>, size: nat, i: nat, key: Pointer, value: Pointer)
    requires storage.Length == 2 * size && i < size
    modifies storage
    ensures storage[..size] == old(storage[..size])[i := key]
    ensures storage[size..] == old(storage[size..])[i := value]
  {
    storage[i] := key;
    storage[i + size] := value;
  }

  /** Close the gap at `start`, whose entry is gone, by shifting later entries back. */
  method ShiftBack(cb: KeyCallback, storage: array<Pointer>, size: nat, start: nat,
                   ghost m: map<Pointer, Pointer>,
                   ghost heldKeys: multiset<Pointer>, ghost heldValues: multiset<Pointer>)
    requires size >= 2 && IsPower(size) && storage.Length == 2 * size && start < size
    requires Table(cb, storage[..size])
    requires storage[start] != cb.notakey && cb.notakey in storage[..size]
    requires Holds(storage[..size][start := cb.notakey], storage[size..], cb.notakey, m, heldKeys, heldValues)
    modifies storage
    ensures Table(cb, storage[..size])
    ensures Holds(storage[..size], storage[size..], cb.notakey, m, heldKeys, heldValues)
  {
    hide Table, Holds, Shifting, Stays, KeyCallback.Home, And, IsPower;
    var i: nat, dst: nat := start, start;
    // a lookup sees the table with the gap at `dst` taken for a hole
    ghost var keys, values := storage[..size], storage[size..];
    ghost var w: nat :| w < size && keys[w] == cb.notakey;
    ShiftStart(cb, keys, start);
    while true
      invariant i < size && dst < size && storage[..size] == keys && storage[size..] == values
      invariant keys[dst] != cb.notakey && keys[w] == cb.notakey
      invariant Gap(cb, keys[dst := cb.notakey], values, dst, i, m, heldKeys, heldValues)
      invariant Dist(dst, i, size) < Dist(dst, w, size)
      decreases Dist(i, w, size)
    {
      ghost var gap := keys[dst := cb.notakey];
      MaskStep(i, size);
      ghost var i0 := i;
      i := And(i + 1, size - 1);
      StepAhead(dst, i0, w, size);
      assert i == Next(i0, size) && storage[i] == keys[i] == gap[i];
      if storage[i] == cb.notakey {
        ShiftEnd(cb, gap, dst, i0);
        HoleHolds(gap, values, cb.notakey, dst, NULL, m, heldKeys, heldValues);
        SetSlot(storage, size, dst, storage[i], NULL);
        return;
      }
      if Stays(cb.Home(storage[i], size), dst, i) {
        ShiftStay(cb, gap, dst, i0);
        continue;
      }
      GapMoves(cb, gap, values, dst, i0, m, heldKeys, heldValues);
      GapFollows(keys, dst, i, cb.notakey);
      SetSlot(storage, size, dst, storage[i], storage[i + size]);
      keys, values := keys[dst := keys[i]], values[dst := values[i]];
      dst := i;
    }
  }

  /** A scan that has not reached the hole `w` takes one more step towards it. */
  lemma StepAhead(dst: nat, i: nat, w: nat, n: nat)
    requires dst < n && i < n && w < n && Dist(dst, i, n) < Dist(dst, w, n)
    ensures Next(i, n) != dst && Dist(dst, Next(i, n), n) == Dist(dst, i, n) + 1
    ensures Dist(Next(i, n), w, n) < Dist(i, w, n)
    ensures Next(i, n) != w ==> Dist(dst, Next(i, n), n) < Dist(dst, w, n)
    ensures Next(i, n) != w ==> Dist(Next(i, n), Next(i, n), n) < Dist(Next(i, n), w, n)
  {
  }

  lemma GapFollows(raw: seq<Pointer>, dst: nat, i: nat, notakey: Pointer)
    requires dst < |raw| && i < |raw| && dst != i
    ensures raw[dst := raw[i]][i := notakey]
            == raw[dst := notakey][dst := raw[dst := notakey][i]][i := notakey]
  {
  }
}
