/** The mathematical map that a pointer map stands for, and what its operations do to it.
    A key is looked up through the callback's equality, so the entry of a key is the one
    stored under any key equal to it. */
module MapModel {
  import opened Pointers
  import opened ProbeTable

  datatype Option<+T> = None | Some(value: T)

  datatype Mode = Insert | Overwrite | Update

  /** Keys are unique under the callback's equality and none is the hole marker. */
  ghost predicate Keyed(cb: KeyCallback, m: map<Pointer, Pointer>) {
    && cb.notakey !in m
    && forall a, b :: a in m && b in m && a != b ==> !cb.IsEqual(a, b)
  }

  /** The entry for `key`, with the key pointer that is actually stored. */
  ghost function Entry(cb: KeyCallback, m: map<Pointer, Pointer>, key: Pointer): Option<Pair> {
    if exists s :: s in m && cb.IsEqual(key, s) then
      var s :| s in m && cb.IsEqual(key, s);
      Some(Pair(s, m[s]))
    else None
  }

  lemma EntryIs(cb: KeyCallback, m: map<Pointer, Pointer>, key: Pointer, s: Pointer)
    requires cb.Valid() && Keyed(cb, m) && s in m && cb.IsEqual(key, s)
    ensures Entry(cb, m, key) == Some(Pair(s, m[s]))
  {
    var t :| t in m && cb.IsEqual(key, t) && Entry(cb, m, key) == Some(Pair(t, m[t]));
    assert cb.IsEqual(s, key) && cb.IsEqual(s, t);
  }

  // ----- one entry: what a write or a removal does to the entry of its own key -----

  /** `retained` is what the retain callbacks returned for the pair. */
  ghost function WriteEntry(mode: Mode, old_: Option<Pair>, pair: Pair, retained: Pair): Option<Pair> {
    if old_ == None then Some(retained)
    else if mode == Insert || old_ == Some(pair) then old_
    else Some(retained)
  }

  /** What a write returns. */
  ghost function WriteResult(mode: Mode, old_: Option<Pair>, pair: Pair): Pointer {
    if old_ == None then NULL
    else if mode == Insert then old_.value.value
    else if old_ == Some(pair) then NULL
    else if mode == Update then old_.value.value
    else NULL
  }

  /** The calls of the retain and release callbacks, in their order. */
  datatype Call = Retain(pair: Pair) | Release(pair: Pair)

  /** The callbacks that a write calls: a replaced pair is released only after the new one
      has been retained. */
  ghost function WriteCalls(mode: Mode, old_: Option<Pair>, pair: Pair, retained: Pair): seq<Call> {
    if old_ == None then [Retain(retained)]
    else if mode == Insert || old_ == Some(pair) then []
    else [Retain(retained), Release(old_.value)]
  }

  /** The keys that the calls have retained, or those that they have released. */
  ghost function KeysOf(calls: seq<Call>, retained: bool): multiset<Pointer> {
    if |calls| == 0 then multiset{}
    else
      var c := calls[|calls| - 1];
      KeysOf(calls[..|calls| - 1], retained) + if c.Retain? == retained then multiset{c.pair.key} else multiset{}
  }

  /** The same for the values. */
  ghost function ValuesOf(calls: seq<Call>, retained: bool): multiset<Pointer> {
    if |calls| == 0 then multiset{}
    else
      var c := calls[|calls| - 1];
      ValuesOf(calls[..|calls| - 1], retained) + if c.Retain? == retained then multiset{c.pair.value} else multiset{}
  }

  /** What is held and what has been released make up what has been retained. */
  ghost predicate Balanced(calls: seq<Call>, heldKeys: multiset<Pointer>, heldValues: multiset<Pointer>) {
    && heldKeys + KeysOf(calls, false) == KeysOf(calls, true)
    && heldValues + ValuesOf(calls, false) == ValuesOf(calls, true)
  }

  lemma BalanceBegins()
    ensures Balanced([], multiset{}, multiset{})
  {
  }

  lemma BalanceRetain(calls: seq<Call>, heldKeys: multiset<Pointer>, heldValues: multiset<Pointer>, p: Pair)
    requires Balanced(calls, heldKeys, heldValues)
    ensures Balanced(calls + [Retain(p)], heldKeys + multiset{p.key}, heldValues + multiset{p.value})
  {
    assert (calls + [Retain(p)])[..|calls|] == calls;
  }

  lemma BalanceRelease(calls: seq<Call>, heldKeys: multiset<Pointer>, heldValues: multiset<Pointer>, p: Pair)
    requires Balanced(calls, heldKeys, heldValues) && p.key in heldKeys && p.value in heldValues
    ensures Balanced(calls + [Release(p)], heldKeys - multiset{p.key}, heldValues - multiset{p.value})
  {
    assert (calls + [Release(p)])[..|calls|] == calls;
  }

  /** The release of every pair. */
  ghost function Releases(items: seq<Pair>): seq<Call> {
    if |items| == 0 then [] else [Release(items[0])] + Releases(items[1..])
  }

  lemma {:induction false} ReleasesAre(items: seq<Pair>)
    ensures |Releases(items)| == |items|
    ensures forall i :: 0 <= i < |items| ==> Releases(items)[i] == Release(items[i])
  {
    if |items| == 0 {
    } else {
      ReleasesAre(items[1..]);
    }
  }

  lemma HeadReleases(before: seq<Call>, items: seq<Pair>)
    ensures items == [] ==> before + Releases(items) == before
    ensures items != [] ==> before + Releases(items) == before + [Release(items[0])] + Releases(items[1..])
  {
  }

  /** What a lookup returns: the value, or NULL when there is no entry. */
  ghost function ValueOf(e: Option<Pair>): Pointer {
    if e == None then NULL else e.value.value
  }

  // ----- whole maps -----

  ghost function Without(m: map<Pointer, Pointer>, e: Option<Pair>): map<Pointer, Pointer> {
    if e == None then m else m - {e.value.key}
  }

  ghost function With(m: map<Pointer, Pointer>, e: Option<Pair>): map<Pointer, Pointer> {
    if e == None then m else m[e.value.key := e.value.value]
  }

  ghost function WriteMap(cb: KeyCallback, m: map<Pointer, Pointer>, mode: Mode,
                          pair: Pair, retained: Pair): map<Pointer, Pointer>
  {
    var e := Entry(cb, m, pair.key);
    With(Without(m, e), WriteEntry(mode, e, pair, retained))
  }

  ghost function RemoveMap(cb: KeyCallback, m: map<Pointer, Pointer>, key: Pointer)
    : map<Pointer, Pointer>
  {
    Without(m, Entry(cb, m, key))
  }

  /** The cases of a write, spelled out. */
  lemma WriteMapCases(cb: KeyCallback, m: map<Pointer, Pointer>, mode: Mode, pair: Pair, retained: Pair)
    requires cb.Valid() && Keyed(cb, m)
    ensures var e := Entry(cb, m, pair.key);
            WriteMap(cb, m, mode, pair, retained)
            == if e == None then m[retained.key := retained.value]
               else if mode == Insert || e == Some(pair) then m
               else (m - {e.value.key})[retained.key := retained.value]
  {
    EntrySpec(cb, m, pair.key);
  }

  // ----- update -----

  /** What the documentation says of an update: it returns the old value of a key that is
      there, and otherwise it does nothing and returns NULL. */
  ghost predicate UpdateAsDocumented(cb: KeyCallback, m: map<Pointer, Pointer>, pair: Pair,
                                     m': map<Pointer, Pointer>, r: Pointer)
  {
    var e := Entry(cb, m, pair.key);
    if e == None then m' == m && r == NULL else r == e.value.value
  }

  /** The key is there, and it is not the case that the very pair is stored with a value. */
  ghost predicate UpdateKeepsPromise(cb: KeyCallback, m: map<Pointer, Pointer>, pair: Pair) {
    var e := Entry(cb, m, pair.key);
    e != None && (e != Some(pair) || pair.value == NULL)
  }

  /** An update does what is documented exactly under that condition: it inserts an absent
      key, and it answers NULL when the very pair is stored already. */
  lemma UpdateAsDocumentedIff(cb: KeyCallback, m: map<Pointer, Pointer>, pair: Pair, retained: Pair)
    requires cb.Valid() && Keyed(cb, m) && Storable(cb, pair, retained)
    ensures UpdateAsDocumented(cb, m, pair, WriteMap(cb, m, Update, pair, retained),
                               WriteResult(Update, Entry(cb, m, pair.key), pair))
            <==> UpdateKeepsPromise(cb, m, pair)
  {
    EntrySpec(cb, m, pair.key);
    WriteMapCases(cb, m, Update, pair, retained);
    if Entry(cb, m, pair.key) == None {
      assert retained.key !in m;
      assert retained.key in m[retained.key := retained.value];
    }
  }

  /** The two ways to fail: an update of an absent key, and one that writes what is there. */
  lemma UpdateCanBreakPromise(cb: KeyCallback, pair: Pair)
    requires cb.Valid() && pair.key != cb.notakey && pair.value != NULL
    ensures !UpdateAsDocumented(cb, map[], pair, WriteMap(cb, map[], Update, pair, pair), NULL)
    ensures var m := map[pair.key := pair.value];
            && Entry(cb, m, pair.key) == Some(pair)
            && WriteResult(Update, Entry(cb, m, pair.key), pair) == NULL
  {
    UpdateAsDocumentedIff(cb, map[], pair, pair);
    EntryIs(cb, map[pair.key := pair.value], pair.key, pair.key);
  }

  // ----- runs -----

  datatype Op =
    | Write(mode: Mode, pair: Pair, retained: Pair)
    | Remove(key: Pointer)
    | Get(key: Pointer)
    | ShrinkIfNeeded
    | Reset

  /** What the source asks of a write: a storable key, and a retain that keeps it equal. */
  ghost predicate Storable(cb: KeyCallback, pair: Pair, retained: Pair) {
    && pair.key != cb.notakey && retained.key != cb.notakey
    && cb.IsEqual(pair.key, retained.key)
  }

  ghost predicate LegalOp(cb: KeyCallback, op: Op) {
    op.Write? ==> Storable(cb, op.pair, op.retained)
  }

  ghost predicate Legal(cb: KeyCallback, ops: seq<Op>) {
    forall i :: 0 <= i < |ops| ==> LegalOp(cb, ops[i])
  }

  ghost function StepMap(cb: KeyCallback, m: map<Pointer, Pointer>, op: Op): map<Pointer, Pointer> {
    match op
    case Write(mode, pair, retained) => WriteMap(cb, m, mode, pair, retained)
    case Remove(key) => RemoveMap(cb, m, key)
    case Get(_) => m
    case ShrinkIfNeeded => m
    case Reset => map[]
  }

  ghost function RunMap(cb: KeyCallback, m: map<Pointer, Pointer>, ops: seq<Op>): map<Pointer, Pointer> {
    if |ops| == 0 then m
    else StepMap(cb, RunMap(cb, m, ops[..|ops| - 1]), ops[|ops| - 1])
  }

  /** What a lookup of a key answers; the hole marker is never found. */
  ghost function Lookup(cb: KeyCallback, m: map<Pointer, Pointer>, key: Pointer): Pointer {
    if key == cb.notakey then NULL else ValueOf(Entry(cb, m, key))
  }

  datatype Outcome = Returned(value: Pointer) | Removed(present: bool) | Done

  /** What writes, lookups and removals return. */
  ghost function Answer(cb: KeyCallback, m: map<Pointer, Pointer>, op: Op): Outcome {
    match op
    case Write(mode, pair, _) => Returned(WriteResult(mode, Entry(cb, m, pair.key), pair))
    case Get(key) => Returned(Lookup(cb, m, key))
    case Remove(key) => Removed(Entry(cb, m, key) != None)
    case _ => Done
  }

  /** The history of a single key: operations on unequal keys do not touch it. */
  ghost function StepEntry(cb: KeyCallback, key: Pointer, e: Option<Pair>, op: Op): Option<Pair> {
    match op
    case Write(mode, pair, retained) =>
      if cb.IsEqual(key, pair.key) then WriteEntry(mode, e, pair, retained) else e
    case Remove(k) => if cb.IsEqual(key, k) then None else e
    case Get(_) => e
    case ShrinkIfNeeded => e
    case Reset => None
  }

  ghost function RunEntry(cb: KeyCallback, key: Pointer, e: Option<Pair>, ops: seq<Op>): Option<Pair> {
    if |ops| == 0 then e
    else StepEntry(cb, key, RunEntry(cb, key, e, ops[..|ops| - 1]), ops[|ops| - 1])
  }

  lemma EntrySpec(cb: KeyCallback, m: map<Pointer, Pointer>, key: Pointer)
    requires cb.Valid() && Keyed(cb, m)
    ensures Entry(cb, m, key) == None <==> forall s :: s in m ==> !cb.IsEqual(key, s)
    ensures var e := Entry(cb, m, key);
            e != None ==> cb.IsEqual(key, e.value.key) && e.value.key in m && m[e.value.key] == e.value.value
  {
  }

  lemma EntryIsStored(cb: KeyCallback, m: map<Pointer, Pointer>, key: Pointer)
    requires cb.Valid() && Keyed(cb, m)
    ensures forall s :: s in m && cb.IsEqual(key, s) ==> Entry(cb, m, key) == Some(Pair(s, m[s]))
  {
    forall s | s in m && cb.IsEqual(key, s) ensures Entry(cb, m, key) == Some(Pair(s, m[s])) {
      EntryIs(cb, m, key, s);
    }
  }

  lemma SameEntry(cb: KeyCallback, m: map<Pointer, Pointer>, key: Pointer, key': Pointer)
    requires cb.Valid() && Keyed(cb, m) && cb.IsEqual(key, key')
    ensures Entry(cb, m, key) == Entry(cb, m, key')
  {
    EntrySpec(cb, m, key);
    EntrySpec(cb, m, key');
    if Entry(cb, m, key') != None {
      EntryIs(cb, m, key, Entry(cb, m, key').value.key);
    }
  }

  /** Replacing the entry of `pair.key` by `e'` changes that entry and no other. */
  lemma Rewrite(cb: KeyCallback, m: map<Pointer, Pointer>, key: Pointer, e': Option<Pair>, k: Pointer)
    requires cb.Valid() && Keyed(cb, m)
    requires e' != None ==> cb.IsEqual(key, e'.value.key) && e'.value.key != cb.notakey
    ensures var m' := With(Without(m, Entry(cb, m, key)), e');
            && Keyed(cb, m')
            && Entry(cb, m', k) == if cb.IsEqual(k, key) then e' else Entry(cb, m, k)
  {
    var e := Entry(cb, m, key);
    var m' := With(Without(m, e), e');
    EntrySpec(cb, m, key);
    assert Keyed(cb, m');
    EntrySpec(cb, m', k);
    if cb.IsEqual(k, key) {
      if e' != None {
        EntryIs(cb, m', k, e'.value.key);
      } else {
        SameEntry(cb, m, k, key);
        forall s | s in m' ensures !cb.IsEqual(k, s) {
          if e != None {
            assert !cb.IsEqual(s, e.value.key);
          }
        }
      }
    } else {
      EntrySpec(cb, m, k);
      var was := Entry(cb, m, k);
      if was != None {
        assert e != None ==> e.value.key != was.value.key;
        assert e' != None ==> e'.value.key != was.value.key;
        EntryIs(cb, m', k, was.value.key);
      }
    }
  }

  lemma StepIsPerKey(cb: KeyCallback, m: map<Pointer, Pointer>, op: Op, k: Pointer)
    requires cb.Valid() && Keyed(cb, m) && LegalOp(cb, op)
    ensures Keyed(cb, StepMap(cb, m, op))
    ensures Entry(cb, StepMap(cb, m, op), k) == StepEntry(cb, k, Entry(cb, m, k), op)
  {
    match op
    case Write(mode, pair, retained) =>
      EntrySpec(cb, m, pair.key);
      Rewrite(cb, m, pair.key, WriteEntry(mode, Entry(cb, m, pair.key), pair, retained), k);
      if cb.IsEqual(k, pair.key) {
        SameEntry(cb, m, k, pair.key);
      }
    case Remove(key) =>
      Rewrite(cb, m, key, None, k);
    case _ =>
  }

  /** A map is a family of independent entries: over every run, what is stored for a key is
      determined by the operations on that key alone. */
  lemma {:induction false} RunIsPerKey(cb: KeyCallback, m: map<Pointer, Pointer>, ops: seq<Op>, k: Pointer)
    requires cb.Valid() && Keyed(cb, m) && Legal(cb, ops)
    ensures Keyed(cb, RunMap(cb, m, ops))
    ensures Entry(cb, RunMap(cb, m, ops), k) == RunEntry(cb, k, Entry(cb, m, k), ops)
  {
    if |ops| == 0 {
    } else {
      var before := ops[..|ops| - 1];
      RunIsPerKey(cb, m, before, k);
      StepIsPerKey(cb, RunMap(cb, m, before), ops[|ops| - 1], k);
    }
  }

  /** With a value retain that returns its argument, a lookup after any run gives the value
      last written: later operations on the key are inserts, which do not count, and the
      write itself is not an insert of a key that was there. */
  lemma {:induction false} LastWriteWins(cb: KeyCallback, m: map<Pointer, Pointer>, ops: seq<Op>,
                                         at: nat, k: Pointer)
    requires cb.Valid() && Keyed(cb, m) && Legal(cb, ops) && at < |ops|
    requires ops[at].Write? && cb.IsEqual(k, ops[at].pair.key) && k != cb.notakey
    requires ops[at].retained.value == ops[at].pair.value
    requires ops[at].mode == Insert ==>
               forall s :: s in RunMap(cb, m, ops[..at]) ==> !cb.IsEqual(k, s)
    requires forall i :: at < i < |ops| ==>
                           && !ops[i].Reset?
                           && (ops[i].Remove? ==> !cb.IsEqual(k, ops[i].key))
                           && (ops[i].Write? && cb.IsEqual(k, ops[i].pair.key) ==> ops[i].mode == Insert)
    ensures Lookup(cb, RunMap(cb, m, ops), k) == ops[at].pair.value
    ensures exists s :: s in RunMap(cb, m, ops) && cb.IsEqual(k, s)
  {
    var before := ops[..|ops| - 1];
    RunIsPerKey(cb, m, before, k);
    EntrySpec(cb, RunMap(cb, m, before), k);
    StepIsPerKey(cb, RunMap(cb, m, before), ops[|ops| - 1], k);
    EntrySpec(cb, RunMap(cb, m, ops), k);
    if at == |ops| - 1 {
      assert before == ops[..at];
    } else {
      assert before[..at] == ops[..at];
      LastWriteWins(cb, m, before, at, k);
    }
  }

  /** After a removal of the key or a reset the key stays away until it is written. */
  lemma {:induction false} RemovedStaysAway(cb: KeyCallback, m: map<Pointer, Pointer>, ops: seq<Op>,
                                            at: nat, k: Pointer)
    requires cb.Valid() && Keyed(cb, m) && Legal(cb, ops) && at < |ops|
    requires ops[at].Reset? || (ops[at].Remove? && cb.IsEqual(k, ops[at].key))
    requires forall i :: at < i < |ops| && ops[i].Write? ==> !cb.IsEqual(k, ops[i].pair.key)
    ensures forall s :: s in RunMap(cb, m, ops) ==> !cb.IsEqual(k, s)
    ensures Lookup(cb, RunMap(cb, m, ops), k) == NULL
  {
    var before := ops[..|ops| - 1];
    RunIsPerKey(cb, m, before, k);
    EntrySpec(cb, RunMap(cb, m, before), k);
    StepIsPerKey(cb, RunMap(cb, m, before), ops[|ops| - 1], k);
    EntrySpec(cb, RunMap(cb, m, ops), k);
    if at == |ops| - 1 {
    } else {
      RemovedStaysAway(cb, m, before, at, k);
    }
  }

  /** What no operation concerns stays as it was. */
  lemma {:induction false} UntouchedStays(cb: KeyCallback, m: map<Pointer, Pointer>, ops: seq<Op>, k: Pointer)
    requires cb.Valid() && Keyed(cb, m) && Legal(cb, ops)
    requires forall i :: 0 <= i < |ops| ==>
                           && !ops[i].Reset?
                           && (ops[i].Remove? ==> !cb.IsEqual(k, ops[i].key))
                           && (ops[i].Write? ==> !cb.IsEqual(k, ops[i].pair.key))
    ensures Lookup(cb, RunMap(cb, m, ops), k) == Lookup(cb, m, k)
    ensures forall s :: cb.IsEqual(k, s) ==>
                          (s in RunMap(cb, m, ops) <==> s in m)
                          && (s in m ==> RunMap(cb, m, ops)[s] == m[s])
  {
    RunIsPerKey(cb, m, ops, k);
    if |ops| == 0 {
    } else {
      var before := ops[..|ops| - 1];
      UntouchedStays(cb, m, before, k);
      RunIsPerKey(cb, m, before, k);
      StepIsPerKey(cb, RunMap(cb, m, before), ops[|ops| - 1], k);
      SameEntryThere(cb, RunMap(cb, m, before), RunMap(cb, m, ops), k);
    }
  }

  lemma SameEntryThere(cb: KeyCallback, m: map<Pointer, Pointer>, m': map<Pointer, Pointer>, k: Pointer)
    requires cb.Valid() && Keyed(cb, m) && Keyed(cb, m') && Entry(cb, m, k) == Entry(cb, m', k)
    ensures forall s :: cb.IsEqual(k, s) ==> (s in m <==> s in m') && (s in m ==> m[s] == m'[s])
  {
    EntrySpec(cb, m, k);
    EntrySpec(cb, m', k);
    forall s | cb.IsEqual(k, s) ensures (s in m <==> s in m') && (s in m ==> m[s] == m'[s]) {
      if s in m {
        EntryIs(cb, m, k, s);
      }
      if s in m' {
        EntryIs(cb, m', k, s);
      }
    }
  }

  // ----- the operations in terms of the stored keys alone -----

  /** A lookup answers NULL for the hole marker and for a key that no stored key equals, and
      otherwise the value under the stored key that equals it. */
  lemma LookupIs(cb: KeyCallback, m: map<Pointer, Pointer>, key: Pointer)
    requires cb.Valid() && Keyed(cb, m)
    ensures key == cb.notakey ==> Lookup(cb, m, key) == NULL
    ensures (forall s :: s in m ==> !cb.IsEqual(key, s)) ==> Lookup(cb, m, key) == NULL
    ensures forall s :: s in m && cb.IsEqual(key, s) && key != cb.notakey ==> Lookup(cb, m, key) == m[s]
  {
    EntrySpec(cb, m, key);
    EntryIsStored(cb, m, key);
  }

  /** A write of a key that no stored key equals adds the retained pair, in every mode. */
  lemma WriteAbsent(cb: KeyCallback, m: map<Pointer, Pointer>, mode: Mode, pair: Pair, retained: Pair)
    requires cb.Valid() && Keyed(cb, m) && forall s :: s in m ==> !cb.IsEqual(pair.key, s)
    ensures Entry(cb, m, pair.key) == None
    ensures WriteMap(cb, m, mode, pair, retained) == m[retained.key := retained.value]
    ensures WriteResult(mode, Entry(cb, m, pair.key), pair) == NULL
    ensures WriteCalls(mode, Entry(cb, m, pair.key), pair, retained) == [Retain(retained)]
  {
    EntrySpec(cb, m, pair.key);
  }

  /** A write of a key that the stored key `s` equals: an insert changes nothing and answers
      the stored value; the very pair is left alone; any other pair takes its place, and
      only an update answers the old value. */
  lemma WritePresent(cb: KeyCallback, m: map<Pointer, Pointer>, mode: Mode, pair: Pair, retained: Pair, s: Pointer)
    requires cb.Valid() && Keyed(cb, m) && s in m && cb.IsEqual(pair.key, s)
    ensures Entry(cb, m, pair.key) == Some(Pair(s, m[s]))
    ensures WriteMap(cb, m, mode, pair, retained)
            == if mode == Insert || Pair(s, m[s]) == pair then m else (m - {s})[retained.key := retained.value]
    ensures WriteResult(mode, Entry(cb, m, pair.key), pair)
            == if mode == Insert || (mode == Update && Pair(s, m[s]) != pair) then m[s] else NULL
    ensures WriteCalls(mode, Entry(cb, m, pair.key), pair, retained)
            == if mode == Insert || Pair(s, m[s]) == pair then [] else [Retain(retained), Release(Pair(s, m[s]))]
  {
    EntryIs(cb, m, pair.key, s);
    WriteMapCases(cb, m, mode, pair, retained);
  }

  /** A removal takes out the stored key that equals the key, and nothing without one. */
  lemma RemoveIs(cb: KeyCallback, m: map<Pointer, Pointer>, key: Pointer)
    requires cb.Valid() && Keyed(cb, m)
    ensures (forall s :: s in m ==> !cb.IsEqual(key, s)) ==> RemoveMap(cb, m, key) == m
    ensures forall s :: s in m && cb.IsEqual(key, s) ==> RemoveMap(cb, m, key) == m - {s}
  {
    EntrySpec(cb, m, key);
    EntryIsStored(cb, m, key);
  }
}
