/** What a probe table stores: the pairs as a map, and the references it holds as bags. */
module TableContents {
  import opened Pointers
  import opened Sequences

  ghost predicate DistinctKeys(keys: seq<Pointer>, notakey: Pointer) {
    forall i, j :: 0 <= i < |keys| && 0 <= j < |keys| && i != j && keys[i] != notakey ==>
                     keys[i] != keys[j]
  }

  /** The stored pairs. */
  ghost function Entries(keys: seq<Pointer>, values: seq<Pointer>, notakey: Pointer)
    : (m: map<Pointer, Pointer>)
    requires |keys| == |values|
    ensures forall k :: k in m <==> k in keys && k != notakey
  {
    map k | k in keys && k != notakey :: values[IndexOf(keys, k)]
  }

  lemma EntryAt(keys: seq<Pointer>, values: seq<Pointer>, notakey: Pointer, i: nat)
    requires |keys| == |values| && DistinctKeys(keys, notakey)
    requires i < |keys| && keys[i] != notakey
    ensures keys[i] in Entries(keys, values, notakey)
    ensures Entries(keys, values, notakey)[keys[i]] == values[i]
  {
    assert IndexOf(keys, keys[i]) == i;
  }

  lemma PutEntry(keys: seq<Pointer>, values: seq<Pointer>, notakey: Pointer,
                 i: nat, key: Pointer, value: Pointer)
    requires |keys| == |values| && DistinctKeys(keys, notakey)
    requires i < |keys| && keys[i] == notakey && key != notakey && key !in keys
    ensures DistinctKeys(keys[i := key], notakey)
    ensures Entries(keys[i := key], values[i := value], notakey)
            == Entries(keys, values, notakey)[key := value]
  {
    var keys', values' := keys[i := key], values[i := value];
    var now := Entries(keys', values', notakey);
    var expected := Entries(keys, values, notakey)[key := value];
    forall k ensures k in now <==> k in expected {
      if k in expected && k != key {
        assert keys'[IndexOf(keys, k)] == k;
      }
      if k in now && k != key {
        assert keys[IndexOf(keys', k)] == k;
      }
      assert keys'[i] == key;
    }
    forall k | k in now ensures now[k] == expected[k] {
      var j := IndexOf(keys', k);
      EntryAt(keys', values', notakey, j);
      if k != key {
        EntryAt(keys, values, notakey, j);
      }
    }
  }

  lemma ClearEntry(keys: seq<Pointer>, values: seq<Pointer>, notakey: Pointer, i: nat)
    requires |keys| == |values| && DistinctKeys(keys, notakey)
    requires i < |keys| && keys[i] != notakey
    ensures DistinctKeys(keys[i := notakey], notakey) && keys[i] !in keys[i := notakey]
    ensures Entries(keys[i := notakey], values, notakey)
            == Entries(keys, values, notakey) - {keys[i]}
  {
    var keys' := keys[i := notakey];
    var now := Entries(keys', values, notakey);
    var expected := Entries(keys, values, notakey) - {keys[i]};
    forall k ensures k in now <==> k in expected {
      if k in expected {
        assert keys'[IndexOf(keys, k)] == k;
      }
      if k in now {
        assert keys[IndexOf(keys', k)] == k;
      }
    }
    forall k | k in now ensures now[k] == expected[k] {
      var j := IndexOf(keys', k);
      EntryAt(keys', values, notakey, j);
      EntryAt(keys, values, notakey, j);
    }
  }

  /** The pairs in the first `i + 1` slots. */
  lemma PrefixEntries(keys: seq<Pointer>, values: seq<Pointer>, notakey: Pointer, i: nat)
    requires |keys| == |values| && DistinctKeys(keys, notakey) && i < |keys|
    ensures Entries(keys[..i + 1], values[..i + 1], notakey)
            == if keys[i] == notakey then Entries(keys[..i], values[..i], notakey)
               else Entries(keys[..i], values[..i], notakey)[keys[i] := values[i]]
  {
    var keys', values' := keys[..i + 1], values[..i + 1];
    var now := Entries(keys', values', notakey);
    assert keys' == keys[..i] + [keys[i]];
    forall k | k in now && (keys[i] == notakey || k != keys[i])
      ensures k in keys[..i] && now[k] == Entries(keys[..i], values[..i], notakey)[k]
    {
      var j := IndexOf(keys', k);
      assert keys[..i][j] == k;
      EntryAt(keys', values', notakey, j);
      EntryAt(keys[..i], values[..i], notakey, j);
    }
    if keys[i] != notakey {
      EntryAt(keys', values', notakey, i);
    }
  }

  // ----- bags -----

  /** What one slot contributes. */
  ghost function Slot(key: Pointer, x: Pointer, notakey: Pointer): multiset<Pointer> {
    if key == notakey then multiset{} else multiset{x}
  }

  /** The elements among the first `n` of `xs` whose slot holds a key. */
  ghost function BagUpTo(keys: seq<Pointer>, xs: seq<Pointer>, notakey: Pointer, n: nat)
    : multiset<Pointer>
    requires n <= |keys| == |xs|
  {
    if n == 0 then multiset{}
    else BagUpTo(keys, xs, notakey, n - 1) + Slot(keys[n - 1], xs[n - 1], notakey)
  }

  ghost function Bag(keys: seq<Pointer>, xs: seq<Pointer>, notakey: Pointer): multiset<Pointer>
    requires |keys| == |xs|
  {
    BagUpTo(keys, xs, notakey, |keys|)
  }

  lemma {:induction false} BagUpdateUpTo(keys: seq<Pointer>, xs: seq<Pointer>, notakey: Pointer,
                                         i: nat, key: Pointer, x: Pointer, n: nat)
    requires n <= |keys| == |xs| && i < |keys|
    ensures n <= i ==> BagUpTo(keys[i := key], xs[i := x], notakey, n) == BagUpTo(keys, xs, notakey, n)
    ensures n > i ==>
              BagUpTo(keys[i := key], xs[i := x], notakey, n) + Slot(keys[i], xs[i], notakey)
              == BagUpTo(keys, xs, notakey, n) + Slot(key, x, notakey)
  {
    hide Slot;
    var keys', xs' := keys[i := key], xs[i := x];
    if n == 0 {
    } else {
      BagUpdateUpTo(keys, xs, notakey, i, key, x, n - 1);
      var rest, rest' := BagUpTo(keys, xs, notakey, n - 1), BagUpTo(keys', xs', notakey, n - 1);
      var last := Slot(keys[n - 1], xs[n - 1], notakey);
      assert BagUpTo(keys, xs, notakey, n) == rest + last;
      if n - 1 == i {
        Exchange(rest, Slot(key, x, notakey), last);
      } else {
        assert BagUpTo(keys', xs', notakey, n) == rest' + last;
        if n > i {
          AddBoth(rest', Slot(keys[i], xs[i], notakey), rest, Slot(key, x, notakey), last);
        }
      }
    }
  }

  lemma AddBoth(a: multiset<Pointer>, b: multiset<Pointer>, c: multiset<Pointer>,
                d: multiset<Pointer>, e: multiset<Pointer>)
    requires a + b == c + d
    ensures a + e + b == c + e + d
  {
    assert a + e + b == a + b + e;
  }

  lemma Exchange(a: multiset<Pointer>, b: multiset<Pointer>, c: multiset<Pointer>)
    ensures a + b + c == a + c + b
  {
  }

  /** Writing one slot exchanges what that slot contributes. */
  lemma BagUpdate(keys: seq<Pointer>, xs: seq<Pointer>, notakey: Pointer,
                  i: nat, key: Pointer, x: Pointer)
    requires |keys| == |xs| && i < |keys|
    ensures Bag(keys[i := key], xs[i := x], notakey) + Slot(keys[i], xs[i], notakey)
            == Bag(keys, xs, notakey) + Slot(key, x, notakey)
  {
    BagUpdateUpTo(keys, xs, notakey, i, key, x, |keys|);
  }

  lemma {:induction false} BagOfHoles(keys: seq<Pointer>, xs: seq<Pointer>, notakey: Pointer, n: nat)
    requires n <= |keys| == |xs| && forall s :: 0 <= s < n ==> keys[s] == notakey
    ensures BagUpTo(keys, xs, notakey, n) == multiset{}
  {
    if n == 0 {
    } else {
      BagOfHoles(keys, xs, notakey, n - 1);
    }
  }

  /** The bags of keys and of values have the same size. */
  lemma {:induction false} BagSize(keys: seq<Pointer>, xs: seq<Pointer>, ys: seq<Pointer>,
                                   notakey: Pointer, n: nat)
    requires n <= |keys| == |xs| == |ys|
    ensures |BagUpTo(keys, xs, notakey, n)| == |BagUpTo(keys, ys, notakey, n)| <= n
  {
    if n == 0 {
    } else {
      BagSize(keys, xs, ys, notakey, n - 1);
    }
  }

  lemma {:induction false} BagGrows(keys: seq<Pointer>, notakey: Pointer, i: nat, n: nat)
    requires i <= n <= |keys|
    ensures |BagUpTo(keys, keys, notakey, i)| <= |BagUpTo(keys, keys, notakey, n)|
  {
    if i == n {
    } else {
      BagGrows(keys, notakey, i, n - 1);
    }
  }

  /** Fewer keys than slots leave a hole. */
  lemma {:induction false} RoomIsHole(keys: seq<Pointer>, notakey: Pointer, n: nat)
    requires n <= |keys| && |BagUpTo(keys, keys, notakey, n)| < n
    ensures notakey in keys
  {
    if keys[n - 1] == notakey {
    } else {
      RoomIsHole(keys, notakey, n - 1);
    }
  }

  lemma BagOfSetWith(s: set<Pointer>, k: Pointer)
    requires k !in s
    ensures multiset(s + {k}) == multiset(s) + multiset{k}
  {
  }

  ghost function KeysUpTo(keys: seq<Pointer>, notakey: Pointer, n: nat): set<Pointer>
    requires n <= |keys|
  {
    set i | 0 <= i < n && keys[i] != notakey :: keys[i]
  }

  lemma KeysStep(keys: seq<Pointer>, notakey: Pointer, n: nat)
    requires 0 < n <= |keys| && DistinctKeys(keys, notakey)
    ensures keys[n - 1] == notakey ==> KeysUpTo(keys, notakey, n) == KeysUpTo(keys, notakey, n - 1)
    ensures keys[n - 1] != notakey ==>
              && keys[n - 1] !in KeysUpTo(keys, notakey, n - 1)
              && KeysUpTo(keys, notakey, n) == KeysUpTo(keys, notakey, n - 1) + {keys[n - 1]}
  {
  }

  lemma {:induction false} KeyBagUpTo(keys: seq<Pointer>, notakey: Pointer, n: nat)
    requires n <= |keys| && DistinctKeys(keys, notakey)
    ensures multiset(KeysUpTo(keys, notakey, n)) == BagUpTo(keys, keys, notakey, n)
  {
    if n == 0 {
      assert KeysUpTo(keys, notakey, n) == {};
    } else {
      KeyBagUpTo(keys, notakey, n - 1);
      KeysStep(keys, notakey, n);
      if keys[n - 1] != notakey {
        BagOfSetWith(KeysUpTo(keys, notakey, n - 1), keys[n - 1]);
      }
    }
  }

  /** The keys of the map are the bag of keys, and their number is the occupied slots. */
  lemma EntriesCount(keys: seq<Pointer>, values: seq<Pointer>, notakey: Pointer)
    requires |keys| == |values| && DistinctKeys(keys, notakey)
    ensures multiset(Entries(keys, values, notakey).Keys) == Bag(keys, keys, notakey)
    ensures |Entries(keys, values, notakey)| == |Bag(keys, keys, notakey)|
  {
    var m := Entries(keys, values, notakey);
    KeyBagUpTo(keys, notakey, |keys|);
    assert m.Keys == KeysUpTo(keys, notakey, |keys|);
    assert |m| == |m.Keys|;
  }

  lemma TakeOut(a: multiset<Pointer>, b: multiset<Pointer>, x: Pointer)
    requires a + multiset{x} == b
    ensures a == b - multiset{x} && x in b && b - multiset{x} + multiset{x} == b
  {
    assert b[x] == a[x] + 1;
  }

  /** Emptying a slot takes its element out of the bag. */
  lemma BagClear(keys: seq<Pointer>, xs: seq<Pointer>, notakey: Pointer, i: nat, x: Pointer)
    requires |keys| == |xs| && i < |keys| && keys[i] != notakey
    ensures Bag(keys[i := notakey], xs[i := x], notakey) == Bag(keys, xs, notakey) - multiset{xs[i]}
    ensures xs[i] in Bag(keys, xs, notakey)
  {
    BagUpdate(keys, xs, notakey, i, notakey, x);
    var b := Bag(keys, xs, notakey);
    assert b + Slot(notakey, x, notakey) == b;
    TakeOut(Bag(keys[i := notakey], xs[i := x], notakey), b, xs[i]);
  }

  lemma BagOverHole(keys: seq<Pointer>, xs: seq<Pointer>, notakey: Pointer, i: nat, x: Pointer)
    requires |keys| == |xs| && i < |keys| && keys[i] == notakey
    ensures Bag(keys, xs[i := x], notakey) == Bag(keys, xs, notakey)
  {
    BagUpdate(keys, xs, notakey, i, notakey, x);
    assert keys[i := notakey] == keys;
    var a, b := Bag(keys, xs[i := x], notakey), Bag(keys, xs, notakey);
    assert a + multiset{} == a && b + multiset{} == b;
  }

  // ----- all three views at once -----

  /** The table stores the map `m` and refers to `heldKeys` and `heldValues`. */
  ghost predicate Holds(keys: seq<Pointer>, values: seq<Pointer>, notakey: Pointer,
                        m: map<Pointer, Pointer>,
                        heldKeys: multiset<Pointer>, heldValues: multiset<Pointer>)
  {
    && |keys| == |values|
    && DistinctKeys(keys, notakey)
    && Entries(keys, values, notakey) == m
    && Bag(keys, keys, notakey) == heldKeys
    && Bag(keys, values, notakey) == heldValues
  }

  lemma HoldsEntries(keys: seq<Pointer>, values: seq<Pointer>, notakey: Pointer,
                     m: map<Pointer, Pointer>,
                     heldKeys: multiset<Pointer>, heldValues: multiset<Pointer>)
    requires Holds(keys, values, notakey, m, heldKeys, heldValues)
    ensures |keys| == |values| && Entries(keys, values, notakey) == m
  {
  }

  lemma PutHolds(keys: seq<Pointer>, values: seq<Pointer>, notakey: Pointer, i: nat,
                 key: Pointer, value: Pointer, m: map<Pointer, Pointer>,
                 heldKeys: multiset<Pointer>, heldValues: multiset<Pointer>)
    requires Holds(keys, values, notakey, m, heldKeys, heldValues)
    requires i < |keys| && keys[i] == notakey && key != notakey && key !in keys
    ensures Holds(keys[i := key], values[i := value], notakey, m[key := value],
                  heldKeys + multiset{key}, heldValues + multiset{value})
  {
    PutEntry(keys, values, notakey, i, key, value);
    BagUpdate(keys, keys, notakey, i, key, key);
    BagUpdate(keys, values, notakey, i, key, value);
  }

  lemma ClearHolds(keys: seq<Pointer>, values: seq<Pointer>, notakey: Pointer, i: nat,
                   m: map<Pointer, Pointer>,
                   heldKeys: multiset<Pointer>, heldValues: multiset<Pointer>)
    requires Holds(keys, values, notakey, m, heldKeys, heldValues)
    requires i < |keys| && keys[i] != notakey
    ensures keys[i] !in keys[i := notakey]
    ensures keys[i] in heldKeys && values[i] in heldValues
    ensures keys[i] in m && m[keys[i]] == values[i]
    ensures Holds(keys[i := notakey], values, notakey, m - {keys[i]},
                  heldKeys - multiset{keys[i]}, heldValues - multiset{values[i]})
  {
    EntryAt(keys, values, notakey, i);
    ClearEntry(keys, values, notakey, i);
    BagClear(keys, keys, notakey, i, notakey);
    BagClear(keys, values, notakey, i, values[i]);
    hide Entries, Bag, DistinctKeys;
    assert values[i := values[i]] == values;
  }

  lemma MoveHolds(keys: seq<Pointer>, values: seq<Pointer>, notakey: Pointer, dst: nat, i: nat,
                  m: map<Pointer, Pointer>,
                  heldKeys: multiset<Pointer>, heldValues: multiset<Pointer>)
    requires Holds(keys, values, notakey, m, heldKeys, heldValues)
    requires i < |keys| && dst < |keys| && keys[i] != notakey && keys[dst] == notakey
    ensures Holds(keys[dst := keys[i]][i := notakey], values[dst := values[i]], notakey,
                  m, heldKeys, heldValues)
  {
    ClearHolds(keys, values, notakey, i, m, heldKeys, heldValues);
    var gap := keys[i := notakey];
    PutHolds(gap, values, notakey, dst, keys[i], values[i], m - {keys[i]},
             heldKeys - multiset{keys[i]}, heldValues - multiset{values[i]});
    UpdatesCommute(keys, dst, i, keys[i], notakey);
    PutBackEntry(m, keys[i], values[i]);
    PutBack(heldKeys, keys[i]);
    PutBack(heldValues, values[i]);
  }

  lemma UpdatesCommute(s: seq<Pointer>, i: nat, j: nat, x: Pointer, y: Pointer)
    requires i < |s| && j < |s| && i != j
    ensures s[i := x][j := y] == s[j := y][i := x]
  {
  }

  lemma PutBack(b: multiset<Pointer>, x: Pointer)
    requires x in b
    ensures b - multiset{x} + multiset{x} == b
  {
  }

  lemma PutBackEntry(m: map<Pointer, Pointer>, k: Pointer, v: Pointer)
    requires k in m && m[k] == v
    ensures (m - {k})[k := v] == m
  {
  }

  lemma NotInGap(keys: seq<Pointer>, i: nat, notakey: Pointer, key: Pointer)
    requires i < |keys| && key != notakey && (key == keys[i] || key !in keys)
    requires keys[i] !in keys[i := notakey]
    ensures key !in keys[i := notakey]
  {
  }

  lemma ReplaceHolds(keys: seq<Pointer>, values: seq<Pointer>, notakey: Pointer, i: nat,
                     key: Pointer, value: Pointer, m: map<Pointer, Pointer>,
                     heldKeys: multiset<Pointer>, heldValues: multiset<Pointer>)
    requires Holds(keys, values, notakey, m, heldKeys, heldValues)
    requires i < |keys| && keys[i] != notakey && key != notakey
    requires key == keys[i] || key !in keys
    ensures keys[i] in heldKeys && values[i] in heldValues
    ensures keys[i] in m && m[keys[i]] == values[i]
    ensures Holds(keys[i := key], values[i := value], notakey, (m - {keys[i]})[key := value],
                  heldKeys - multiset{keys[i]} + multiset{key},
                  heldValues - multiset{values[i]} + multiset{value})
  {
    var gap := keys[i := notakey];
    assert |keys| == |values| && gap[i := key] == keys[i := key];
    ClearHolds(keys, values, notakey, i, m, heldKeys, heldValues);
    hide Holds;
    NotInGap(keys, i, notakey, key);
    PutHolds(gap, values, notakey, i, key, value, m - {keys[i]},
             heldKeys - multiset{keys[i]}, heldValues - multiset{values[i]});
  }

  /** The value half of a hole does not matter. */
  lemma HoleHolds(keys: seq<Pointer>, values: seq<Pointer>, notakey: Pointer, i: nat, value: Pointer,
                  m: map<Pointer, Pointer>,
                  heldKeys: multiset<Pointer>, heldValues: multiset<Pointer>)
    requires Holds(keys, values, notakey, m, heldKeys, heldValues)
    requires i < |keys| && keys[i] == notakey
    ensures Holds(keys, values[i := value], notakey, m, heldKeys, heldValues)
  {
    var values' := values[i := value];
    forall k | k in m ensures Entries(keys, values', notakey)[k] == m[k] {
      assert IndexOf(keys, k) != i;
    }
    BagOverHole(keys, values, notakey, i, value);
  }

  lemma HolesHold(keys: seq<Pointer>, values: seq<Pointer>, notakey: Pointer)
    requires |keys| == |values| && forall s :: 0 <= s < |keys| ==> keys[s] == notakey
    ensures Holds(keys, values, notakey, map[], multiset{}, multiset{})
  {
    BagOfHoles(keys, keys, notakey, |keys|);
    BagOfHoles(keys, values, notakey, |keys|);
  }

  lemma HoldsSize(keys: seq<Pointer>, values: seq<Pointer>, notakey: Pointer,
                  m: map<Pointer, Pointer>,
                  heldKeys: multiset<Pointer>, heldValues: multiset<Pointer>)
    requires Holds(keys, values, notakey, m, heldKeys, heldValues)
    ensures |m| == |heldKeys| == |heldValues| <= |keys|
    ensures |heldKeys| < |keys| ==> notakey in keys
    ensures multiset(m.Keys) == heldKeys
  {
    EntriesCount(keys, values, notakey);
    BagSize(keys, keys, values, notakey, |keys|);
    if |heldKeys| < |keys| {
      RoomIsHole(keys, notakey, |keys|);
    }
  }
}
