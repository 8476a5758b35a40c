/** The pairs of a table in slot order, as the enumerators deliver them
    (src/map/mulle--maptinyenumerator.h, src/map/pointer/mulle--pointermap-struct.h). */
module MapItems {
  import opened Pointers
  import opened TableContents
  import opened Sequences

  /** The pairs in the slots from `from` on. */
  ghost function Items(keys: seq<Pointer>, values: seq<Pointer>, notakey: Pointer, from: nat): seq<Pair>
    requires from <= |keys| == |values|
    decreases |keys| - from
  {
    if from == |keys| then []
    else if keys[from] == notakey then Items(keys, values, notakey, from + 1)
    else [Pair(keys[from], values[from])] + Items(keys, values, notakey, from + 1)
  }

  ghost function KeyBag(items: seq<Pair>): multiset<Pointer> {
    if |items| == 0 then multiset{} else multiset{items[0].key} + KeyBag(items[1..])
  }

  ghost function ValueBag(items: seq<Pair>): multiset<Pointer> {
    if |items| == 0 then multiset{} else multiset{items[0].value} + ValueBag(items[1..])
  }

  lemma HeadBags(items: seq<Pair>)
    ensures items == [] ==> KeyBag(items) == ValueBag(items) == multiset{}
    ensures items != [] ==>
              && KeyBag(items) == multiset{items[0].key} + KeyBag(items[1..])
              && ValueBag(items) == multiset{items[0].value} + ValueBag(items[1..])
  {
  }

  lemma ItemsStep(keys: seq<Pointer>, values: seq<Pointer>, notakey: Pointer, from: nat)
    requires from < |keys| == |values|
    ensures var items, rest := Items(keys, values, notakey, from), Items(keys, values, notakey, from + 1);
            if keys[from] == notakey then
              && items == rest
              && BagUpTo(keys, keys, notakey, from + 1) == BagUpTo(keys, keys, notakey, from)
              && BagUpTo(keys, values, notakey, from + 1) == BagUpTo(keys, values, notakey, from)
            else && |items| == |rest| + 1
                 && KeyBag(items) == multiset{keys[from]} + KeyBag(rest)
                 && ValueBag(items) == multiset{values[from]} + ValueBag(rest)
                 && BagUpTo(keys, keys, notakey, from + 1)
                    == BagUpTo(keys, keys, notakey, from) + multiset{keys[from]}
                 && BagUpTo(keys, values, notakey, from + 1)
                    == BagUpTo(keys, values, notakey, from) + multiset{values[from]}
  {
    var items, rest := Items(keys, values, notakey, from), Items(keys, values, notakey, from + 1);
    if keys[from] != notakey {
      assert items[1..] == rest;
    }
  }

  /** What lies before `from` and what is pending from there make up the bags. */
  lemma {:induction false} ItemsBags(keys: seq<Pointer>, values: seq<Pointer>, notakey: Pointer, from: nat)
    requires from <= |keys| == |values|
    ensures var items := Items(keys, values, notakey, from);
            && Bag(keys, keys, notakey) == BagUpTo(keys, keys, notakey, from) + KeyBag(items)
            && Bag(keys, values, notakey) == BagUpTo(keys, values, notakey, from) + ValueBag(items)
            && |KeyBag(items)| == |items|
    decreases |keys| - from
  {
    hide Items, KeyBag, ValueBag, BagUpTo;
    if from == |keys| {
      ItemsNone(keys, values, notakey);
      Regroup0(Bag(keys, keys, notakey));
      Regroup0(Bag(keys, values, notakey));
    } else {
      ItemsBags(keys, values, notakey, from + 1);
      ItemsStep(keys, values, notakey, from);
      var rest := Items(keys, values, notakey, from + 1);
      if keys[from] != notakey {
        Regroup(BagUpTo(keys, keys, notakey, from), keys[from], KeyBag(rest));
        Regroup(BagUpTo(keys, values, notakey, from), values[from], ValueBag(rest));
      }
    }
  }

  lemma ItemsNone(keys: seq<Pointer>, values: seq<Pointer>, notakey: Pointer)
    requires |keys| == |values|
    ensures var items := Items(keys, values, notakey, |keys|);
            items == [] && KeyBag(items) == multiset{} && ValueBag(items) == multiset{}
  {
  }

  lemma TakeHead(x: Pointer, b: multiset<Pointer>)
    ensures multiset{x} + b - multiset{x} == b && x in multiset{x} + b
  {
  }

  lemma Regroup(a: multiset<Pointer>, x: Pointer, b: multiset<Pointer>)
    ensures a + (multiset{x} + b) == a + multiset{x} + b
  {
  }

  lemma Regroup0(a: multiset<Pointer>)
    ensures a + multiset{} == a
  {
  }

  lemma {:induction false} ItemsInSlots(keys: seq<Pointer>, values: seq<Pointer>, notakey: Pointer,
                                        from: nat, p: Pair)
    requires from <= |keys| == |values|
    ensures p in Items(keys, values, notakey, from) <==>
            exists i :: from <= i < |keys| && keys[i] != notakey && keys[i] == p.key && values[i] == p.value
    decreases |keys| - from
  {
    if from == |keys| {
    } else {
      ItemsInSlots(keys, values, notakey, from + 1, p);
    }
  }

  ghost predicate DifferentKeys(items: seq<Pair>) {
    forall i, j :: 0 <= i < j < |items| ==> items[i].key != items[j].key
  }

  lemma {:induction false} ItemsDiffer(keys: seq<Pointer>, values: seq<Pointer>, notakey: Pointer, from: nat)
    requires from <= |keys| == |values| && DistinctKeys(keys, notakey)
    ensures DifferentKeys(Items(keys, values, notakey, from))
    decreases |keys| - from
  {
    if from == |keys| {
    } else {
      ItemsDiffer(keys, values, notakey, from + 1);
      if keys[from] != notakey {
        var rest := Items(keys, values, notakey, from + 1);
        forall j | 0 <= j < |rest| ensures rest[j].key != keys[from] {
          ItemsInSlots(keys, values, notakey, from + 1, rest[j]);
        }
      }
    }
  }

  /** The items come in the order of their slots, from slot `from` on. */
  ghost predicate InSlotOrder(keys: seq<Pointer>, items: seq<Pair>, from: nat) {
    && (forall i :: 0 <= i < |items| ==> items[i].key in keys && from <= IndexOf(keys, items[i].key))
    && (forall i, j :: 0 <= i < j < |items| ==> IndexOf(keys, items[i].key) < IndexOf(keys, items[j].key))
  }

  lemma PutInFront(keys: seq<Pointer>, p: Pair, rest: seq<Pair>, from: nat)
    requires p.key in keys && IndexOf(keys, p.key) == from && InSlotOrder(keys, rest, from + 1)
    ensures InSlotOrder(keys, [p] + rest, from)
  {
    var items := [p] + rest;
    assert forall i :: 0 < i < |items| ==> items[i] == rest[i - 1];
  }

  lemma WeakenOrder(keys: seq<Pointer>, items: seq<Pair>, from: nat)
    requires InSlotOrder(keys, items, from + 1)
    ensures InSlotOrder(keys, items, from)
  {
  }

  lemma {:induction false} ItemsInOrder(keys: seq<Pointer>, values: seq<Pointer>, notakey: Pointer, from: nat)
    requires from <= |keys| == |values| && DistinctKeys(keys, notakey)
    ensures InSlotOrder(keys, Items(keys, values, notakey, from), from)
    decreases |keys| - from
  {
    if from == |keys| {
    } else {
      ItemsInOrder(keys, values, notakey, from + 1);
      hide InSlotOrder;
      var rest := Items(keys, values, notakey, from + 1);
      if keys[from] == notakey {
        WeakenOrder(keys, rest, from);
      } else {
        assert IndexOf(keys, keys[from]) == from;
        PutInFront(keys, Pair(keys[from], values[from]), rest, from);
      }
    }
  }

  /** The items are the pairs of the map, each of them once. */
  lemma ItemsAreEntries(keys: seq<Pointer>, values: seq<Pointer>, notakey: Pointer)
    requires |keys| == |values| && DistinctKeys(keys, notakey)
    ensures var m, items := Entries(keys, values, notakey), Items(keys, values, notakey, 0);
            && DifferentKeys(items)
            && |items| == |m|
            && (forall p :: p in items <==> p.key in m && m[p.key] == p.value)
  {
    var m, items := Entries(keys, values, notakey), Items(keys, values, notakey, 0);
    ItemsDiffer(keys, values, notakey, 0);
    ItemsBags(keys, values, notakey, 0);
    EntriesCount(keys, values, notakey);
    assert Bag(keys, keys, notakey) == KeyBag(items);
    forall p ensures p in items <==> p.key in m && m[p.key] == p.value {
      ItemsInSlots(keys, values, notakey, 0, p);
      if p.key in m {
        var i := IndexOf(keys, p.key);
        EntryAt(keys, values, notakey, i);
      }
    }
  }

  /** The enumerator: a cursor into the keys half and the number of keys still ahead. The
      tiny enumerator is the instance whose hole marker is NULL. */
  class MapEnumerator {
    const storage: array<Pointer>
    const offset: nat
    const notakey: Pointer
    var curr: nat
    var left: nat

    ghost function Pending(): seq<Pair>
      requires storage.Length == 2 * offset && curr <= offset
      reads this, storage
    {
      Items(storage[..offset], storage[offset..], notakey, curr)
    }

    ghost predicate Valid()
      reads this, storage
    {
      storage.Length == 2 * offset && curr <= offset && left == |Pending()|
    }

    constructor (storage: array<Pointer>, size: nat, count: nat, notakey: Pointer)
      requires storage.Length == 2 * size
      requires count == |Items(storage[..size], storage[size..], notakey, 0)|
      ensures Valid() && this.storage == storage && offset == size
      ensures Pending() == Items(storage[..size], storage[size..], notakey, 0)
    {
      this.storage, offset, this.notakey := storage, size, notakey;
      curr, left := 0, count;
    }

    /** The next pair. The scan has no bound of its own; the count keeps it in the keys. */
    method Next() returns (more: bool, key: Pointer, value: Pointer)
      requires Valid()
      modifies this
      ensures Valid()
      ensures old(Pending()) == [] ==> !more && key == value == NULL && Pending() == []
      ensures old(Pending()) != [] ==>
                && more && Pair(key, value) == old(Pending())[0]
                && Pending() == old(Pending())[1..]
    {
      if left == 0 {
        return false, NULL, NULL;
      }
      left := left - 1;
      while true
        invariant curr <= offset && Pending() == old(Pending()) != []
        invariant left == old(left) - 1
        decreases offset - curr
      {
        var p := curr;
        assert p < offset by {
          ItemsNone(storage[..offset], storage[offset..], notakey);
        }
        curr := curr + 1;
        if storage[p] != notakey {
          return true, storage[p], storage[p + offset];
        }
      }
    }
  }

  /** Enumerating to the end yields the pending pairs and then stays at the end. */
  method Drain(rover: MapEnumerator) returns (items: seq<Pair>)
    requires rover.Valid()
    modifies rover
    ensures rover.Valid() && items == old(rover.Pending()) && rover.Pending() == []
  {
    items := [];
    var more, key, value := rover.Next();
    while more
      invariant rover.Valid()
      invariant more ==> old(rover.Pending()) == items + [Pair(key, value)] + rover.Pending()
      invariant !more ==> old(rover.Pending()) == items && rover.Pending() == []
      decreases more, |rover.Pending()|
    {
      ghost var all, ahead := old(rover.Pending()), rover.Pending();
      items := items + [Pair(key, value)];
      assert all == items + ahead;
      more, key, value := rover.Next();
      assert more ==> ahead == [Pair(key, value)] + rover.Pending();
      assert more ==> items + ahead == items + [Pair(key, value)] + rover.Pending();
      assert !more ==> items + ahead == items;
    }
  }
}
