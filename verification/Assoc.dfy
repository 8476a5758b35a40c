/** The lazily sorted associative array (src/assoc/mulle--assoc.c): pairs are appended, and
    sorted only when an operation needs their order. */
module Assocs {
  import opened Pointers
  import opened AssocModel
  import Ranges

  const NOT_FOUND: int := -1

  class Assoc {
    const order: KeyOrder
    const fit: (Range, nat) -> Range
    var pairs: seq<Pair>
    var isSorted: bool
    // pairs that the retain callbacks acquired and the release callbacks did not return
    ghost var held: multiset<Pair>

    ghost function Bag(): multiset<Pair>
      reads this
    {
      multiset(pairs)
    }

    ghost predicate Valid()
      reads this
    {
      && Validates(fit)
      && (isSorted ==> Sorted(order, pairs))
      && held == Bag()
    }

    /** The map that the pairs stand for while their keys are distinct. */
    ghost function Contents(): map<int, Pair>
      requires Distinct(order, Bag())
      reads this
    {
      AsMap(order, Bag())
    }

    constructor (order: KeyOrder, fit: (Range, nat) -> Range)
      requires Validates(fit)
      ensures Valid() && this.order == order && this.fit == fit
      ensures pairs == [] && !isSorted && held == multiset{}
    {
      this.order, this.fit := order, fit;
      pairs, isSorted, held := [], false, multiset{};
    }

    // ----- sorting on demand -----

    method SortIfNeeded()
      requires Valid()
      modifies this
      ensures Valid() && isSorted && Sorted(order, pairs)
      ensures Bag() == old(Bag()) && |pairs| == old(|pairs|) && held == old(held)
      ensures old(isSorted) ==> pairs == old(pairs)
      ensures old(Distinct(order, Bag())) ==>
                Distinct(order, Bag()) && Contents() == old(Contents())
    {
      hide Distinct, AsMap;
      assert |multiset(pairs)| == |pairs|;
      if !isSorted {
        pairs := Qsort(order, pairs);
        isSorted := true;
        assert |multiset(pairs)| == |pairs|;
      }
    }

    // ----- retain and release -----

    ghost method Retain(p: Pair)
      modifies `held
      ensures held == old(held) + multiset{p}
    {
      held := held + multiset{p};
    }

    ghost method Release(p: Pair)
      requires p in held
      modifies `held
      ensures held == old(held) - multiset{p}
    {
      held := held - multiset{p};
    }

    /** Release the pairs from `a` up to `b`. */
    method ReleaseRange(a: nat, b: nat)
      requires held == Bag() && a <= b <= |pairs|
      modifies `held
      ensures held == Around(pairs, a, b)
    {
      hide Around;
      ghost var s := pairs;
      WithoutNone(s, a);
      for i := a to b
        invariant held == Around(s, a, i)
      {
        WithoutAt(s, a, i);
        Release(pairs[i]);
      }
    }

    // ----- adding and setting -----

    method Add(key: Pointer, retained: Pair)
      requires Valid() && order.IsEqual(key, retained.key)
      requires !HasKey(order, pairs, key)
      modifies this
      ensures Valid() && !isSorted && pairs == old(pairs) + [retained]
      ensures old(Distinct(order, Bag())) ==>
                && Distinct(order, Bag())
                && Contents() == old(Contents())[order.rank(key) := retained]
    {
      if Distinct(order, Bag()) {
        HasKeyInMap(order, pairs, key);
        AddToMap(order, multiset(pairs), retained);
      }
      hide Distinct, AsMap, HasKey;
      Retain(retained);
      pairs := pairs + [retained];
      isSorted := false;
    }

    /** Append without looking for the key: equal keys may then occur more than once. */
    method AddGuaranteed(retained: Pair)
      requires Valid()
      modifies this
      ensures Valid() && !isSorted && pairs == old(pairs) + [retained]
    {
      Retain(retained);
      pairs := pairs + [retained];
      isSorted := false;
    }

    /** Retain the new pair, store it over the one in position `i` and release that. */
    method ReplaceAt(i: nat, retained: Pair)
      requires Valid() && i < |pairs|
      modifies this`pairs, this`held
      ensures held == multiset(pairs) && pairs == old(pairs)[i := retained]
      ensures Bag() == old(Bag()) - multiset{old(pairs)[i]} + multiset{retained}
      ensures old(Distinct(order, Bag())) && order.IsEqual(old(pairs)[i].key, retained.key) ==>
                && Distinct(order, Bag())
                && Contents() == old(Contents())[order.rank(retained.key) := retained]
    {
      hide Distinct, AsMap, Sorted;
      ghost var bag := multiset(pairs);
      var p := pairs[i];
      Retain(retained);
      pairs := pairs[i := retained];
      Release(p);
      if Distinct(order, bag) && order.IsEqual(p.key, retained.key) {
        ReplaceInMap(order, bag, p, retained);
      }
    }

    /** Write over the pair that has position `i` in the sorted order. */
    method SetAtIndex(i: nat, retained: Pair)
      requires Valid() && i < |pairs|
      modifies this
      ensures Valid() && !isSorted
      ensures IsSortWith(order, pairs, old(Bag()), i, retained)
      ensures old(isSorted) ==> pairs == old(pairs)[i := retained]
      ensures old(Distinct(order, Bag())) ==>
                forall t :: IsSortOf(order, t, old(Bag())) ==> |t| == |pairs| && pairs == t[i := retained]
    {
      SortIfNeeded();
      assert IsSortOf(order, pairs, old(Bag()));
      hide Sorted, Distinct, AsMap, IsSortOf;
      if Distinct(order, Bag()) {
        OnlySort(order, pairs);
      }
      ReplaceAt(i, retained);
      isSorted := false;
    }

    /** Write over a pair with an equal key, or append the pair. */
    method Set(pair: Pair, retained: Pair)
      requires Valid() && order.IsEqual(pair.key, retained.key) && |pairs| <= MAX_BSEARCH
      modifies this
      ensures Valid() && !isSorted
      ensures |pairs| == old(|pairs|) + if old(HasKey(order, pairs, pair.key)) then 0 else 1
      ensures if exists i :: 0 <= i < old(|pairs|) && order.IsEqual(old(pairs)[i].key, pair.key)
              then exists p :: p in old(pairs) && order.IsEqual(p.key, pair.key)
                               && multiset(pairs) == multiset(old(pairs)) - multiset{p} + multiset{retained}
              else multiset(pairs) == multiset(old(pairs)) + multiset{retained}
      ensures old(Distinct(order, Bag())) ==>
                && Distinct(order, Bag())
                && Contents() == old(Contents())[order.rank(pair.key) := retained]
    {
      hide Distinct, AsMap, Sorted;
      SortIfNeeded();
      SameKeys(order, old(pairs), pairs, pair.key);
      var index := Bsearch(order, pairs, pair);
      if index == -1 {
        Add(pair.key, retained);
      } else {
        ReplaceAt(index as nat, retained);
      }
      isSorted := false;
    }

    // ----- looking up -----

    /** A value stored under an equal key, or NULL when there is none. */
    method Get(key: Pointer) returns (value: Pointer)
      requires Valid() && |pairs| <= MAX_BSEARCH
      modifies this
      ensures Valid() && Bag() == old(Bag()) && |pairs| == old(|pairs|)
      ensures (forall p :: p in old(pairs) ==> !order.IsEqual(p.key, key)) ==> value == NULL
      ensures (exists p :: p in old(pairs) && order.IsEqual(p.key, key)) ==>
                exists p :: p in old(pairs) && order.IsEqual(p.key, key) && p.value == value
      ensures old(Distinct(order, Bag())) ==>
                && Distinct(order, Bag()) && Contents() == old(Contents())
                && value == ValueIn(order, Contents(), key)
    {
      hide Distinct, AsMap, Sorted, ValueIn;
      SortIfNeeded();
      SameMembers(pairs, old(pairs));
      if Distinct(order, Bag()) {
        ValueAt(order, pairs, key);
      }
      var index := Bsearch(order, pairs, Pair(key, NULL));
      if index == -1 {
        return NULL;
      }
      assert pairs[index] in pairs;
      return pairs[index].value;
    }

    /** The first pair of a range with an equal key, in whatever order the pairs are. */
    method FindUnsorted(key: Pointer, range: Range) returns (index: int)
      requires Validates(fit)
      ensures var r := fit(range, |pairs|);
              && (index != NOT_FOUND ==> r.location <= index < r.Max() && order.IsEqual(pairs[index].key, key))
              && forall i :: r.location <= i < (if index == NOT_FOUND then r.Max() else index) ==>
                               !order.IsEqual(pairs[i].key, key)
    {
      var r := fit(range, |pairs|);
      if r.length == 0 {
        return NOT_FOUND;
      }
      for p := r.location to r.Max()
        invariant forall i :: r.location <= i < p ==> !order.IsEqual(pairs[i].key, key)
      {
        if order.IsEqual(pairs[p].key, key) {
          return p;
        }
      }
      return NOT_FOUND;
    }

    /** The first pair with an equal key in a range of the sorted order. */
    method FindInRange(key: Pointer, range: Range) returns (index: int)
      requires Valid()
      modifies this
      ensures Valid() && isSorted && Bag() == old(Bag()) && |pairs| == old(|pairs|)
      ensures var r := fit(range, |pairs|);
              && (index != NOT_FOUND ==> r.location <= index < r.Max() && order.IsEqual(pairs[index].key, key))
              && forall i :: r.location <= i < (if index == NOT_FOUND then r.Max() else index) ==>
                               !order.IsEqual(pairs[i].key, key)
    {
      SortIfNeeded();
      index := FindUnsorted(key, range);
    }

    method Member(key: Pointer) returns (found: bool)
      requires Validates(fit)
      ensures found <==> exists i :: 0 <= i < |pairs| && order.IsEqual(pairs[i].key, key)
      ensures found <==> HasKey(order, pairs, key)
    {
      var index := FindUnsorted(key, ALL);
      return index != NOT_FOUND;
    }

    // ----- removing -----

    /** Removing does not clear the flag: what is left of sorted pairs is sorted. */
    method RemoveInRange(range: Range)
      requires Valid()
      modifies this
      ensures Valid() && isSorted == old(isSorted)
      ensures var r := fit(range, old(|pairs|)); pairs == old(pairs)[..r.location] + old(pairs)[r.Max()..]
    {
      var r := fit(range, |pairs|);
      ReleaseRange(r.location, r.Max());
      pairs := pairs[..r.location] + pairs[r.Max()..];
    }

    /** Remove the pairs from `a` up to `b`. */
    method RemoveRun(a: nat, b: nat)
      requires Valid() && a < b <= |pairs| <= MAX_BSEARCH
      modifies this
      ensures Valid() && isSorted == old(isSorted) && pairs == old(pairs[..a] + pairs[b..])
    {
      RemoveInRange(Ranges.Range(a, b - a));
    }

    /** All pairs with an equal key go, and nothing else. */
    method Remove(key: Pointer)
      requires Valid() && |pairs| <= MAX_BSEARCH
      modifies this
      ensures Valid() && isSorted && |pairs| <= old(|pairs|)
      ensures forall p :: p in pairs ==> !order.IsEqual(p.key, key)
      ensures forall p: Pair :: !order.IsEqual(p.key, key) ==> multiset(pairs)[p] == multiset(old(pairs))[p]
      ensures old(isSorted) ==> pairs == Kept(order, old(pairs), key)
      ensures old(Distinct(order, Bag())) ==>
                && Distinct(order, Bag())
                && Contents() == old(Contents()) - {order.rank(key)}
    {
      hide Sorted, Distinct, AsMap, RemovedAll, Kept, Validates;
      SortIfNeeded();
      ghost var bag := Bag();
      var a, b := EqualRun(key);
      KeptAround(order, pairs, key, a, b);
      KeptBag(order, pairs, key);
      assert a == b ==> pairs[..a] + pairs[b..] == pairs;
      if a < b {
        RemoveRun(a, b);
      }
      if Distinct(order, bag) {
        RemoveFromMap(order, bag, Bag(), key);
      }
    }

    /** The run of equal keys among the sorted pairs, from `a` up to `b`. */
    method EqualRun(key: Pointer) returns (a: nat, b: nat)
      requires Sorted(order, pairs) && |pairs| <= MAX_BSEARCH
      ensures a <= b <= |pairs|
      ensures forall i :: 0 <= i < |pairs| ==> (order.IsEqual(pairs[i].key, key) <==> a <= i < b)
    {
      var index := Bsearch(order, pairs, Pair(key, NULL));
      if index == -1 {
        return 0, 0;
      }
      a, b := index as nat, index as nat + 1;
      while a > 0 && order.IsEqual(pairs[a - 1].key, key)
        invariant 0 <= a <= index as nat
        invariant forall i :: a <= i <= index as nat ==> order.IsEqual(pairs[i].key, key)
      {
        a := a - 1;
      }
      while b < |pairs| && order.IsEqual(pairs[b].key, key)
        invariant index as nat < b <= |pairs|
        invariant forall i :: index as nat <= i < b ==> order.IsEqual(pairs[i].key, key)
      {
        b := b + 1;
      }
    }

    /** The last pair goes, whether the pairs are sorted or not. Without a pair the invalid
        one is handed to the release callbacks, which was never retained. */
    method RemoveLast(invalid: Pair) returns (released: Pair)
      requires Valid()
      modifies this
      ensures Valid() && isSorted == old(isSorted)
      ensures if old(pairs) == [] then pairs == [] && released == invalid
              else pairs == old(pairs[..|pairs| - 1]) && released == old(pairs[|pairs| - 1])
      ensures released in old(held) <==> old(pairs) != []
    {
      if |pairs| == 0 {
        return invalid;
      }
      released := pairs[|pairs| - 1];
      assert pairs == pairs[..|pairs| - 1] + [released];
      pairs := pairs[..|pairs| - 1];
      Release(released);
    }

    /** Forget every pair; the flag stays as it was. */
    method Reset()
      requires Valid()
      modifies this
      ensures Valid() && isSorted == old(isSorted) && pairs == [] && held == multiset{}
      ensures Distinct(order, Bag()) && Contents() == map[]
    {
      ReleaseRange(0, |pairs|);
      pairs := [];
    }

    // ----- taking over pairs -----

    /** Add the pairs whose keys are not here yet, one after the other. */
    method AddItems(items: seq<Pair>, retained: seq<Pair>)
      requires Valid() && |retained| == |items|
      requires forall i :: 0 <= i < |items| ==> order.IsEqual(items[i].key, retained[i].key)
      modifies this
      ensures Valid() && pairs == AddMissing(order, old(pairs), items, retained)
      ensures old(Distinct(order, Bag())) ==> Distinct(order, Bag())
    {
      hide Distinct, AsMap, HasKey, Validates, Sorted, Assoc.Bag;
      for i := 0 to |items|
        invariant Valid() && pairs == AddMissing(order, old(pairs), items[..i], retained[..i])
        invariant old(Distinct(order, Bag())) ==> Distinct(order, Bag())
      {
        hide AddMissing;
        AddMissingStep(order, old(pairs), items, retained, i);
        var found := Member(items[i].key);
        if !found {
          Add(items[i].key, retained[i]);
        }
      }
      assert items[..|items|] == items && retained[..|items|] == retained;
    }

    /** Add the pairs of a range of another assoc whose keys are not here yet. */
    method AddAssocRange(other: Assoc, range: Range, retained: seq<Pair>)
      requires Valid() && |retained| == fit(range, |other.pairs|).length
      requires var r := fit(range, |other.pairs|);
               forall i :: 0 <= i < r.length ==> order.IsEqual(other.pairs[r.location + i].key, retained[i].key)
      modifies this
      ensures var r := fit(range, |old(other.pairs)|);
              && Valid() && pairs == AddMissing(order, old(pairs), old(other.pairs)[r.location..r.Max()], retained)
              && isSorted == (old(isSorted) && r.length == 0)
      ensures old(Distinct(order, Bag())) ==> Distinct(order, Bag())
    {
      var r := fit(range, |other.pairs|);
      var items := other.pairs[r.location..r.Max()];
      if |items| == 0 {
        return;
      }
      AddItems(items, retained);
      isSorted := false;
    }
  }

  /** What is left without the elements from `a` up to `b`. */
  ghost function Around<T>(s: seq<T>, a: nat, b: nat): multiset<T>
    requires a <= b <= |s|
  {
    multiset(s[..a] + s[b..])
  }

  lemma WithoutNone<T>(s: seq<T>, a: nat)
    requires a <= |s|
    ensures Around(s, a, a) == multiset(s)
  {
    assert s[..a] + s[a..] == s;
  }

  lemma WithoutAt<T>(s: seq<T>, a: nat, i: nat)
    requires a <= i < |s|
    ensures s[i] in Around(s, a, i) && Around(s, a, i) - multiset{s[i]} == Around(s, a, i + 1)
  {
    assert s[i..] == [s[i]] + s[i + 1..];
  }

  lemma SameKeys(order: KeyOrder, s: seq<Pair>, t: seq<Pair>, key: Pointer)
    requires multiset(s) == multiset(t)
    ensures HasKey(order, s, key) <==> HasKey(order, t, key)
  {
    SameMembers(s, t);
    if HasKey(order, s, key) {
      var i :| 0 <= i < |s| && order.IsEqual(s[i].key, key);
      assert s[i] in t;
    }
    if HasKey(order, t, key) {
      var i :| 0 <= i < |t| && order.IsEqual(t[i].key, key);
      assert t[i] in s;
    }
  }

  method Step(assoc: Assoc, op: AssocOp) returns (answer: seq<Pointer>)
    requires assoc.Valid() && Distinct(assoc.order, assoc.Bag())
    requires Legal(assoc.order, op) && (Searches(op) ==> |assoc.pairs| <= MAX_BSEARCH)
    modifies assoc
    ensures assoc.Valid() && Distinct(assoc.order, assoc.Bag())
    ensures assoc.Contents() == StepMap(assoc.order, old(assoc.Contents()), op)
    ensures answer == if op.Get? then [ValueIn(assoc.order, old(assoc.Contents()), op.key)] else []
  {
    hide AsMap, Distinct, ValueIn, Sorted, HasKey, Kept, RemovedAll, Assoc.Bag;
    answer := [];
    match op
    case Set(pair, retained) =>
      assoc.Set(pair, retained);
    case Get(key) =>
      var value := assoc.Get(key);
      answer := [value];
    case Remove(key) =>
      assoc.Remove(key);
    case Sort =>
      assoc.SortIfNeeded();
    case Reset =>
      assoc.Reset();
  }

  /** Over every run in which a search never meets more pairs than it can handle, the sorting
      is invisible: the array is the map that the operations describe, and each lookup
      answers what the map holds. */
  method Perform(assoc: Assoc, ops: seq<AssocOp>) returns (out: seq<Pointer>)
    requires assoc.Valid() && Distinct(assoc.order, assoc.Bag())
    requires forall i :: 0 <= i < |ops| && Searches(ops[i]) ==>
                           |RunMap(assoc.order, assoc.Contents(), ops[..i]).0| <= MAX_BSEARCH
    requires forall i :: 0 <= i < |ops| ==> Legal(assoc.order, ops[i])
    modifies assoc
    ensures assoc.Valid() && Distinct(assoc.order, assoc.Bag())
    ensures (assoc.Contents(), out) == RunMap(assoc.order, old(assoc.Contents()), ops)
  {
    out := [];
    hide AsMap, Distinct, ValueIn, StepMap;
    for i := 0 to |ops|
      invariant assoc.Valid() && Distinct(assoc.order, assoc.Bag())
      invariant (assoc.Contents(), out) == RunMap(assoc.order, old(assoc.Contents()), ops[..i])
    {
      assert ops[..i + 1][..i] == ops[..i] && ops[..i + 1][i] == ops[i];
      MapSize(assoc.order, assoc.pairs);
      assert assoc.Contents() == RunMap(assoc.order, old(assoc.Contents()), ops[..i]).0;
      var answer := Step(assoc, ops[i]);
      assert out + [] == out;
      out := out + answer;
    }
    assert ops[..|ops|] == ops;
  }
}
