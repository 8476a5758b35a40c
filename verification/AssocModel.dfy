/** The pairs of an associative array: their order, the binary search over them, and the map
    that they stand for. */
module AssocModel {
  import opened Pointers
  import Ranges

  /** The compare callback, given by the rank of each key. The key callback has to agree:
      keys are equal when they compare as equal. */
  datatype KeyOrder = KeyOrder(rank: Pointer -> int)
  {
    predicate IsEqual(a: Pointer, b: Pointer) {
      rank(a) == rank(b)
    }

    function Compare(p: Pair, q: Pair): int {
      if rank(p.key) < rank(q.key) then -1
      else if rank(p.key) > rank(q.key) then 1
      else 0
    }
  }

  // ----- ranges of pairs -----

  type Range = Ranges.Range

  /** The range of all pairs, however many there are. */
  const ALL: Range := Ranges.Range(0, 0xFFFF_FFFF_FFFF_FFFF)

  /** What is relied on of the helper that validates a range against a length: the result
      lies within the length, a range that does is not changed, and the range of all pairs
      covers the length. What becomes of other ranges is up to the helper. */
  ghost predicate Validates(fit: (Range, nat) -> Range) {
    && (forall r, n :: fit(r, n).Max() <= n)
    && (forall r, n :: r != ALL && r.Max() <= n ==> fit(r, n) == r)
    && (forall n :: fit(ALL, n) == Ranges.Range(0, n))
  }

  // ----- sorting -----

  ghost predicate Sorted(order: KeyOrder, s: seq<Pair>) {
    forall i, j :: 0 <= i < j < |s| ==> order.rank(s[i].key) <= order.rank(s[j].key)
  }

  /** `p` in its place among sorted pairs. */
  lemma InsertSorted(order: KeyOrder, t: seq<Pair>, k: nat, p: Pair)
    requires Sorted(order, t) && k <= |t|
    requires k > 0 ==> order.rank(t[k - 1].key) <= order.rank(p.key)
    requires forall j :: k <= j < |t| ==> order.rank(p.key) < order.rank(t[j].key)
    ensures Sorted(order, t[..k] + [p] + t[k..])
  {
    assert k > 0 ==> forall j :: 0 <= j < k ==> order.rank(t[j].key) <= order.rank(t[k - 1].key);
  }

  lemma InsertedBag<T>(t: seq<T>, k: nat, x: T)
    requires k <= |t|
    ensures multiset(t[..k] + [x] + t[k..]) == multiset(t) + multiset{x}
  {
    assert t[..k] + t[k..] == t;
  }

  /** Where `p` goes among sorted pairs. */
  method FindPlace(order: KeyOrder, t: seq<Pair>, p: Pair) returns (k: nat)
    ensures k <= |t|
    ensures k > 0 ==> order.rank(t[k - 1].key) <= order.rank(p.key)
    ensures forall j :: k <= j < |t| ==> order.rank(p.key) < order.rank(t[j].key)
  {
    k := |t|;
    while k > 0 && order.Compare(t[k - 1], p) > 0
      invariant k <= |t|
      invariant forall j :: k <= j < |t| ==> order.rank(p.key) < order.rank(t[j].key)
    {
      k := k - 1;
    }
  }

  /** Stands in for qsort, of which nothing else is known. */
  method Qsort(order: KeyOrder, s: seq<Pair>) returns (t: seq<Pair>)
    ensures Sorted(order, t) && multiset(t) == multiset(s)
  {
    t := [];
    for i := 0 to |s|
      invariant Sorted(order, t) && multiset(t) == multiset(s[..i])
    {
      hide Sorted;
      var k := FindPlace(order, t, s[i]);
      InsertSorted(order, t, k, s[i]);
      InsertedBag(t, k, s[i]);
      assert s[..i + 1] == s[..i] + [s[i]];
      t := t[..k] + [s[i]] + t[k..];
    }
    assert s[..|s|] == s;
  }

  // ----- binary search -----

  /** The C type int. */
  newtype Int = x: int | -0x8000_0000 <= x < 0x8000_0000

  /** Halving an int truncates towards zero. */
  function Half(x: Int): (h: Int)
    ensures 0 <= x ==> h as int == x as int / 2
    ensures -1 <= x < 0 ==> h == 0
  {
    if x < 0 then -(-(x + 1) / 2 + if x % 2 == 0 then 1 else 0) else x / 2
  }

  const MAX_BSEARCH: nat := 0x4000_0000

  /** Some index with an equal key, or -1 when there is none. */
  method Bsearch(order: KeyOrder, buf: seq<Pair>, search: Pair) returns (index: Int)
    requires Sorted(order, buf) && |buf| <= MAX_BSEARCH
    ensures index == -1 ==> forall i :: 0 <= i < |buf| ==> !order.IsEqual(buf[i].key, search.key)
    ensures index != -1 ==> 0 <= index as int < |buf| && order.IsEqual(buf[index].key, search.key)
  {
    var first: Int, last: Int := 0, (|buf| - 1) as Int;
    var middle := Half(first + last);
    while first <= last
      invariant 0 <= first && -1 <= last && last as int < |buf| && first <= last + 1
      invariant middle == Half(first + last)
      invariant forall i :: 0 <= i < first as int ==> order.Compare(buf[i], search) < 0
      invariant forall i :: last as int < i < |buf| ==> order.Compare(buf[i], search) > 0
      decreases last as int - first as int + 1
    {
      var rc := order.Compare(buf[middle], search);
      if rc <= 0 {
        if rc == 0 {
          return middle;
        }
        first := middle + 1;
      } else {
        last := middle - 1;
      }
      middle := Half(first + last);
    }
    return -1;
  }

  predicate FitsInt(x: int) {
    -0x8000_0000 <= x < 0x8000_0000
  }

  /** Every index and every sum that a binary search between `first` and `last` makes is an
      int; the first sum is the last index. */
  ghost predicate SumsFit(order: KeyOrder, buf: seq<Pair>, search: Pair, first: int, last: int)
    requires 0 <= first && last < |buf|
    decreases last - first
  {
    && FitsInt(first + last)
    && (first <= last ==>
          var middle := (first + last) / 2;
          var rc := order.Compare(buf[middle], search);
          && (rc < 0 ==> SumsFit(order, buf, search, middle + 1, last))
          && (rc > 0 ==> SumsFit(order, buf, search, first, middle - 1)))
  }

  lemma {:induction false} SumsFitBelow(order: KeyOrder, buf: seq<Pair>, search: Pair, first: int, last: int)
    requires 0 <= first <= last + 1 && last < |buf| <= MAX_BSEARCH
    ensures SumsFit(order, buf, search, first, last)
    decreases last - first
  {
    if first > last {
    } else {
      var middle := (first + last) / 2;
      SumsFitBelow(order, buf, search, middle + 1, last);
      SumsFitBelow(order, buf, search, first, middle - 1);
    }
  }

  /** A search past the end halves twice the last index plus one. */
  lemma {:induction false} SumsReachEnd(order: KeyOrder, buf: seq<Pair>, search: Pair, first: int, last: int)
    requires 0 <= first <= last < |buf|
    requires forall i :: 0 <= i < |buf| ==> order.Compare(buf[i], search) < 0
    requires SumsFit(order, buf, search, first, last)
    ensures FitsInt(2 * last + 1)
    decreases last - first
  {
    var middle := (first + last) / 2;
    if middle == last {
    } else {
      SumsReachEnd(order, buf, search, middle + 1, last);
    }
  }

  ghost predicate NoOverflow(order: KeyOrder, buf: seq<Pair>, search: Pair) {
    SumsFit(order, buf, search, 0, |buf| - 1)
  }

  /** No index and no sum of a search over `n` sorted pairs leaves the int range, exactly when
      `n` is at most 2 to the 30. */
  lemma SumsFitIff(n: nat)
    ensures (forall order: KeyOrder, buf: seq<Pair>, search: Pair ::
               |buf| == n && Sorted(order, buf) ==> NoOverflow(order, buf, search))
            <==> n <= MAX_BSEARCH
  {
    if n <= MAX_BSEARCH {
      forall order: KeyOrder, buf: seq<Pair>, search: Pair | |buf| == n && Sorted(order, buf)
        ensures NoOverflow(order, buf, search)
      {
        SumsFitBelow(order, buf, search, 0, n - 1);
      }
    } else {
      var order := KeyOrder(k => k);
      var buf := seq(n, i => Pair(0, NULL));
      var search := Pair(1, NULL);
      assert Sorted(order, buf);
      if NoOverflow(order, buf, search) {
        SumsReachEnd(order, buf, search, 0, n - 1);
      }
    }
  }

  // ----- removal -----

  /** The pairs of `s` whose key is not equal to `key`, in their order. */
  ghost function Kept(order: KeyOrder, s: seq<Pair>, key: Pointer): seq<Pair> {
    if |s| == 0 then []
    else
      var p := s[|s| - 1];
      Kept(order, s[..|s| - 1], key) + if order.IsEqual(p.key, key) then [] else [p]
  }

  lemma {:induction false} KeptBag(order: KeyOrder, s: seq<Pair>, key: Pointer)
    ensures RemovedAll(order, multiset(s), multiset(Kept(order, s, key)), key)
  {
    if |s| == 0 {
    } else {
      var n := |s| - 1;
      KeptBag(order, s[..n], key);
      assert s == s[..n] + [s[n]];
    }
  }

  lemma CutBeforeLast<T>(s: seq<T>, a: nat, b: nat)
    requires a <= b <= |s| && |s| > 0
    ensures var n := |s| - 1;
            s[..a] + s[b..] == s[..n][..if a <= n then a else n] + s[..n][if b <= n then b else n..]
                               + if a <= n < b then [] else [s[n]]
  {
    var n := |s| - 1;
    assert b <= n ==> s[b..] == s[..n][b..] + [s[n]];
    assert s[..a] == if a <= n then s[..n][..a] else s[..n] + [s[n]];
  }

  /** When the equal keys are those from `a` up to `b`, the rest is what is kept. */
  lemma {:induction false} KeptAround(order: KeyOrder, s: seq<Pair>, key: Pointer, a: nat, b: nat)
    requires a <= b <= |s|
    requires forall i :: 0 <= i < |s| ==> (order.IsEqual(s[i].key, key) <==> a <= i < b)
    ensures Kept(order, s, key) == s[..a] + s[b..]
  {
    if |s| == 0 {
    } else {
      var n := |s| - 1;
      var a', b' := if a <= n then a else n, if b <= n then b else n;
      KeptAround(order, s[..n], key, a', b');
      CutBeforeLast(s, a, b);
    }
  }

  /** Every pair with an equal key is gone and nothing else has changed. */
  ghost predicate RemovedAll(order: KeyOrder, before: multiset<Pair>, after: multiset<Pair>, key: Pointer) {
    forall p :: after[p] == if order.IsEqual(p.key, key) then 0 else before[p]
  }

  // ----- adding what is missing -----

  ghost predicate HasKey(order: KeyOrder, s: seq<Pair>, key: Pointer) {
    exists i :: 0 <= i < |s| && order.IsEqual(s[i].key, key)
  }

  /** The pairs of `items` whose key is new, in their order, behind those of `s`. */
  ghost function AddMissing(order: KeyOrder, s: seq<Pair>, items: seq<Pair>, retained: seq<Pair>)
    : (t: seq<Pair>)
    requires |items| == |retained|
  {
    if |items| == 0 then s
    else
      var n := |items| - 1;
      var t := AddMissing(order, s, items[..n], retained[..n]);
      if HasKey(order, t, items[n].key) then t else t + [retained[n]]
  }

  lemma AddMissingStep(order: KeyOrder, s: seq<Pair>, items: seq<Pair>, retained: seq<Pair>, i: nat)
    requires |items| == |retained| && i < |items|
    ensures var t := AddMissing(order, s, items[..i], retained[..i]);
            AddMissing(order, s, items[..i + 1], retained[..i + 1])
            == if HasKey(order, t, items[i].key) then t else t + [retained[i]]
  {
    assert items[..i + 1][..i] == items[..i] && retained[..i + 1][..i] == retained[..i];
  }

  /** The old pairs stay in front, and a key is there afterwards exactly when it was in one
      of the two lists. */
  lemma {:induction false} AddMissingKeys(order: KeyOrder, s: seq<Pair>, items: seq<Pair>, retained: seq<Pair>)
    requires |items| == |retained|
    requires forall i :: 0 <= i < |items| ==> order.IsEqual(items[i].key, retained[i].key)
    ensures s <= AddMissing(order, s, items, retained)
    ensures forall key :: HasKey(order, AddMissing(order, s, items, retained), key)
                          <==> HasKey(order, s, key) || HasKey(order, items, key)
  {
    if |items| == 0 {
    } else {
      var n := |items| - 1;
      var t := AddMissing(order, s, items[..n], retained[..n]);
      AddMissingKeys(order, s, items[..n], retained[..n]);
      forall key
        ensures HasKey(order, AddMissing(order, s, items, retained), key)
                <==> HasKey(order, s, key) || HasKey(order, items, key)
      {
        hide HasKey;
        HasKeyOfAppend(order, items[..n], items[n], key);
        HasKeyOfAppend(order, t, retained[n], key);
        if order.IsEqual(items[n].key, key) {
          SameRank(order, t, items[n].key, key);
        }
        assert items == items[..n] + [items[n]];
      }
    }
  }

  /** The positions of the items that are added. */
  ghost function NewItems(order: KeyOrder, s: seq<Pair>, items: seq<Pair>): seq<nat> {
    if |items| == 0 then []
    else
      var n := |items| - 1;
      NewItems(order, s, items[..n]) + if HasKey(order, s + items[..n], items[n].key) then [] else [n]
  }

  /** They ascend, and are those of the items whose key is equal to no key of `s` and of no
      earlier item. */
  lemma {:induction false} NewItemsAre(order: KeyOrder, s: seq<Pair>, items: seq<Pair>)
    ensures var at := NewItems(order, s, items);
            && (forall k :: 0 <= k < |at| ==> at[k] < |items|)
            && (forall k, l :: 0 <= k < l < |at| ==> at[k] < at[l])
            && (forall i :: 0 <= i < |items| ==> (i in at <==> !HasKey(order, s + items[..i], items[i].key)))
  {
    hide HasKey;
    if |items| == 0 {
    } else {
      var n := |items| - 1;
      var before := NewItems(order, s, items[..n]);
      NewItemsAre(order, s, items[..n]);
      forall i | 0 <= i < n
        ensures i in before <==> !HasKey(order, s + items[..i], items[i].key)
      {
        assert items[..n][..i] == items[..i];
      }
    }
  }

  /** Exactly these are added, in this order. */
  lemma {:induction false} AddMissingIs(order: KeyOrder, s: seq<Pair>, items: seq<Pair>, retained: seq<Pair>)
    requires |items| == |retained|
    requires forall i :: 0 <= i < |items| ==> order.IsEqual(items[i].key, retained[i].key)
    ensures var at, t := NewItems(order, s, items), AddMissing(order, s, items, retained);
            && |t| == |s| + |at| && t[..|s|] == s
            && forall k :: 0 <= k < |at| ==> at[k] < |items| && t[|s| + k] == retained[at[k]]
  {
    if |items| == 0 {
    } else {
      var n := |items| - 1;
      NewKey(order, s, items, retained);
      AddMissingIs(order, s, items[..n], retained[..n]);
      hide HasKey;
      assert forall k :: 0 <= k < n ==> retained[..n][k] == retained[k];
    }
  }

  /** The key of the last item is new when no key before it is equal. */
  lemma NewKey(order: KeyOrder, s: seq<Pair>, items: seq<Pair>, retained: seq<Pair>)
    requires |items| == |retained| > 0
    requires forall i :: 0 <= i < |items| ==> order.IsEqual(items[i].key, retained[i].key)
    ensures var n := |items| - 1;
            HasKey(order, AddMissing(order, s, items[..n], retained[..n]), items[n].key)
            <==> HasKey(order, s + items[..n], items[n].key)
  {
    var n := |items| - 1;
    var key := items[n].key;
    AddMissingKeys(order, s, items[..n], retained[..n]);
    if HasKey(order, s, key) {
      var i :| 0 <= i < |s| && order.IsEqual(s[i].key, key);
      assert (s + items[..n])[i] == s[i];
    }
    if HasKey(order, items[..n], key) {
      var i :| 0 <= i < n && order.IsEqual(items[i].key, key);
      assert (s + items[..n])[|s| + i] == items[i];
    }
  }

  lemma SameRank(order: KeyOrder, s: seq<Pair>, a: Pointer, b: Pointer)
    requires order.IsEqual(a, b)
    ensures HasKey(order, s, a) <==> HasKey(order, s, b)
  {
  }

  lemma HasKeyOfAppend(order: KeyOrder, s: seq<Pair>, p: Pair, key: Pointer)
    ensures HasKey(order, s + [p], key) <==> HasKey(order, s, key) || order.IsEqual(p.key, key)
  {
    if order.IsEqual(p.key, key) {
      assert (s + [p])[|s|] == p;
    }
    if HasKey(order, s, key) {
      var i :| 0 <= i < |s| && order.IsEqual(s[i].key, key);
      assert (s + [p])[i] == s[i];
    }
  }

  // ----- the map -----

  /** No two pairs have equal keys. */
  ghost predicate Distinct(order: KeyOrder, bag: multiset<Pair>) {
    && (forall p :: p in bag ==> bag[p] == 1)
    && (forall p, q :: p in bag && q in bag && order.IsEqual(p.key, q.key) ==> p == q)
  }

  /** The pair of each rank of a key. */
  ghost function AsMap(order: KeyOrder, bag: multiset<Pair>): map<int, Pair>
    requires Distinct(order, bag)
  {
    map p | p in bag :: order.rank(p.key) := p
  }

  lemma HasKeyInMap(order: KeyOrder, s: seq<Pair>, key: Pointer)
    requires Distinct(order, multiset(s))
    ensures HasKey(order, s, key) <==> order.rank(key) in AsMap(order, multiset(s))
  {
    if HasKey(order, s, key) {
      var i :| 0 <= i < |s| && order.IsEqual(s[i].key, key);
      assert s[i] in multiset(s);
    }
    if p :| p in multiset(s) && order.rank(p.key) == order.rank(key) {
      assert p in s;
    }
  }

  lemma SameMembers(s: seq<Pair>, t: seq<Pair>)
    requires multiset(s) == multiset(t)
    ensures forall p :: p in s <==> p in t
  {
    forall p ensures p in s <==> p in t {
      assert p in s <==> p in multiset(s);
      assert p in t <==> p in multiset(t);
    }
  }

  /** A map is the map of a bag when it has exactly the pairs of the bag. */
  lemma MapOf(order: KeyOrder, bag: multiset<Pair>, m: map<int, Pair>)
    requires Distinct(order, bag)
    requires forall p :: p in bag ==> order.rank(p.key) in m && m[order.rank(p.key)] == p
    requires forall r :: r in m ==> m[r] in bag && order.rank(m[r].key) == r
    ensures AsMap(order, bag) == m
  {
    assert AsMap(order, bag).Keys == m.Keys;
  }

  lemma MapAt(order: KeyOrder, bag: multiset<Pair>)
    requires Distinct(order, bag)
    ensures forall p :: p in bag ==>
              order.rank(p.key) in AsMap(order, bag) && AsMap(order, bag)[order.rank(p.key)] == p
    ensures forall r :: r in AsMap(order, bag) ==>
              AsMap(order, bag)[r] in bag && order.rank(AsMap(order, bag)[r].key) == r
  {
  }

  lemma AddToMap(order: KeyOrder, bag: multiset<Pair>, p: Pair)
    requires Distinct(order, bag) && order.rank(p.key) !in AsMap(order, bag)
    ensures Distinct(order, bag + multiset{p})
    ensures AsMap(order, bag + multiset{p}) == AsMap(order, bag)[order.rank(p.key) := p]
  {
    hide AsMap;
    MapAt(order, bag);
    var more := bag + multiset{p};
    forall q ensures more[q] == bag[q] + if q == p then 1 else 0 {
    }
    assert Distinct(order, more);
    hide Distinct;
    MapOf(order, more, AsMap(order, bag)[order.rank(p.key) := p]);
  }

  lemma RemovedOne(order: KeyOrder, bag: multiset<Pair>, p: Pair)
    requires Distinct(order, bag) && p in bag
    ensures RemovedAll(order, bag, bag - multiset{p}, p.key)
  {
    var rest := bag - multiset{p};
    forall q ensures rest[q] == if order.IsEqual(q.key, p.key) then 0 else bag[q] {
      assert q != p ==> rest[q] == bag[q];
    }
  }

  lemma ReplaceInMap(order: KeyOrder, bag: multiset<Pair>, p: Pair, q: Pair)
    requires Distinct(order, bag) && p in bag && order.IsEqual(p.key, q.key)
    ensures Distinct(order, bag - multiset{p} + multiset{q})
    ensures AsMap(order, bag - multiset{p} + multiset{q}) == AsMap(order, bag)[order.rank(q.key) := q]
  {
    var rest := bag - multiset{p};
    RemovedOne(order, bag, p);
    hide Distinct, AsMap, RemovedAll;
    assert order.rank(q.key) !in AsMap(order, bag) - {order.rank(p.key)};
    RemoveFromMap(order, bag, rest, p.key);
    AddToMap(order, rest, q);
  }

  lemma RemoveFromMap(order: KeyOrder, bag: multiset<Pair>, rest: multiset<Pair>, key: Pointer)
    requires Distinct(order, bag)
    requires RemovedAll(order, bag, rest, key)
    ensures Distinct(order, rest)
    ensures AsMap(order, rest) == AsMap(order, bag) - {order.rank(key)}
  {
    hide AsMap;
    MapAt(order, bag);
    assert Distinct(order, rest);
    hide Distinct;
    MapOf(order, rest, AsMap(order, bag) - {order.rank(key)});
  }

  /** The last of sorted pairs is the only one with its rank, so it is determined. */
  lemma LastIsSame(order: KeyOrder, s: seq<Pair>, t: seq<Pair>)
    requires Sorted(order, s) && Sorted(order, t) && |s| == |t| > 0
    requires multiset(s) == multiset(t) && Distinct(order, multiset(s))
    ensures s[|s| - 1] == t[|s| - 1]
  {
    hide Distinct;
    var n := |s| - 1;
    assert s[n] in multiset(t) && t[n] in multiset(s);
    var i :| 0 <= i < |t| && t[i] == s[n];
    var j :| 0 <= j < |s| && s[j] == t[n];
    SamePair(order, multiset(s), s[n], t[n]);
  }

  lemma SamePair(order: KeyOrder, bag: multiset<Pair>, p: Pair, q: Pair)
    requires Distinct(order, bag) && p in bag && q in bag && order.IsEqual(p.key, q.key)
    ensures p == q
  {
  }

  lemma DistinctPrefix(order: KeyOrder, s: seq<Pair>, n: nat)
    requires n + 1 == |s| && Distinct(order, multiset(s))
    ensures multiset(s) == multiset(s[..n]) + multiset{s[n]}
    ensures Distinct(order, multiset(s[..n]))
  {
    assert s == s[..n] + [s[n]];
    forall p ensures multiset(s[..n])[p] <= multiset(s)[p] {
    }
  }

  lemma SameRest<T>(a: multiset<T>, b: multiset<T>, x: T)
    requires a + multiset{x} == b + multiset{x}
    ensures a == b
  {
    assert a + multiset{x} - multiset{x} == a && b + multiset{x} - multiset{x} == b;
  }

  lemma PrefixesAgree(order: KeyOrder, s: seq<Pair>, t: seq<Pair>)
    requires Sorted(order, s) && Sorted(order, t) && |s| == |t| > 0
    requires multiset(s) == multiset(t) && Distinct(order, multiset(s))
    ensures var n := |s| - 1;
            && s[n] == t[n] && multiset(s[..n]) == multiset(t[..n]) && Distinct(order, multiset(s[..n]))
            && Sorted(order, s[..n]) && Sorted(order, t[..n])
  {
    var n := |s| - 1;
    LastIsSame(order, s, t);
    assert Sorted(order, s[..n]) && Sorted(order, t[..n]);
    hide Sorted;
    DistinctPrefix(order, s, n);
    DistinctPrefix(order, t, n);
    hide Distinct;
    SameRest(multiset(s[..n]), multiset(t[..n]), s[n]);
  }

  /** Pairs with distinct keys can be sorted in one way only. */
  lemma {:induction false} SortIsUnique(order: KeyOrder, s: seq<Pair>, t: seq<Pair>)
    requires Sorted(order, s) && Sorted(order, t)
    requires multiset(s) == multiset(t) && Distinct(order, multiset(s))
    ensures s == t
    decreases |s|
  {
    hide Sorted, Distinct;
    assert |s| == |multiset(s)| == |multiset(t)| == |t|;
    if |s| == 0 {
    } else {
      var n := |s| - 1;
      PrefixesAgree(order, s, t);
      SortIsUnique(order, s[..n], t[..n]);
      assert s == s[..n] + [s[n]] && t == t[..n] + [t[n]];
    }
  }

  ghost predicate IsSortOf(order: KeyOrder, t: seq<Pair>, bag: multiset<Pair>) {
    Sorted(order, t) && multiset(t) == bag
  }

  /** Some sorted order of the pairs, with the pair at `i` written over. */
  ghost predicate IsSortWith(order: KeyOrder, s: seq<Pair>, bag: multiset<Pair>, i: nat, p: Pair) {
    exists t :: IsSortOf(order, t, bag) && i < |t| && s == t[i := p]
  }

  lemma OnlySort(order: KeyOrder, s: seq<Pair>)
    requires Sorted(order, s) && Distinct(order, multiset(s))
    ensures forall t :: IsSortOf(order, t, multiset(s)) ==> t == s
  {
    forall t | IsSortOf(order, t, multiset(s)) ensures t == s {
      SortIsUnique(order, t, s);
    }
  }

  lemma LastIsNew(order: KeyOrder, s: seq<Pair>, n: nat)
    requires n + 1 == |s| && Distinct(order, multiset(s)) && Distinct(order, multiset(s[..n]))
    requires multiset(s) == multiset(s[..n]) + multiset{s[n]}
    ensures order.rank(s[n].key) !in AsMap(order, multiset(s[..n]))
  {
    var before := multiset(s[..n]);
    assert multiset(s)[s[n]] == 1;
    if p :| p in before && order.rank(p.key) == order.rank(s[n].key) {
      assert p in multiset(s) && s[n] in multiset(s);
    }
  }

  /** The map has as many keys as there are pairs. */
  lemma {:induction false} MapSize(order: KeyOrder, s: seq<Pair>)
    requires Distinct(order, multiset(s))
    ensures |AsMap(order, multiset(s))| == |s|
  {
    if |s| == 0 {
      assert AsMap(order, multiset(s)) == map[];
    } else {
      hide Distinct, AsMap;
      var n := |s| - 1;
      DistinctPrefix(order, s, n);
      MapSize(order, s[..n]);
      LastIsNew(order, s, n);
      AddToMap(order, multiset(s[..n]), s[n]);
    }
  }

  // ----- runs -----

  datatype AssocOp =
    | Set(pair: Pair, retained: Pair)
    | Get(key: Pointer)
    | Remove(key: Pointer)
    | Sort
    | Reset

  ghost predicate Legal(order: KeyOrder, op: AssocOp) {
    op.Set? ==> order.IsEqual(op.pair.key, op.retained.key)
  }

  /** Does the operation search, which is limited to MAX_BSEARCH pairs? */
  ghost predicate Searches(op: AssocOp) {
    op.Set? || op.Get? || op.Remove?
  }

  ghost function StepMap(order: KeyOrder, m: map<int, Pair>, op: AssocOp): map<int, Pair> {
    match op
    case Set(_, retained) => m[order.rank(retained.key) := retained]
    case Remove(key) => m - {order.rank(key)}
    case Reset => map[]
    case _ => m
  }

  /** A lookup answers the value, or NULL. */
  ghost function ValueIn(order: KeyOrder, m: map<int, Pair>, key: Pointer): Pointer {
    if order.rank(key) in m then m[order.rank(key)].value else NULL
  }

  /** The map holds the value of the pair with an equal key, if there is one. */
  lemma ValueAt(order: KeyOrder, s: seq<Pair>, key: Pointer)
    requires Distinct(order, multiset(s))
    ensures forall p :: p in s && order.IsEqual(p.key, key) ==>
              ValueIn(order, AsMap(order, multiset(s)), key) == p.value
    ensures (forall p :: p in s ==> !order.IsEqual(p.key, key)) ==>
              ValueIn(order, AsMap(order, multiset(s)), key) == NULL
  {
    var bag := multiset(s);
    assert forall p :: p in s <==> p in bag;
    MapAt(order, bag);
    hide AsMap, Distinct;
    forall p | p in s && order.IsEqual(p.key, key) ensures ValueIn(order, AsMap(order, bag), key) == p.value {
      assert order.rank(p.key) in AsMap(order, bag);
    }
  }

  /** The map after a run and what its lookups have answered. */
  ghost function RunMap(order: KeyOrder, m: map<int, Pair>, ops: seq<AssocOp>): (map<int, Pair>, seq<Pointer>) {
    if |ops| == 0 then (m, [])
    else
      var op := ops[|ops| - 1];
      var (before, out) := RunMap(order, m, ops[..|ops| - 1]);
      (StepMap(order, before, op), if op.Get? then out + [ValueIn(order, before, op.key)] else out)
  }

  /** Later operations that neither reset nor set or remove an equal key do not matter. */
  ghost predicate LeavesAlone(order: KeyOrder, op: AssocOp, key: Pointer) {
    && !op.Reset?
    && (op.Set? ==> !order.IsEqual(op.pair.key, key))
    && (op.Remove? ==> !order.IsEqual(op.key, key))
  }

  /** After any run a lookup answers what was set last, NULL when the key has been removed
      since, and what the map held before when no operation concerns the key. */
  lemma {:induction false} LastSetWins(order: KeyOrder, m: map<int, Pair>, ops: seq<AssocOp>, at: nat, key: Pointer)
    requires at <= |ops| && forall i :: 0 <= i < |ops| ==> Legal(order, ops[i])
    requires forall i :: at <= i < |ops| ==> LeavesAlone(order, ops[i], key)
    ensures var value := ValueIn(order, RunMap(order, m, ops).0, key);
            if at == 0 then value == ValueIn(order, m, key)
            else match ops[at - 1]
                 case Set(pair, retained) => order.IsEqual(pair.key, key) ==> value == retained.value
                 case Remove(k) => order.IsEqual(k, key) ==> value == NULL
                 case Reset => value == NULL
                 case _ => true
  {
    if |ops| == 0 {
    } else {
      var before := ops[..|ops| - 1];
      if at < |ops| {
        LastSetWins(order, m, before, at, key);
      }
    }
  }
}
