/** Ranges, sorted arrays of ranges, and the points they stand for. The range helpers and
    the two searches belong to another library; they are written here to the contracts
    that src/rangeset and src/rangemap rely on. */
module Ranges {

  /** The greatest location that a range may have, and the out-of-band answer. */
  const LOCATION_MAX: nat := 0x7FFF_FFFF_FFFF_FFFE
  const NOT_FOUND: nat := 0x7FFF_FFFF_FFFF_FFFF

  datatype Range = Range(location: nat, length: nat) {
    /** One past the last location. */
    function Max(): nat {
      location + length
    }

    predicate IsValid() {
      location <= LOCATION_MAX && Max() <= LOCATION_MAX + 1
    }

    predicate Has(x: int) {
      location <= x < Max()
    }

    predicate Includes(other: Range) {
      location <= other.location && other.Max() <= Max()
    }

    predicate Meets(other: Range) {
      MaxOf(location, other.location) < MinOf(Max(), other.Max())
    }

    ghost function Points(): set<int> {
      set x: int | location <= x < Max() && Has(x)
    }
  }

  const INVALID: Range := Range(NOT_FOUND, 0)

  function MaxOf(a: nat, b: nat): nat {
    if a < b then b else a
  }

  function MinOf(a: nat, b: nat): nat {
    if a < b then a else b
  }

  // ----- arrays of ranges -----

  /** Sorted, disjoint, non-empty, valid: what every operation keeps. */
  ghost predicate WellFormed(s: seq<Range>) {
    && (forall i :: 0 <= i < |s| ==> s[i].length > 0 && s[i].IsValid())
    && (forall i, j :: 0 <= i < j < |s| ==> s[i].Max() <= s[j].location)
  }

  /** No two ranges touch. */
  ghost predicate Separated(s: seq<Range>) {
    forall i, j :: 0 <= i < j < |s| ==> s[i].Max() < s[j].location
  }

  ghost predicate Meeting(s: seq<Range>, r: Range) {
    exists i :: 0 <= i < |s| && s[i].Meets(r)
  }

  ghost function Points(s: seq<Range>): set<int> {
    if |s| == 0 then {} else s[0].Points() + Points(s[1..])
  }

  lemma {:induction false} PointIn(s: seq<Range>, x: int)
    ensures x in Points(s) <==> exists i :: 0 <= i < |s| && s[i].Has(x)
  {
    if |s| == 0 {
    } else {
      PointIn(s[1..], x);
      if x in Points(s[1..]) {
        var i :| 0 <= i < |s[1..]| && s[1..][i].Has(x);
        assert s[i + 1].Has(x);
      }
      if i :| 0 <= i < |s| && s[i].Has(x) {
        if i > 0 {
          assert s[1..][i - 1].Has(x);
        }
      }
    }
  }

  lemma {:induction false} PointsOfConcat(s: seq<Range>, t: seq<Range>)
    ensures Points(s + t) == Points(s) + Points(t)
  {
    if |s| == 0 {
      assert s + t == t;
    } else {
      PointsOfConcat(s[1..], t);
      assert (s + t)[1..] == s[1..] + t;
    }
  }

  /** A gap-free list of ranges around a middle one. */
  lemma PointsAround(s: seq<Range>, r: Range, t: seq<Range>)
    ensures Points(s + [r] + t) == Points(s) + r.Points() + Points(t)
  {
    PointsOfConcat(s + [r], t);
    PointsOfConcat(s, [r]);
    assert Points([r]) == r.Points() + Points([]);
  }

  // ----- positions -----

  /** How many ranges lie wholly before `x`. */
  function EndBefore(s: seq<Range>, x: nat): (k: nat)
    ensures k <= |s| && (forall i :: 0 <= i < k ==> s[i].Max() <= x)
    ensures k < |s| ==> s[k].Max() > x
  {
    if |s| == 0 || s[0].Max() > x then 0 else 1 + EndBefore(s[1..], x)
  }

  /** How many ranges begin before `x`. */
  function StartBefore(s: seq<Range>, x: nat): (k: nat)
    ensures k <= |s| && (forall i :: 0 <= i < k ==> s[i].location < x)
    ensures k < |s| ==> s[k].location >= x
  {
    if |s| == 0 || s[0].location >= x then 0 else 1 + StartBefore(s[1..], x)
  }

  lemma StartBeforeIs(s: seq<Range>, x: nat, k: nat)
    requires k <= |s| && (forall i :: 0 <= i < k ==> s[i].location < x) && (k < |s| ==> s[k].location >= x)
    ensures StartBefore(s, x) == k
  {
    hide StartBefore;
    assert StartBefore(s, x) <= k;
  }

  lemma EndBeforeIs(s: seq<Range>, x: nat, k: nat)
    requires k <= |s| && (forall i :: 0 <= i < k ==> s[i].Max() <= x) && (k < |s| ==> s[k].Max() > x)
    ensures EndBefore(s, x) == k
  {
    hide EndBefore;
    assert EndBefore(s, x) <= k;
  }

  /** The ranges that meet `r` are the ones between the two positions. */
  lemma MeetsIffBetween(s: seq<Range>, r: Range, i: nat)
    requires WellFormed(s) && r.length > 0 && i < |s|
    ensures s[i].Meets(r) <==> EndBefore(s, r.location) <= i < StartBefore(s, r.Max())
  {
    hide EndBefore, StartBefore;
    var a, b := EndBefore(s, r.location), StartBefore(s, r.Max());
    assert a < i ==> s[a].Max() <= s[i].location;
    assert b < i ==> s[b].Max() <= s[i].location;
  }

  lemma MeetingSlice(s: seq<Range>, r: Range)
    requires WellFormed(s) && r.length > 0
    ensures EndBefore(s, r.location) <= StartBefore(s, r.Max())
    ensures forall i :: 0 <= i < |s| ==>
                          (s[i].Meets(r) <==> EndBefore(s, r.location) <= i < StartBefore(s, r.Max()))
    ensures Meeting(s, r) <==> EndBefore(s, r.location) < StartBefore(s, r.Max())
  {
    hide EndBefore, StartBefore;
    var a, b := EndBefore(s, r.location), StartBefore(s, r.Max());
    if b < |s| {
      assert s[b].Max() > r.location;
    }
    forall i | 0 <= i < |s| ensures s[i].Meets(r) <==> a <= i < b {
      MeetsIffBetween(s, r, i);
    }
    if a < b {
      assert s[a].Meets(r);
    }
  }

  // ----- edits that keep the order -----

  lemma GlueInOrder(s: seq<Range>, a: nat, b: nat, r: Range, t: seq<Range>)
    requires WellFormed(s) && a <= b <= |s| && r.length > 0 && r.IsValid()
    requires forall i :: 0 <= i < a ==> s[i].Max() <= r.location
    requires forall j :: b <= j < |s| ==> r.Max() <= s[j].location
    requires |t| == a + 1 + |s| - b
    requires forall i {:trigger t[i]} :: 0 <= i < |t| ==>
                                           t[i] == if i < a then s[i] else if i == a then r else s[i - a - 1 + b]
    ensures WellFormed(t)
  {
    forall i | 0 <= i < |t| ensures t[i].length > 0 && t[i].IsValid() {
      assert t[i] == if i < a then s[i] else if i == a then r else s[i - a - 1 + b];
    }
    forall i, j | 0 <= i < j < |t| ensures t[i].Max() <= t[j].location {
      assert j > a ==> t[j] == s[j - a - 1 + b];
      assert i > a ==> t[i] == s[i - a - 1 + b];
      assert i < a ==> t[i] == s[i];
    }
  }

  lemma LeftOf(s: seq<Range>, a: nat, r: Range)
    requires WellFormed(s) && a <= |s| && (a > 0 ==> s[a - 1].Max() <= r.location)
    ensures forall i :: 0 <= i < a ==> s[i].Max() <= r.location
  {
    forall i | 0 <= i < a ensures s[i].Max() <= r.location {
      assert i < a - 1 ==> s[i].Max() <= s[a - 1].location;
    }
  }

  lemma RightOf(s: seq<Range>, b: nat, r: Range)
    requires WellFormed(s) && b <= |s| && (b < |s| ==> r.Max() <= s[b].location)
    ensures forall j :: b <= j < |s| ==> r.Max() <= s[j].location
  {
    forall j | b <= j < |s| ensures r.Max() <= s[j].location {
      assert b < j ==> s[b].Max() <= s[j].location;
    }
  }

  lemma DropInOrder(s: seq<Range>, i: nat, t: seq<Range>)
    requires WellFormed(s) && i < |s| && |t| == |s| - 1
    requires forall k {:trigger t[k]} :: 0 <= k < |t| ==> t[k] == if k < i then s[k] else s[k + 1]
    ensures WellFormed(t)
    ensures Separated(s) ==> Separated(t)
  {
    forall k, l | 0 <= k < l < |t|
      ensures t[k].Max() <= t[l].location && (Separated(s) ==> t[k].Max() < t[l].location)
    {
    }
  }

  // ----- the searches of the range library -----

  /** Some range that meets `r`, or -1 if there is none. */
  method IntersectsBsearch(s: seq<Range>, r: Range) returns (index: int)
    requires WellFormed(s) && r.length > 0
    ensures -1 <= index < |s|
    ensures index >= 0 ==> s[index].Meets(r)
    ensures index == -1 ==> !Meeting(s, r)
  {
    var first, last := 0, |s|;
    while first < last
      invariant 0 <= first <= last <= |s|
      invariant forall i :: 0 <= i < first ==> s[i].Max() <= r.location
      invariant forall i :: last <= i < |s| ==> s[i].location >= r.Max()
    {
      var middle := first + (last - first) / 2;
      if s[middle].Meets(r) {
        return middle;
      }
      if s[middle].Max() <= r.location {
        first := middle + 1;
      } else {
        last := middle;
      }
    }
    return -1;
  }

  /** The position where a range at `location` has to go to keep the array sorted. */
  method HoleBsearch(s: seq<Range>, location: nat) returns (index: nat)
    requires WellFormed(s)
    ensures index <= |s|
    ensures forall i :: 0 <= i < index ==> s[i].location <= location
    ensures forall i :: index <= i < |s| ==> s[i].location >= location
  {
    var first: nat, last: nat := 0, |s|;
    while first < last
      invariant first <= last <= |s|
      invariant forall i :: 0 <= i < first ==> s[i].location <= location
      invariant forall i :: last <= i < |s| ==> s[i].location >= location
    {
      var middle := first + (last - first) / 2;
      if s[middle].location <= location {
        first := middle + 1;
      } else {
        last := middle;
      }
    }
    return first;
  }
}
