/** Removing a range from a range set (src/rangeset/mulle--rangeset.c): the single cuts, which
    come in the order in which the search finds ranges, and what they amount to. */
module RangeCuts {
  import opened Ranges
  import opened RangeSetModel

  // ----- what a removal leaves -----

  /** The part of `f` before `r`, if there is any. */
  ghost function FrontOf(f: Range, r: Range): seq<Range> {
    if f.location < r.location then [Span(f.location, r.location)] else []
  }

  /** The part of `f` behind `r`, if there is any. */
  ghost function TailOf(f: Range, r: Range): seq<Range> {
    if r.Max() < f.Max() then [Span(r.Max(), f.Max())] else []
  }

  /** `f` reaches beyond `r` on both sides. */
  ghost predicate Surrounds(f: Range, r: Range) {
    f.location < r.location && r.Max() < f.Max()
  }

  /** The array with a hole in the range at `i`: what trails the hole is inserted anew. */
  ghost function Holed(s: seq<Range>, i: nat, r: Range): seq<Range>
    requires i < |s|
  {
    InsertAbsent(s[i := Span(s[i].location, r.location)], Span(r.Max(), s[i].Max()))
  }

  /** What is left of the ranges from `a` to `b`, which meet `r`: the front of the first and
      the tail of the last. */
  ghost function Ends(s: seq<Range>, r: Range, a: nat, b: nat): seq<Range>
    requires a < b <= |s|
  {
    s[..a] + FrontOf(s[a], r) + TailOf(s[b - 1], r) + s[b..]
  }

  /** Replace the ranges that meet `r` by what is left of the first and the last of them. */
  ghost function Removed(s: seq<Range>, r: Range): seq<Range>
    requires WellFormed(s)
  {
    if r.length == 0 || !r.IsValid() || !Meeting(s, r) then s
    else
      MeetingSlice(s, r);
      var a, b := EndBefore(s, r.location), StartBefore(s, r.Max());
      if a + 1 == b && Surrounds(s[a], r) then Holed(s, a, r)
      else Ends(s, r, a, b)
  }

  // ----- one cut -----

  /** `r` cut out of the range at `i`. */
  ghost function Cut(s: seq<Range>, i: nat, r: Range): seq<Range>
    requires i < |s|
  {
    if r.Includes(s[i]) then s[..i] + s[i + 1..]
    else if Surrounds(s[i], r) then Holed(s, i, r)
    else if r.Max() < s[i].Max() then s[i := Span(r.Max(), s[i].Max())]
    else s[i := Span(s[i].location, r.location)]
  }

  /** One step of a removal: `r` has been cut out of range `i` and nothing else changed. */
  ghost predicate IsCut(s: seq<Range>, i: nat, r: Range, t: seq<Range>)
    requires i < |s|
  {
    && WellFormed(t)
    && Points(t) == Points(s) - s[i].Points() * r.Points()
    && (Separated(s) ==> Separated(t))
  }

  /** Dropping one range takes its points away. */
  lemma DropAt(s: seq<Range>, i: nat)
    requires WellFormed(s) && i < |s|
    ensures WellFormed(s[..i] + s[i + 1..])
    ensures Separated(s) ==> Separated(s[..i] + s[i + 1..])
    ensures Points(s[..i] + s[i + 1..]) == Points(s) - s[i].Points()
  {
    hide WellFormed, Separated, Points;
    DropInOrder(s, i, s[..i] + s[i + 1..]);
    DropPoints(s, i);
  }

  lemma DropPoints(s: seq<Range>, i: nat)
    requires WellFormed(s) && i < |s|
    ensures Points(s[..i] + s[i + 1..]) == Points(s) - s[i].Points()
  {
    hide WellFormed, Points;
    PointsAround(s[..i], s[i], s[i + 1..]);
    PointsOfConcat(s[..i], s[i + 1..]);
    assert s == s[..i] + [s[i]] + s[i + 1..];
    OnlyThere(s, i);
  }

  /** Shortening one range takes away what it lost. */
  lemma TrimAt(s: seq<Range>, i: nat, g: Range)
    requires WellFormed(s) && i < |s| && g.length > 0 && s[i].Includes(g)
    ensures WellFormed(s[i := g])
    ensures Separated(s) ==> Separated(s[i := g])
    ensures Points(s[i := g]) == Points(s) - (s[i].Points() - g.Points())
  {
    hide WellFormed, Separated, Points, Range.Points;
    TrimInOrder(s, i, g);
    PointsAround(s[..i], s[i], s[i + 1..]);
    PointsAround(s[..i], g, s[i + 1..]);
    assert s == s[..i] + [s[i]] + s[i + 1..];
    assert s[i := g] == s[..i] + [g] + s[i + 1..];
    OnlyThere(s, i);
    IncludedPoints(s[i], g);
  }

  lemma IncludedPoints(f: Range, g: Range)
    ensures f.Includes(g) ==> g.Points() <= f.Points()
  {
    assert f.Includes(g) ==> forall x :: g.Has(x) ==> f.Has(x);
  }

  lemma TrimInOrder(s: seq<Range>, i: nat, g: Range)
    requires WellFormed(s) && i < |s| && g.length > 0 && s[i].Includes(g)
    ensures WellFormed(s[i := g])
    ensures Separated(s) ==> Separated(s[i := g])
  {
  }

  /** A range cut in the middle: the front stays, the tail comes back as a new range. */
  lemma SplitAt(s: seq<Range>, i: nat, r: Range)
    requires WellFormed(s) && i < |s| && r.length > 0
    requires s[i].location < r.location && r.Max() < s[i].Max()
    ensures var front := Span(s[i].location, r.location);
            var tail := Span(r.Max(), s[i].Max());
            && WellFormed(s[i := front]) && !Meeting(s[i := front], tail) && tail.IsValid()
            && IsCut(s, i, r, InsertAbsent(s[i := front], tail))
  {
    var front, tail := Span(s[i].location, r.location), Span(r.Max(), s[i].Max());
    TrimAt(s, i, front);
    var t := s[i := front];
    forall k | 0 <= k < |t| ensures !t[k].Meets(tail) {
      assert k < i ==> s[k].Max() <= s[i].location;
      assert i < k ==> s[i].Max() <= s[k].location;
    }
    InsertAbsentSpec(t, tail);
    if Separated(s) {
      InsertAbsentSeparated(t, tail);
    }
    CutPoints(s[i], r, front, tail);
    OwnPoints(s, i);
  }

  lemma CutPoints(f: Range, r: Range, front: Range, tail: Range)
    requires f.location < r.location && r.length > 0 && r.Max() < f.Max()
    requires front == Span(f.location, r.location) && tail == Span(r.Max(), f.Max())
    ensures f.Points() - r.Points() == front.Points() + tail.Points()
  {
    forall x: int ensures x in f.Points() - r.Points() <==> x in front.Points() + tail.Points() {
      assert f.Has(x) && !r.Has(x) <==> front.Has(x) || tail.Has(x);
    }
  }

  /** A cut that leaves nothing of the range. */
  lemma CutWhole(s: seq<Range>, i: nat, r: Range)
    requires WellFormed(s) && i < |s| && r.Includes(s[i])
    ensures IsCut(s, i, r, s[..i] + s[i + 1..]) && WellFormed(s[..i] + s[i + 1..])
  {
    hide WellFormed, Separated, Points;
    DropAt(s, i);
    IncludedPoints(r, s[i]);
    assert s[i].Points() * r.Points() == s[i].Points();
  }

  /** A cut that leaves `g`, the part on one side of `r`. */
  lemma CutOneSide(s: seq<Range>, i: nat, r: Range, g: Range)
    requires WellFormed(s) && i < |s| && s[i].Meets(r) && g.length > 0
    requires (r.location <= s[i].location && g == Span(r.Max(), s[i].Max()))
             || (s[i].Max() <= r.Max() && g == Span(s[i].location, r.location))
    ensures IsCut(s, i, r, s[i := g]) && WellFormed(s[i := g])
  {
    hide WellFormed, Separated, Points;
    TrimAt(s, i, g);
    OneSidePoints(s[i], r, g);
  }

  lemma OneSidePoints(f: Range, r: Range, g: Range)
    requires f.Meets(r) && g.length > 0
    requires (r.location <= f.location && g == Span(r.Max(), f.Max()))
             || (f.Max() <= r.Max() && g == Span(f.location, r.location))
    ensures f.Points() - g.Points() == f.Points() * r.Points()
  {
    forall x: int ensures x in f.Points() - g.Points() <==> x in f.Points() * r.Points() {
      assert f.Has(x) ==> (r.Has(x) <==> !g.Has(x));
    }
  }

  /** A cut removes points of `r`, at least one, and no others. */
  lemma CutShrinks(s: seq<Range>, i: nat, r: Range, t: seq<Range>)
    requires i < |s| && s[i].Meets(r) && IsCut(s, i, r, t)
    ensures Points(t) - r.Points() == Points(s) - r.Points() && Points(t) <= Points(s)
    ensures Separated(s) ==> Separated(t)
    ensures |Points(t) * r.Points()| < |Points(s) * r.Points()|
  {
    hide WellFormed, Separated, Points;
    var x := MaxOf(s[i].location, r.location);
    assert s[i].Has(x) && r.Has(x);
    OwnPoints(s, i);
    Smaller(Points(t) * r.Points(), Points(s) * r.Points(), x);
  }

  lemma Smaller(a: set<int>, b: set<int>, x: int)
    requires a <= b && x in b && x !in a
    ensures |a| < |b|
  {
    assert a <= b - {x};
    SubsetSize(a, b - {x});
  }

  lemma SubsetSize(a: set<int>, b: set<int>)
    requires a <= b
    ensures |a| <= |b|
  {
    assert b == a + (b - a);
  }

  lemma CutSpec(s: seq<Range>, i: nat, r: Range)
    requires WellFormed(s) && i < |s| && r.length > 0 && s[i].Meets(r)
    ensures WellFormed(Cut(s, i, r)) && IsCut(s, i, r, Cut(s, i, r))
  {
    hide WellFormed, Separated, Points, Meeting, IsCut;
    Neighbours(s, i);
    if r.Includes(s[i]) {
      CutWhole(s, i, r);
    } else if Surrounds(s[i], r) {
      SplitAt(s, i, r);
      CutIsWellFormed(s, i, r, Holed(s, i, r));
    } else if r.Max() < s[i].Max() {
      CutOneSide(s, i, r, Span(r.Max(), s[i].Max()));
    } else {
      CutOneSide(s, i, r, Span(s[i].location, r.location));
    }
  }

  lemma CutIsWellFormed(s: seq<Range>, i: nat, r: Range, t: seq<Range>)
    requires i < |s| && IsCut(s, i, r, t)
    ensures WellFormed(t)
  {
  }

  // ----- the order of the cuts does not matter -----

  /** What is left, given the positions of the ranges that meet `r`. */
  lemma RemovedAt(s: seq<Range>, r: Range, a: nat, b: nat)
    requires WellFormed(s) && r.length > 0 && r.IsValid() && a <= b <= |s|
    requires EndBefore(s, r.location) == a && StartBefore(s, r.Max()) == b
    ensures a == b ==> Removed(s, r) == s
    ensures a + 1 == b && Surrounds(s[a], r) ==> Removed(s, r) == Holed(s, a, r)
    ensures a < b && !(a + 1 == b && Surrounds(s[a], r)) ==> Removed(s, r) == Ends(s, r, a, b)
  {
    MeetingSlice(s, r);
    hide WellFormed, Meeting, EndBefore, StartBefore, Holed, Ends, Surrounds;
  }

  /** Where the ranges that meet `r` are, after the one at `i` has been dropped. */
  lemma DropPositions(s: seq<Range>, i: nat, r: Range)
    requires WellFormed(s) && i < |s| && r.length > 0 && s[i].Meets(r)
    ensures var t, a, b := s[..i] + s[i + 1..], EndBefore(s, r.location), StartBefore(s, r.Max());
            && a <= i < b && EndBefore(t, r.location) == a && StartBefore(t, r.Max()) == b - 1
  {
    hide EndBefore, StartBefore;
    MeetingSlice(s, r);
    var t, a, b := s[..i] + s[i + 1..], EndBefore(s, r.location), StartBefore(s, r.Max());
    assert i < |t| ==> s[i].Max() <= s[i + 1].location;
    assert s[i + 1..] == t[i..];
    EndBeforeIs(t, r.location, a);
    StartBeforeIs(t, r.Max(), b - 1);
  }

  lemma DropKeepsRemoved(s: seq<Range>, i: nat, r: Range)
    requires WellFormed(s) && i < |s| && r.length > 0 && r.IsValid() && s[i].Meets(r)
    requires r.Includes(s[i]) && WellFormed(s[..i] + s[i + 1..])
    ensures Removed(s[..i] + s[i + 1..], r) == Removed(s, r)
  {
    hide *;
    var t, a, b := s[..i] + s[i + 1..], EndBefore(s, r.location), StartBefore(s, r.Max());
    DropPositions(s, i, r);
    RemovedAt(s, r, a, b);
    RemovedAt(t, r, a, b - 1);
    DropEnds(s, i, r, a, b);
  }

  lemma DropEnds(s: seq<Range>, i: nat, r: Range, a: nat, b: nat)
    requires WellFormed(s) && a <= i < b <= |s| && r.length > 0
    requires s[i].Meets(r) && r.Includes(s[i])
    ensures var t := s[..i] + s[i + 1..];
            && !(a + 1 == b && Surrounds(s[a], r))
            && (a + 1 == b ==> Ends(s, r, a, b) == t)
            && (a + 1 < b ==>
                  && !(a + 2 == b && Surrounds(t[a], r))
                  && Ends(t, r, a, b - 1) == Ends(s, r, a, b))
  {
    var t := s[..i] + s[i + 1..];
    Ordered(s, i);
    hide WellFormed;
    if a + 1 < b {
      assert FrontOf(t[a], r) == FrontOf(s[a], r);
      assert TailOf(t[b - 2], r) == TailOf(s[b - 1], r);
      assert t[..a] == s[..a] && t[b - 1..] == s[b..];
    }
  }

  /** The ranges before and behind the one at `i`. */
  lemma Ordered(s: seq<Range>, i: nat)
    requires WellFormed(s) && i < |s|
    ensures forall k :: 0 <= k < i ==> s[k].Max() <= s[i].location
    ensures forall k :: i < k < |s| ==> s[i].Max() <= s[k].location
  {
  }

  /** The last range that meets `r` has lost its front. */
  lemma FrontKeepsRemoved(s: seq<Range>, i: nat, r: Range)
    requires WellFormed(s) && i < |s| && r.length > 0 && r.IsValid() && s[i].Meets(r)
    requires r.location <= s[i].location && r.Max() < s[i].Max()
    requires WellFormed(s[i := Span(r.Max(), s[i].Max())])
    ensures Removed(s[i := Span(r.Max(), s[i].Max())], r) == Removed(s, r)
  {
    var t, a := s[i := Span(r.Max(), s[i].Max())], EndBefore(s, r.location);
    LastMeets(s, r, i);
    hide EndBefore, StartBefore;
    MeetingSlice(s, r);
    EndBeforeIs(t, r.location, a);
    StartBeforeIs(t, r.Max(), i);
    RemovedAt(s, r, a, i + 1);
    RemovedAt(t, r, a, i);
    FrontEnds(s, i, r, a);
    hide *;
  }

  lemma FrontEnds(s: seq<Range>, i: nat, r: Range, a: nat)
    requires WellFormed(s) && a <= i < |s| && r.length > 0 && s[i].Meets(r)
    requires r.location <= s[i].location && r.Max() < s[i].Max()
    ensures var t := s[i := Span(r.Max(), s[i].Max())];
            && !(a == i && Surrounds(s[a], r))
            && (a == i ==> Ends(s, r, a, i + 1) == t)
            && (a < i ==>
                  && !(a + 1 == i && Surrounds(t[a], r))
                  && Ends(t, r, a, i) == Ends(s, r, a, i + 1))
  {
    var t := s[i := Span(r.Max(), s[i].Max())];
    Ordered(s, i);
    hide WellFormed;
    assert t[i..] == TailOf(s[i], r) + s[i + 1..];
    if a < i {
      assert FrontOf(t[a], r) == FrontOf(s[a], r) && TailOf(t[i - 1], r) == [];
      assert t[..a] == s[..a];
    }
  }

  /** The first range that meets `r` has lost its tail. */
  lemma TailKeepsRemoved(s: seq<Range>, i: nat, r: Range)
    requires WellFormed(s) && i < |s| && r.length > 0 && r.IsValid() && s[i].Meets(r)
    requires s[i].location < r.location && s[i].Max() <= r.Max()
    requires WellFormed(s[i := Span(s[i].location, r.location)])
    ensures Removed(s[i := Span(s[i].location, r.location)], r) == Removed(s, r)
  {
    var t, b := s[i := Span(s[i].location, r.location)], StartBefore(s, r.Max());
    FirstMeets(s, r, i);
    hide EndBefore, StartBefore;
    MeetingSlice(s, r);
    EndBeforeIs(t, r.location, i + 1);
    StartBeforeIs(t, r.Max(), b);
    RemovedAt(s, r, i, b);
    RemovedAt(t, r, i + 1, b);
    TailEnds(s, i, r, b);
    hide *;
  }

  lemma TailEnds(s: seq<Range>, i: nat, r: Range, b: nat)
    requires WellFormed(s) && i < b <= |s| && r.length > 0 && s[i].Meets(r)
    requires s[i].location < r.location && s[i].Max() <= r.Max()
    ensures var t := s[i := Span(s[i].location, r.location)];
            && !(i + 1 == b && Surrounds(s[i], r))
            && (i + 1 == b ==> Ends(s, r, i, b) == t)
            && (i + 1 < b ==>
                  && !(i + 2 == b && Surrounds(t[i + 1], r))
                  && Ends(t, r, i + 1, b) == Ends(s, r, i, b))
  {
    var t := s[i := Span(s[i].location, r.location)];
    Ordered(s, i);
    hide WellFormed;
    assert t[..i + 1] == s[..i] + FrontOf(s[i], r);
    assert t[b..] == s[b..];
    if i + 1 < b {
      assert FrontOf(t[i + 1], r) == [] && TailOf(t[b - 1], r) == TailOf(s[b - 1], r);
    }
  }

  /** Nothing meets `r` any more after a hole has been made for it. */
  lemma HoleKeepsRemoved(s: seq<Range>, i: nat, r: Range)
    requires WellFormed(s) && i < |s| && r.length > 0 && r.IsValid() && s[i].Meets(r)
    requires Surrounds(s[i], r)
    requires WellFormed(Holed(s, i, r)) && IsCut(s, i, r, Holed(s, i, r))
    ensures Removed(Holed(s, i, r), r) == Removed(s, r)
  {
    FirstMeets(s, r, i);
    LastMeets(s, r, i);
    RemovedAt(s, r, i, i + 1);
    var t := Holed(s, i, r);
    hide WellFormed, EndBefore, StartBefore, Separated, Points, Holed;
    IncludedPoints(s[i], r);
    if k :| 0 <= k < |t| && t[k].Meets(r) {
      CommonPoint(t, k, r);
    }
  }

  /** Whichever range is cut first, the removal leaves the same. */
  lemma CutKeepsRemoved(s: seq<Range>, i: nat, r: Range)
    requires WellFormed(s) && i < |s| && r.length > 0 && r.IsValid() && s[i].Meets(r)
    ensures WellFormed(Cut(s, i, r)) && Removed(Cut(s, i, r), r) == Removed(s, r)
  {
    CutSpec(s, i, r);
    hide WellFormed, Removed, IsCut, Holed;
    if r.Includes(s[i]) {
      DropKeepsRemoved(s, i, r);
    } else if Surrounds(s[i], r) {
      HoleKeepsRemoved(s, i, r);
    } else if r.Max() < s[i].Max() {
      FrontKeepsRemoved(s, i, r);
    } else {
      TailKeepsRemoved(s, i, r);
    }
  }

  // ----- what a removal means -----

  /** What a removal promises of its result `t`. */
  ghost predicate IsRemoval(s: seq<Range>, r: Range, t: seq<Range>) {
    && WellFormed(t)
    && Points(t) == Points(s) - (if r.IsValid() then r.Points() else {})
    && (Separated(s) ==> Separated(t))
  }

  lemma {:induction false} RemovedSpec(s: seq<Range>, r: Range)
    requires WellFormed(s)
    ensures IsRemoval(s, r, Removed(s, r))
    decreases |Points(s) * r.Points()|
  {
    if r.length == 0 {
      assert r.Points() == {};
    } else if r.IsValid() {
      if i :| 0 <= i < |s| && s[i].Meets(r) {
        hide WellFormed, Removed, Points, Separated, IsCut, Cut, Meeting;
        CutSpec(s, i, r);
        CutShrinks(s, i, r, Cut(s, i, r));
        CutKeepsRemoved(s, i, r);
        RemovedSpec(Cut(s, i, r), r);
      } else {
        AbsentPoints(s, r);
      }
    }
  }

  /** Inserting a range that is disjoint from the set and removing it again restores the
      very same array. */
  lemma RemoveUndoesInsert(s: seq<Range>, r: Range)
    requires WellFormed(s) && Separated(s) && r.length > 0 && !Meeting(s, r)
    ensures WellFormed(Inserted(s, r)) && Removed(Inserted(s, r), r) == s
  {
    var t := Inserted(s, r);
    InsertSpec(s, r);
    RemovedSpec(t, r);
    hide WellFormed, Separated, Points, InsertAbsent, Removed;
    if r.IsValid() {
      InsertAbsentSpec(s, r);
      InsertAbsentSeparated(s, r);
      AbsentPoints(s, r);
    }
    Canonical(s, Removed(t, r));
  }
}
