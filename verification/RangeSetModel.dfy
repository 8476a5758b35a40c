/** What the operations of src/rangeset/mulle--rangeset.c do to the array of ranges, and
    what that means for the set of points it stands for. */
module RangeSetModel {
  import opened Ranges

  /** `s` with the ranges from `a` up to but not including `b` replaced by `x`. */
  ghost function Replaced(s: seq<Range>, a: nat, b: nat, x: Range): seq<Range>
    requires a <= b <= |s|
  {
    s[..a] + [x] + s[b..]
  }

  ghost function Span(first: nat, end: nat): Range {
    Range(first, if first <= end then end - first else 0)
  }

  // ----- insertion next to what is there -----

  /** Does the range before the place of `r` touch it? */
  ghost predicate JoinsLeft(s: seq<Range>, r: Range) {
    var k := StartBefore(s, r.location);
    k > 0 && s[k - 1].Max() == r.location
  }

  /** Does the range behind the place of `r` touch it? */
  ghost predicate JoinsRight(s: seq<Range>, r: Range) {
    var k := StartBefore(s, r.location);
    k < |s| && r.Max() == s[k].location
  }

  ghost function AbsentFrom(s: seq<Range>, r: Range): (a: nat)
    ensures a <= |s|
  {
    StartBefore(s, r.location) - if JoinsLeft(s, r) then 1 else 0
  }

  ghost function AbsentTo(s: seq<Range>, r: Range): (b: nat)
    ensures AbsentFrom(s, r) <= b <= |s|
  {
    StartBefore(s, r.location) + if JoinsRight(s, r) then 1 else 0
  }

  ghost function AbsentRange(s: seq<Range>, r: Range): Range {
    var k := StartBefore(s, r.location);
    Span(if JoinsLeft(s, r) then s[k - 1].location else r.location,
         if JoinsRight(s, r) then s[k].Max() else r.Max())
  }

  /** Insert a range that meets no other; a neighbour that touches it absorbs it. */
  ghost function InsertAbsent(s: seq<Range>, r: Range): seq<Range> {
    if r.length == 0 then s
    else Replaced(s, AbsentFrom(s, r), AbsentTo(s, r), AbsentRange(s, r))
  }

  // ----- where ranges meet -----

  /** Nothing before a range that begins no later than `r` meets `r`. */
  lemma FirstMeets(s: seq<Range>, r: Range, i: nat)
    requires WellFormed(s) && r.length > 0 && i < |s| && s[i].Meets(r) && s[i].location <= r.location
    ensures EndBefore(s, r.location) == i
  {
    hide StartBefore, EndBefore;
    MeetingSlice(s, r);
    assert forall k :: 0 <= k < i ==> s[k].Max() <= s[i].location;
  }

  /** Nothing after a range that ends no earlier than `r` meets `r`. */
  lemma LastMeets(s: seq<Range>, r: Range, i: nat)
    requires WellFormed(s) && r.length > 0 && i < |s| && s[i].Meets(r) && r.Max() <= s[i].Max()
    ensures StartBefore(s, r.Max()) == i + 1
  {
    hide StartBefore, EndBefore;
    MeetingSlice(s, r);
    assert i + 1 < |s| ==> s[i].Max() <= s[i + 1].location;
  }

  // ----- insertion over what is there -----

  /** The range that spans `r` and the ranges that meet it. */
  ghost function Joined(s: seq<Range>, r: Range): Range
    requires WellFormed(s) && r.length > 0 && Meeting(s, r)
  {
    MeetingSlice(s, r);
    var a, b := EndBefore(s, r.location), StartBefore(s, r.Max());
    Span(MinOf(s[a].location, r.location), MaxOf(s[b - 1].Max(), r.Max()))
  }

  /** Replace the ranges that meet `r` by the one range that spans them and `r`. */
  ghost function Merge(s: seq<Range>, r: Range): seq<Range>
    requires WellFormed(s) && r.length > 0 && Meeting(s, r)
  {
    MeetingSlice(s, r);
    var a, b := EndBefore(s, r.location), StartBefore(s, r.Max());
    Replaced(s, a, b, Joined(s, r))
  }

  ghost function Inserted(s: seq<Range>, r: Range): seq<Range>
    requires WellFormed(s)
  {
    if r.length == 0 || !r.IsValid() then s
    else if Meeting(s, r) then Merge(s, r)
    else InsertAbsent(s, r)
  }

  /** A well-formed array with a slice replaced by one range that fits the gap. */
  lemma Glue(s: seq<Range>, a: nat, b: nat, r: Range)
    requires WellFormed(s) && a <= b <= |s| && r.length > 0 && r.IsValid()
    requires a > 0 ==> s[a - 1].Max() <= r.location
    requires b < |s| ==> r.Max() <= s[b].location
    ensures WellFormed(Replaced(s, a, b, r))
    ensures Points(Replaced(s, a, b, r)) == Points(s[..a]) + r.Points() + Points(s[b..])
  {
    hide Points;
    PointsAround(s[..a], r, s[b..]);
    LeftOf(s, a, r);
    RightOf(s, b, r);
    GlueInOrder(s, a, b, r, Replaced(s, a, b, r));
  }

  lemma SplitPoints(s: seq<Range>, a: nat, b: nat)
    requires a <= b <= |s|
    ensures Points(s) == Points(s[..a]) + Points(s[a..b]) + Points(s[b..])
  {
    hide Points;
    assert s == s[..a] + s[a..b] + s[b..];
    PointsOfConcat(s[..a] + s[a..b], s[b..]);
    PointsOfConcat(s[..a], s[a..b]);
  }

  /** Where a range that meets no other goes. */
  lemma AbsentPosition(s: seq<Range>, r: Range)
    requires WellFormed(s) && r.length > 0 && !Meeting(s, r)
    ensures var k := StartBefore(s, r.location);
            && (k > 0 ==> s[k - 1].Max() <= r.location)
            && (k < |s| ==> r.Max() <= s[k].location)
  {
    hide StartBefore;
    var k := StartBefore(s, r.location);
    assert k > 0 ==> !s[k - 1].Meets(r);
    assert k < |s| ==> !s[k].Meets(r);
  }

  /** The range that takes the place of `r` and of the neighbours that touch it fits between
      the others. */
  lemma AbsentFits(s: seq<Range>, r: Range)
    requires WellFormed(s) && r.IsValid() && r.length > 0 && !Meeting(s, r)
    ensures var a, b, x := AbsentFrom(s, r), AbsentTo(s, r), AbsentRange(s, r);
            && x.length > 0 && x.IsValid() && x.Includes(r)
            && (a > 0 ==> s[a - 1].Max() <= x.location)
            && (b < |s| ==> x.Max() <= s[b].location)
  {
    AbsentPosition(s, r);
    hide WellFormed, StartBefore, Meeting;
    Neighbours(s, StartBefore(s, r.location));
  }

  /** It includes these neighbours. */
  lemma AbsentIncludes(s: seq<Range>, r: Range)
    requires WellFormed(s) && r.IsValid() && r.length > 0 && !Meeting(s, r)
    ensures forall i :: AbsentFrom(s, r) <= i < AbsentTo(s, r) ==> AbsentRange(s, r).Includes(s[i])
  {
    AbsentPosition(s, r);
    hide WellFormed, StartBefore, Meeting;
    Neighbours(s, StartBefore(s, r.location));
  }

  /** It has no points but theirs and those of `r`. */
  lemma AbsentCovers(s: seq<Range>, r: Range)
    requires WellFormed(s) && r.IsValid() && r.length > 0 && !Meeting(s, r)
    ensures forall p: int :: AbsentRange(s, r).Has(p) && !r.Has(p) ==>
                               exists i :: AbsentFrom(s, r) <= i < AbsentTo(s, r) && s[i].Has(p)
  {
    AbsentPosition(s, r);
    hide WellFormed, StartBefore, Meeting;
    var k := StartBefore(s, r.location);
    forall p: int | AbsentRange(s, r).Has(p) && !r.Has(p)
      ensures exists i :: AbsentFrom(s, r) <= i < AbsentTo(s, r) && s[i].Has(p)
    {
      if p < r.location {
        assert s[k - 1].Has(p);
      } else {
        assert s[k].Has(p);
      }
    }
  }

  lemma InsertAbsentSpec(s: seq<Range>, r: Range)
    requires WellFormed(s) && r.IsValid() && r.length > 0 && !Meeting(s, r)
    ensures WellFormed(InsertAbsent(s, r))
    ensures Points(InsertAbsent(s, r)) == Points(s) + r.Points()
  {
    hide WellFormed, Points, Meeting, Replaced, AbsentFrom, AbsentTo, AbsentRange;
    AbsentFits(s, r);
    AbsentIncludes(s, r);
    AbsentCovers(s, r);
    var a, b, x := AbsentFrom(s, r), AbsentTo(s, r), AbsentRange(s, r);
    Glue(s, a, b, x);
    SplitPoints(s, a, b);
    JoinedPoints(s, a, b, r, x);
  }

  /** What lies two places apart, and that ranges are valid and non-empty. */
  lemma Neighbours(s: seq<Range>, k: nat)
    requires WellFormed(s) && k <= |s|
    ensures k > 0 ==> s[k - 1].length > 0 && s[k - 1].IsValid()
    ensures k < |s| ==> s[k].length > 0 && s[k].IsValid()
    ensures 0 < k < |s| ==> s[k - 1].Max() <= s[k].location
    ensures k > 1 ==> s[k - 2].Max() <= s[k - 1].location
    ensures k + 1 < |s| ==> s[k].Max() <= s[k + 1].location
  {
  }

  /** A range that has the points of a slice and of `r`, seen as sets. */
  lemma JoinedPoints(s: seq<Range>, a: nat, b: nat, r: Range, joined: Range)
    requires a <= b <= |s|
    requires forall i :: a <= i < b ==> joined.Includes(s[i])
    requires joined.Includes(r)
    requires forall x: int :: joined.Has(x) && !r.Has(x) ==> exists i :: a <= i < b && s[i].Has(x)
    ensures joined.Points() == Points(s[a..b]) + r.Points()
  {
    forall x: int ensures x in joined.Points() <==> x in Points(s[a..b]) + r.Points() {
      PointIn(s[a..b], x);
      if x in joined.Points() && !r.Has(x) {
        var i :| a <= i < b && s[i].Has(x);
        assert s[a..b][i - a].Has(x);
      }
      if j :| 0 <= j < b - a && s[a..b][j].Has(x) {
        assert joined.Includes(s[a + j]) && s[a..b][j] == s[a + j];
        assert joined.Has(x);
      }
    }
  }

  lemma MergeSpec(s: seq<Range>, r: Range)
    requires WellFormed(s) && r.IsValid() && r.length > 0 && Meeting(s, r)
    ensures WellFormed(Merge(s, r))
    ensures Points(Merge(s, r)) == Points(s) + r.Points()
  {
    hide WellFormed, Meeting, Points, StartBefore, EndBefore;
    MeetingSlice(s, r);
    var a, b := EndBefore(s, r.location), StartBefore(s, r.Max());
    var joined := Span(MinOf(s[a].location, r.location), MaxOf(s[b - 1].Max(), r.Max()));
    Neighbours(s, a);
    Neighbours(s, b);
    Neighbours(s, b - 1);
    Glue(s, a, b, joined);
    SplitPoints(s, a, b);
    SpanCovers(s, a, b, r);
    JoinedPoints(s, a, b, r, joined);
  }

  /** The span of `r` and of the ranges that meet it has their points and no others. */
  lemma SpanCovers(s: seq<Range>, a: nat, b: nat, r: Range)
    requires WellFormed(s) && a < b <= |s| && s[a].Meets(r) && s[b - 1].Meets(r)
    ensures var joined := Span(MinOf(s[a].location, r.location), MaxOf(s[b - 1].Max(), r.Max()));
            && joined.Includes(r)
            && (forall i :: a <= i < b ==> joined.Includes(s[i]))
            && (forall x: int :: joined.Has(x) && !r.Has(x) ==> exists i :: a <= i < b && s[i].Has(x))
  {
    var joined := Span(MinOf(s[a].location, r.location), MaxOf(s[b - 1].Max(), r.Max()));
    forall i | a <= i < b ensures joined.Includes(s[i]) {
      assert a < i ==> s[a].Max() <= s[i].location;
      assert i < b - 1 ==> s[i].Max() <= s[b - 1].location;
    }
    forall x: int | joined.Has(x) && !r.Has(x) ensures exists i :: a <= i < b && s[i].Has(x) {
      if x < r.location {
        assert s[a].Has(x);
      } else {
        assert s[b - 1].Has(x);
      }
    }
  }

  /** Inserting adds exactly the points of a storable range. */
  lemma InsertSpec(s: seq<Range>, r: Range)
    requires WellFormed(s)
    ensures WellFormed(Inserted(s, r))
    ensures Points(Inserted(s, r)) == Points(s) + if r.IsValid() then r.Points() else {}
  {
    if r.length == 0 {
      assert r.Points() == {};
    } else if r.IsValid() {
      if Meeting(s, r) {
        MergeSpec(s, r);
      } else {
        InsertAbsentSpec(s, r);
      }
    }
  }

  // ----- when ranges stay apart -----

  lemma SeparatedNeighbours(s: seq<Range>)
    requires WellFormed(s)
    ensures Separated(s) <==> forall i :: 0 <= i < |s| - 1 ==> s[i].Max() != s[i + 1].location
  {
    if forall i :: 0 <= i < |s| - 1 ==> s[i].Max() != s[i + 1].location {
      forall i, j | 0 <= i < j < |s| ensures s[i].Max() < s[j].location {
        assert s[i].Max() != s[i + 1].location;
        assert i + 1 < j ==> s[i + 1].Max() <= s[j].location;
      }
    }
  }

  /** A range that is glued in between is apart from its neighbours or it is not. */
  lemma GlueSeparated(s: seq<Range>, a: nat, b: nat, r: Range)
    requires WellFormed(s) && Separated(s) && a <= b <= |s|
    requires WellFormed(Replaced(s, a, b, r))
    ensures Separated(Replaced(s, a, b, r)) <==>
            (a > 0 ==> s[a - 1].Max() != r.location) && (b < |s| ==> r.Max() != s[b].location)
  {
    var t := s[..a] + [r] + s[b..];
    SeparatedNeighbours(t);
    forall i | 0 <= i < |t| - 1 && i != a && i + 1 != a ensures t[i].Max() != t[i + 1].location {
      if i > a {
        assert t[i] == s[i - a - 1 + b] && t[i + 1] == s[i - a + b];
      }
    }
    assert a > 0 ==> t[a - 1] == s[a - 1] && t[a - 1 + 1] == r;
    assert b < |s| ==> t[a] == r && t[a + 1] == s[b];
  }

  /** Inserting next to what is there keeps the ranges apart. */
  lemma InsertAbsentSeparated(s: seq<Range>, r: Range)
    requires WellFormed(s) && Separated(s) && r.IsValid() && r.length > 0 && !Meeting(s, r)
    ensures Separated(InsertAbsent(s, r))
  {
    hide WellFormed, Separated, Points, StartBefore, Replaced, Meeting;
    InsertAbsentSpec(s, r);
    var k := StartBefore(s, r.location);
    if k > 0 {
      Apart(s, k - 1);
    }
    Apart(s, k + 1);
    GlueSeparated(s, AbsentFrom(s, r), AbsentTo(s, r), AbsentRange(s, r));
  }

  /** Does `r` begin where a range ends, or end where a range begins? */
  ghost predicate Touches(s: seq<Range>, r: Range) {
    exists i :: 0 <= i < |s| && (s[i].Max() == r.location || r.Max() == s[i].location)
  }

  /** The header promises that no two ranges touch. Starting from such an array, an insert
      keeps the promise exactly when the range overlaps nothing or touches nothing. */
  lemma InsertSeparatedIff(s: seq<Range>, r: Range)
    requires WellFormed(s) && Separated(s) && r.length > 0 && r.IsValid()
    ensures Separated(Inserted(s, r)) <==> !Meeting(s, r) || !Touches(s, r)
  {
    if !Meeting(s, r) {
      InsertAbsentSeparated(s, r);
    } else {
      hide *;
      MergeIsGlue(s, r);
      EdgesTouch(s, r);
      GlueSeparated(s, EndBefore(s, r.location), StartBefore(s, r.Max()), Joined(s, r));
    }
  }

  lemma MergeIsGlue(s: seq<Range>, r: Range)
    requires WellFormed(s) && r.length > 0 && r.IsValid() && Meeting(s, r)
    ensures var a, b := EndBefore(s, r.location), StartBefore(s, r.Max());
            && a <= b <= |s|
            && Inserted(s, r) == Replaced(s, a, b, Joined(s, r))
            && WellFormed(Replaced(s, a, b, Joined(s, r)))
  {
    hide WellFormed, Meeting, StartBefore, EndBefore;
    MergeSpec(s, r);
    MeetingSlice(s, r);
  }

  lemma EdgesTouch(s: seq<Range>, r: Range)
    requires WellFormed(s) && Separated(s) && r.length > 0 && Meeting(s, r)
    ensures var a, b := EndBefore(s, r.location), StartBefore(s, r.Max());
            Touches(s, r) <==> !((a > 0 ==> s[a - 1].Max() != Joined(s, r).location)
                                 && (b < |s| ==> Joined(s, r).Max() != s[b].location))
  {
    hide WellFormed, Separated, Meeting, StartBefore, EndBefore, Touches;
    MeetingSlice(s, r);
    var a, b := EndBefore(s, r.location), StartBefore(s, r.Max());
    TouchesAtEnds(s, r);
    Apart(s, a);
    Apart(s, b);
    Neighbours(s, a);
    Neighbours(s, b - 1);
  }

  lemma Apart(s: seq<Range>, i: nat)
    requires Separated(s)
    ensures 0 < i < |s| ==> s[i - 1].Max() < s[i].location
  {
  }

  /** Only the neighbours of the ranges that meet `r` can touch it. */
  lemma TouchesAtEnds(s: seq<Range>, r: Range)
    requires WellFormed(s) && r.length > 0
    ensures var a, b := EndBefore(s, r.location), StartBefore(s, r.Max());
            Touches(s, r) <==> (a > 0 && s[a - 1].Max() == r.location) || (b < |s| && r.Max() == s[b].location)
  {
    hide StartBefore, EndBefore;
    MeetingSlice(s, r);
    var a, b := EndBefore(s, r.location), StartBefore(s, r.Max());
    forall i, j | 0 <= i < j < |s| ensures s[i].Max() < s[j].Max() {
      assert s[i].Max() <= s[j].location;
    }
    forall i | 0 <= i < |s| && s[i].Max() == r.location ensures i == a - 1 {
      assert a > 0 ==> s[a - 1].Max() <= r.location;
    }
    forall i | 0 <= i < |s| && r.Max() == s[i].location ensures i == b {
      assert i >= b;
    }
  }

  /** The promise fails: [0,5) and [10,15), insert [5,12). */
  lemma InsertCanLeaveTouchingRanges()
    ensures var s := [Range(0, 5), Range(10, 5)];
            WellFormed(s) && Separated(s) && Inserted(s, Range(5, 7)) == [Range(0, 5), Range(5, 10)]
  {
    var s, r := [Range(0, 5), Range(10, 5)], Range(5, 7);
    assert s[1].Meets(r);
    assert s[1..] == [Range(10, 5)] && s[1..][1..] == [];
    assert EndBefore(s[1..], 5) == 0 && EndBefore(s, 5) == 1;
    assert StartBefore(s[1..], 12) == 1 + StartBefore(s[1..][1..], 12) == 1;
    assert StartBefore(s, 12) == 2;
  }

  // ----- canonical form -----

  /** Arrays whose ranges do not touch are determined by their points. */
  lemma {:induction false} Canonical(s: seq<Range>, t: seq<Range>)
    requires WellFormed(s) && Separated(s) && WellFormed(t) && Separated(t)
    requires Points(s) == Points(t)
    ensures s == t
  {
    if |s| == 0 || |t| == 0 {
      FirstPoint(s);
      FirstPoint(t);
    } else {
      SameFirst(s, t);
      SameFirst(t, s);
      assert s[0] == t[0];
      TailPoints(s);
      TailPoints(t);
      Canonical(s[1..], t[1..]);
      assert s == [s[0]] + s[1..] && t == [t[0]] + t[1..];
    }
  }

  lemma FirstPoint(s: seq<Range>)
    requires WellFormed(s)
    ensures |s| > 0 ==> s[0].location in Points(s)
  {
    if |s| > 0 {
      assert s[0].Has(s[0].location);
      PointIn(s, s[0].location);
    }
  }

  /** The first range of `t` begins and ends no later than that of `s` does. */
  lemma SameFirst(s: seq<Range>, t: seq<Range>)
    requires WellFormed(s) && Separated(s) && WellFormed(t) && Separated(t)
    requires Points(s) == Points(t) && |s| > 0 && |t| > 0
    ensures t[0].location <= s[0].location
    ensures t[0].location == s[0].location ==> t[0].Max() <= s[0].Max()
  {
    PointIn(s, s[0].location);
    PointIn(t, s[0].location);
    assert s[0].Has(s[0].location);
    var i :| 0 <= i < |t| && t[i].Has(s[0].location);
    assert i > 0 ==> t[0].Max() < t[i].location;
    PointIn(s, s[0].Max());
    PointIn(t, s[0].Max());
    forall j | 0 <= j < |s| ensures !s[j].Has(s[0].Max()) {
      assert j > 0 ==> s[0].Max() < s[j].location;
    }
    assert !t[0].Has(s[0].Max());
  }

  lemma TailPoints(s: seq<Range>)
    requires WellFormed(s) && |s| > 0
    ensures Points(s[1..]) == Points(s) - s[0].Points()
  {
    forall x: int | x in Points(s[1..]) ensures x !in s[0].Points() {
      PointIn(s[1..], x);
      var i :| 0 <= i < |s[1..]| && s[1..][i].Has(x);
      assert s[0].Max() <= s[i + 1].location;
    }
  }

  lemma AbsentPoints(s: seq<Range>, r: Range)
    requires !Meeting(s, r)
    ensures Points(s) !! r.Points()
  {
    forall x: int | x in Points(s) ensures !r.Has(x) {
      PointIn(s, x);
      var i :| 0 <= i < |s| && s[i].Has(x);
      assert !s[i].Meets(r);
    }
  }

  /** The points of one range are in no other. */
  lemma OnlyThere(s: seq<Range>, i: nat)
    requires WellFormed(s) && i < |s|
    ensures s[i].Points() !! Points(s[..i]) && s[i].Points() !! Points(s[i + 1..])
  {
    forall x: int | s[i].Has(x) ensures x !in Points(s[..i]) && x !in Points(s[i + 1..]) {
      PointIn(s[..i], x);
      PointIn(s[i + 1..], x);
      forall k | 0 <= k < |s| && k != i ensures !s[k].Has(x) {
        assert k < i ==> s[k].Max() <= s[i].location;
        assert i < k ==> s[i].Max() <= s[k].location;
      }
    }
  }

  lemma OwnPoints(s: seq<Range>, i: nat)
    requires i < |s|
    ensures s[i].Points() <= Points(s)
  {
    forall x | s[i].Has(x) ensures x in Points(s) {
      PointIn(s, x);
    }
  }

  // ----- lists of ranges -----

  /** The points of the valid ranges of a list. */
  ghost function Storable(list: seq<Range>): set<int> {
    if |list| == 0 then {}
    else Storable(list[..|list| - 1]) + if list[|list| - 1].IsValid() then list[|list| - 1].Points() else {}
  }

  lemma {:induction false} StorableIs(list: seq<Range>)
    ensures forall x :: x in Storable(list) <==> exists i :: 0 <= i < |list| && list[i].IsValid() && list[i].Has(x)
  {
    if |list| == 0 {
    } else {
      var n := |list| - 1;
      StorableIs(list[..n]);
      forall x
        ensures x in Storable(list) <==> exists i :: 0 <= i < |list| && list[i].IsValid() && list[i].Has(x)
      {
        if x in Storable(list[..n]) {
          var i :| 0 <= i < n && list[..n][i].IsValid() && list[..n][i].Has(x);
          assert list[i].Has(x);
        }
        if i :| 0 <= i < |list| && list[i].IsValid() && list[i].Has(x) {
          assert i < n ==> list[..n][i].Has(x);
        }
      }
    }
  }

  lemma NoneStorable(list: seq<Range>)
    ensures Storable(list[..0]) == {}
  {
  }

  lemma OneMoreStorable(list: seq<Range>, i: nat)
    requires i < |list|
    ensures Storable(list[..i + 1]) == Storable(list[..i]) + if list[i].IsValid() then list[i].Points() else {}
  {
    assert list[..i + 1][..i] == list[..i];
  }

  // ----- queries -----

  lemma NoPoints(s: seq<Range>, r: Range)
    requires |s| == 0 || r.length == 0
    ensures Points(s) !! r.Points()
    ensures |s| == 0 ==> Points(s) == {}
  {
    assert r.length == 0 ==> r.Points() == {};
  }

  lemma CommonPoint(s: seq<Range>, i: nat, r: Range)
    requires i < |s| && s[i].Meets(r)
    ensures !(Points(s) !! r.Points())
  {
    var x := MaxOf(s[i].location, r.location);
    OwnPoints(s, i);
    assert s[i].Has(x) && r.Has(x);
    assert x in Points(s) && x in r.Points();
  }

  lemma ValidRange(s: seq<Range>, i: nat)
    requires WellFormed(s) && i < |s|
    ensures s[i].length > 0 && s[i].IsValid() && s[i] != INVALID
  {
  }

  lemma {:induction false} RangeSize(first: nat, n: nat)
    ensures |Range(first, n).Points()| == n
  {
    if n == 0 {
      assert Range(first, n).Points() == {};
    } else {
      RangeSize(first, n - 1);
      var r, q := Range(first, n), Range(first, n - 1);
      forall x: int ensures x in r.Points() <==> x in q.Points() + {first + n - 1} {
        assert r.Has(x) <==> q.Has(x) || x == first + n - 1;
      }
      assert r.Points() == q.Points() + {first + n - 1};
    }
  }

  /** The lengths add up to the number of points. */
  lemma SumStep(s: seq<Range>, i: nat)
    requires WellFormed(s) && i < |s|
    ensures |Points(s[..i + 1])| == |Points(s[..i])| + s[i].length
  {
    assert s[..i + 1] == s[..i] + [s[i]];
    PointsOfConcat(s[..i], [s[i]]);
    assert Points([s[i]]) == s[i].Points();
    OnlyThere(s, i);
    RangeSize(s[i].location, s[i].length);
  }

  // ----- searching -----

  datatype Direction = Neither | Less | Greater

  /** The operations are bits: an equal bit and a direction. */
  datatype SearchOp = SearchOp(equal: bool, direction: Direction)

  /** How far a location is from the nearest location of a range. */
  function Distance(r: Range, x: nat): int {
    if x < r.location then r.location - x
    else if x < r.Max() then 0
    else x - r.Max() + 1
  }

  /** No range is nearer, and none after it is as near. */
  ghost predicate IsNearest(s: seq<Range>, i: int, x: nat) {
    && 0 <= i < |s|
    && (forall k :: 0 <= k < |s| ==> Distance(s[i], x) <= Distance(s[k], x))
    && (forall k :: i < k < |s| ==> Distance(s[i], x) < Distance(s[k], x))
  }

  lemma HolderIsNearest(s: seq<Range>, i: nat, x: nat)
    requires WellFormed(s) && i < |s| && s[i].Meets(Range(x, 1))
    ensures IsNearest(s, i, x)
  {
    forall k | i < k < |s| ensures Distance(s[i], x) < Distance(s[k], x) {
      assert s[i].Max() <= s[k].location;
    }
  }

  /** Outside all ranges, one of the two beside the hole is nearest. */
  lemma NearestBesideHole(s: seq<Range>, hole: nat, x: nat)
    requires WellFormed(s) && 0 < |s| && hole <= |s| && !Meeting(s, Range(x, 1))
    requires forall i :: 0 <= i < hole ==> s[i].location <= x
    requires forall i :: hole <= i < |s| ==> s[i].location >= x
    ensures var i := if hole == |s| then hole - 1 else hole;
            IsNearest(s, if i > 0 && Distance(s[i], x) > Distance(s[i - 1], x) then i - 1 else i, x)
  {
    var i := if hole == |s| then hole - 1 else hole;
    forall k | 0 <= k < |s|
      ensures k < hole ==> Distance(s[hole - 1], x) <= Distance(s[k], x)
      ensures k >= hole ==> Distance(s[hole], x) <= Distance(s[k], x)
      ensures k > hole ==> Distance(s[hole], x) < Distance(s[k], x)
    {
      assert !s[k].Meets(Range(x, 1));
      if k < hole {
        assert !s[hole - 1].Meets(Range(x, 1));
        assert k < hole - 1 ==> s[k].Max() <= s[hole - 1].location;
      } else {
        assert !s[hole].Meets(Range(x, 1));
        assert hole < k ==> s[hole].Max() <= s[k].location;
      }
    }
    if hole == |s| && i > 0 {
      assert s[i - 1].Max() <= s[i].location;
      assert !s[i].Meets(Range(x, 1)) && !s[i - 1].Meets(Range(x, 1));
    }
  }

  /** The range that a search selects. */
  ghost function RangeFor(s: seq<Range>, x: nat, op: SearchOp): Range {
    if op.equal && exists i :: 0 <= i < |s| && s[i].Has(x) then
      var i :| 0 <= i < |s| && s[i].Has(x);
      s[i]
    else if op.direction == Less then
      var k := StartBefore(s, x);
      if k == 0 then INVALID else s[k - 1]
    else if op.direction == Greater then
      var k := EndBefore(s, x + 1);
      if k == |s| then INVALID else s[k]
    else INVALID
  }

  /** What the header says of a range that is found: a range 2, 3, 4 is `<` 5, 6, ... and
      `<=` 2, 3, ..., it is `>` 0, 1 and `>=` 0, 1, 2. */
  ghost predicate AsDocumented(r: Range, x: nat, op: SearchOp) {
    match op.direction
    case Less => if op.equal then r.location <= x else r.Max() <= x
    case Greater => if op.equal then r.location >= x else r.location > x
    case Neither => r.Has(x)
  }

  /** Does a range reach across the location, so that it lies on both sides of it? */
  ghost predicate Straddled(s: seq<Range>, x: nat, op: SearchOp) {
    match op.direction
    case Less => !op.equal && exists i :: 0 <= i < |s| && s[i].location < x < s[i].Max()
    case Greater =>
      if op.equal then exists i :: 0 <= i < |s| && s[i].location < x < s[i].Max()
      else exists i :: 0 <= i < |s| && s[i].location <= x && x + 1 < s[i].Max()
    case Neither => false
  }

  /** A range that is found is what the header says, exactly when no range straddles the
      location. */
  lemma RangeForAsDocumentedIff(s: seq<Range>, x: nat, op: SearchOp)
    requires WellFormed(s) && RangeFor(s, x, op) != INVALID
    ensures AsDocumented(RangeFor(s, x, op), x, op) <==> !Straddled(s, x, op)
  {
    hide StartBefore, EndBefore;
    var r := RangeFor(s, x, op);
    if op.equal && exists i :: 0 <= i < |s| && s[i].Has(x) {
      var i :| 0 <= i < |s| && s[i].Has(x) && r == s[i];
      OnlyHolds(s, i, x);
    } else if op.direction == Less {
      OnlyHolds(s, StartBefore(s, x) - 1, x);
    } else if op.direction == Greater {
      OnlyHolds(s, EndBefore(s, x + 1), x);
    }
  }

  /** A range that begins no later than `x` and one that ends after it are in order. */
  lemma OnlyHolds(s: seq<Range>, i: nat, x: nat)
    requires WellFormed(s) && i < |s|
    ensures forall k :: 0 <= k < i ==> s[k].Max() <= s[i].location
    ensures forall k :: i < k < |s| ==> s[i].Max() <= s[k].location
  {
  }

  /** The range [2,5) is found `<` 3, although it ends behind, `>` 3, although it begins
      before, and `>=` 3 as well. */
  lemma RangeForCanStraddle()
    ensures var s := [Range(2, 3)];
            && WellFormed(s)
            && RangeFor(s, 3, SearchOp(false, Less)) == Range(2, 3)
            && !AsDocumented(Range(2, 3), 3, SearchOp(false, Less))
            && RangeFor(s, 3, SearchOp(false, Greater)) == Range(2, 3)
            && !AsDocumented(Range(2, 3), 3, SearchOp(false, Greater))
            && RangeFor(s, 3, SearchOp(true, Greater)) == Range(2, 3)
            && !AsDocumented(Range(2, 3), 3, SearchOp(true, Greater))
  {
    var s := [Range(2, 3)];
    assert s[1..] == [];
    assert StartBefore(s, 3) == 1 && EndBefore(s, 4) == 0;
    assert s[0].Has(3);
  }

  /** One step from the nearest range is enough in either direction. */
  lemma NearestDecides(s: seq<Range>, i: nat, x: nat)
    requires WellFormed(s) && IsNearest(s, i, x)
    ensures s[i].Has(x) <==> exists k :: 0 <= k < |s| && s[k].Has(x)
    ensures forall k :: 0 <= k < |s| && s[k].Has(x) ==> k == i
    ensures StartBefore(s, x) == if s[i].location >= x then i else i + 1
    ensures EndBefore(s, x + 1) == if s[i].Max() - 1 <= x then i + 1 else i
    ensures x >= LOCATION_MAX ==> s[i].Max() - 1 <= x && i + 1 == |s|
  {
    hide StartBefore, EndBefore;
    forall k | 0 <= k < |s| && k != i
      ensures !s[k].Has(x)
      ensures k < i ==> s[k].Max() <= x && s[k].location < x
      ensures i < k ==> s[k].location > x
    {
      assert k < i ==> s[k].Max() <= s[i].location;
      assert i < k ==> s[i].Max() <= s[k].location;
      assert Distance(s[i], x) <= Distance(s[k], x);
    }
    StartBeforeIs(s, x, if s[i].location >= x then i else i + 1);
    EndBeforeIs(s, x + 1, if s[i].Max() - 1 <= x then i + 1 else i);
  }

  ghost predicate Candidate(op: SearchOp, y: int, x: nat) {
    || (op.equal && y == x)
    || (op.direction == Less && y < x)
    || (op.direction == Greater && y > x)
  }

  /** The answer of a location search: the closest point that satisfies the operation, or
      the out-of-band value when there is none. */
  ghost predicate IsClosest(points: set<int>, x: nat, op: SearchOp, found: nat) {
    if found == NOT_FOUND then forall y :: y in points ==> !Candidate(op, y, x)
    else
      && found in points && Candidate(op, found, x)
      && forall y :: y in points && Candidate(op, y, x) ==>
                       (y <= found <= x) || (x <= found <= y)
  }

  /** The selected range is one of those stored: the one that has `x`, if the operation asks
      for it and there is one; else the last that begins before `x`, or the first that ends
      after it. Without such a range nothing is selected. */
  lemma RangeForIs(s: seq<Range>, x: nat, op: SearchOp)
    requires WellFormed(s)
    ensures RangeFor(s, x, op) != INVALID ==> RangeFor(s, x, op) in s
    ensures op.equal && (exists i :: 0 <= i < |s| && s[i].Has(x)) ==>
              RangeFor(s, x, op) in s && RangeFor(s, x, op).Has(x)
    ensures !(op.equal && (exists i :: 0 <= i < |s| && s[i].Has(x))) ==>
              var r := RangeFor(s, x, op);
              && (op.direction == Neither ==> r == INVALID)
              && (op.direction == Less ==>
                    && (r == INVALID <==> forall i :: 0 <= i < |s| ==> s[i].location >= x)
                    && (r != INVALID ==>
                          && r.location < x
                          && forall i :: 0 <= i < |s| && s[i].location < x ==> s[i].location <= r.location))
              && (op.direction == Greater ==>
                    && (r == INVALID <==> forall i :: 0 <= i < |s| ==> s[i].Max() <= x + 1)
                    && (r != INVALID ==>
                          && r.Max() > x + 1
                          && forall i :: 0 <= i < |s| && s[i].Max() > x + 1 ==> r.location <= s[i].location))
  {
    hide StartBefore, EndBefore;
    var k := if op.direction == Less then StartBefore(s, x) - 1 else EndBefore(s, x + 1);
    if 0 <= k < |s| {
      OnlyHolds(s, k, x);
      ValidRange(s, k);
    }
  }

  /** A search in either direction, in terms of the points alone. */
  lemma ClosestIs(points: set<int>, x: nat, op: SearchOp, found: nat)
    requires NOT_FOUND !in points && IsClosest(points, x, op, found)
    ensures op.equal && x in points ==> found == x
    ensures !(op.equal && x in points) ==>
              && (op.direction == Neither ==> found == NOT_FOUND)
              && (op.direction == Less ==>
                    && (found == NOT_FOUND <==> forall y :: y in points ==> y >= x)
                    && (found != NOT_FOUND ==>
                          found in points && found < x && forall y :: y in points && y < x ==> y <= found))
              && (op.direction == Greater ==>
                    && (found == NOT_FOUND <==> forall y :: y in points ==> y <= x)
                    && (found != NOT_FOUND ==>
                          found in points && found > x && forall y :: y in points && y > x ==> found <= y))
  {
    assert op.equal && x in points ==> Candidate(op, x, x);
    forall y | y in points && y != x
      ensures Candidate(op, y, x) <==> ((op.direction == Less && y < x) || (op.direction == Greater && y > x))
    {
    }
  }

  /** The out-of-band value is no point. */
  lemma NotAPoint(s: seq<Range>)
    requires WellFormed(s)
    ensures NOT_FOUND !in Points(s)
  {
    PointIn(s, NOT_FOUND);
  }

  /** The distance of a location to a range is the least to any of its points. */
  lemma DistanceIsLeast(r: Range, x: nat)
    requires r.length > 0
    ensures exists p: int :: r.Has(p) && Distance(r, x) == if p < x then x - p else p - x
    ensures forall p: int :: r.Has(p) ==> Distance(r, x) <= if p < x then x - p else p - x
  {
    var p := if x < r.location then r.location else if x < r.Max() then x else r.Max() - 1;
    assert r.Has(p);
  }

  /** What the selected range says about the points around `x`. */
  lemma RangeForDecides(s: seq<Range>, x: nat, op: SearchOp)
    requires WellFormed(s)
    ensures var r := RangeFor(s, x, op);
            && (r.IsValid() <==> r != INVALID)
            && (r.IsValid() ==> r in s && r.length > 0 && r.Points() <= Points(s))
            && (op.equal ==> (r.Has(x) <==> x in Points(s)))
            && (op.direction == Neither && !r.Has(x) ==> !r.IsValid())
            && (op.direction == Less && !(op.equal && r.Has(x)) ==>
                  && (!r.IsValid() ==> forall y :: y in Points(s) ==> y >= x)
                  && (r.IsValid() ==> r.location < x && forall y :: y in Points(s) && y < x ==> y < r.Max()))
            && (op.direction == Greater && !(op.equal && r.Has(x)) ==>
                  && (!r.IsValid() ==> forall y :: y in Points(s) ==> y <= x)
                  && (r.IsValid() ==> r.Max() > x + 1 && forall y :: y in Points(s) && y > x ==> y >= r.location))
  {
    hide StartBefore, EndBefore, Points;
    var r := RangeFor(s, x, op);
    PointIn(s, x);
    if op.equal && x in Points(s) {
      var i :| 0 <= i < |s| && s[i].Has(x) && r == s[i];
      OwnPoints(s, i);
    } else if op.direction == Less {
      LastBelow(s, x);
    } else if op.direction == Greater {
      FirstAbove(s, x);
    }
  }

  lemma LastBelow(s: seq<Range>, x: nat)
    requires WellFormed(s)
    ensures var k := StartBefore(s, x);
            && (k == 0 ==> forall y :: y in Points(s) ==> y >= x)
            && (k > 0 ==> && s[k - 1].length > 0 && s[k - 1].IsValid() && s[k - 1].location < x
                          && s[k - 1].Points() <= Points(s)
                          && forall y :: y in Points(s) && y < x ==> y < s[k - 1].Max())
  {
    hide StartBefore, Points;
    var k := StartBefore(s, x);
    if k > 0 {
      OwnPoints(s, k - 1);
    }
    forall y: int | y in Points(s) ensures y >= x || (k > 0 && y < s[k - 1].Max()) {
      PointIn(s, y);
      var i :| 0 <= i < |s| && s[i].Has(y);
      assert i < k - 1 ==> s[i].Max() <= s[k - 1].location;
      assert k < i ==> s[k].Max() <= s[i].location;
    }
  }

  lemma FirstAbove(s: seq<Range>, x: nat)
    requires WellFormed(s)
    ensures var k := EndBefore(s, x + 1);
            && (k == |s| ==> forall y :: y in Points(s) ==> y <= x)
            && (k < |s| ==> && s[k].length > 0 && s[k].IsValid() && s[k].Max() > x + 1
                            && s[k].Points() <= Points(s)
                            && forall y :: y in Points(s) && y > x ==> y >= s[k].location)
  {
    hide EndBefore, Points;
    var k := EndBefore(s, x + 1);
    if k < |s| {
      OwnPoints(s, k);
    }
    forall y: int | y in Points(s) ensures y <= x || (k < |s| && y >= s[k].location) {
      PointIn(s, y);
      var i :| 0 <= i < |s| && s[i].Has(y);
      assert k < i && k < |s| ==> s[k].Max() <= s[i].location;
    }
  }

  // ----- runs -----

  datatype SetOp = InsertOp(range: Range) | RemoveOp(range: Range) | ResetOp

  ghost function StepPoints(points: set<int>, op: SetOp): set<int> {
    match op
    case InsertOp(r) => points + if r.IsValid() then r.Points() else {}
    case RemoveOp(r) => points - if r.IsValid() then r.Points() else {}
    case ResetOp => {}
  }

  ghost function RunPoints(points: set<int>, ops: seq<SetOp>): set<int> {
    if |ops| == 0 then points
    else StepPoints(RunPoints(points, ops[..|ops| - 1]), ops[|ops| - 1])
  }

  /** After any run a point is a member when the last operation that concerns it has inserted
      it, and none when that has removed it or was a reset; without any it is as before. */
  lemma {:induction false} MemberAfterRun(points: set<int>, ops: seq<SetOp>, at: int, x: int)
    requires -1 <= at < |ops|
    requires forall i :: at < i < |ops| ==>
                           && ops[i] != ResetOp
                           && (ops[i].InsertOp? || ops[i].RemoveOp? ==>
                                 !(ops[i].range.IsValid() && ops[i].range.Has(x)))
    ensures at == -1 ==> (x in RunPoints(points, ops) <==> x in points)
    ensures at >= 0 && ops[at].InsertOp? && ops[at].range.IsValid() && ops[at].range.Has(x) ==>
              x in RunPoints(points, ops)
    ensures at >= 0 && ops[at].RemoveOp? && ops[at].range.IsValid() && ops[at].range.Has(x) ==>
              x !in RunPoints(points, ops)
    ensures at >= 0 && ops[at].ResetOp? ==> x !in RunPoints(points, ops)
  {
    if |ops| == 0 {
    } else {
      var n := |ops| - 1;
      if at < n {
        MemberAfterRun(points, ops[..n], at, x);
      }
    }
  }

  /** Does `r` begin just behind a member, or end just before one, that borders on a hole? */
  ghost predicate Borders(points: set<int>, r: Range) {
    || (r.location - 1 in points && r.location !in points)
    || (r.Max() in points && r.Max() - 1 !in points)
  }

  /** An operation that cannot leave touching ranges behind. */
  ghost predicate Tidy(points: set<int>, op: SetOp) {
    op.InsertOp? && op.range.length > 0 && op.range.IsValid() ==>
      op.range.Points() !! points || !Borders(points, op.range)
  }

  ghost predicate TidyRun(points: set<int>, ops: seq<SetOp>) {
    forall i :: 0 <= i < |ops| ==> Tidy(RunPoints(points, ops[..i]), ops[i])
  }

  /** In an array of ranges that do not touch, the points show where a range would touch. */
  lemma TouchesByPoints(s: seq<Range>, r: Range)
    requires WellFormed(s) && Separated(s) && r.length > 0
    ensures Touches(s, r) <==> Borders(Points(s), r)
  {
    hide WellFormed, Separated, Points;
    if i :| 0 <= i < |s| && (s[i].Max() == r.location || r.Max() == s[i].location) {
      Edges(s, i);
    }
    BorderIsEdge(s, r.location);
    BorderIsEdge(s, r.Max());
  }

  /** Where membership changes, a range ends or begins. */
  lemma BorderIsEdge(s: seq<Range>, x: nat)
    ensures x - 1 in Points(s) && x !in Points(s) ==> exists i :: 0 <= i < |s| && s[i].Max() == x
    ensures x in Points(s) && x - 1 !in Points(s) ==> exists i :: 0 <= i < |s| && s[i].location == x
  {
    PointIn(s, x - 1);
    PointIn(s, x);
    if i :| 0 <= i < |s| && s[i].Has(x - 1) {
      assert s[i].Has(x) || s[i].Max() == x;
    }
    if i :| 0 <= i < |s| && s[i].Has(x) {
      assert s[i].Has(x - 1) || s[i].location == x;
    }
  }

  /** The first and the last location of a range are members, the ones beyond are not. */
  lemma Edges(s: seq<Range>, i: nat)
    requires WellFormed(s) && Separated(s) && i < |s|
    ensures s[i].location in Points(s) && s[i].Max() - 1 in Points(s)
    ensures s[i].location - 1 !in Points(s) && s[i].Max() !in Points(s)
  {
    OwnPoints(s, i);
    assert s[i].Has(s[i].location) && s[i].Has(s[i].Max() - 1);
    PointIn(s, s[i].location - 1);
    PointIn(s, s[i].Max());
    forall k | 0 <= k < |s| && k != i ensures !s[k].Has(s[i].location - 1) && !s[k].Has(s[i].Max()) {
      assert k < i ==> s[k].Max() < s[i].location;
      assert i < k ==> s[i].Max() < s[k].location;
    }
  }

  lemma MeetsIffCommonPoint(s: seq<Range>, r: Range)
    ensures Meeting(s, r) <==> !(r.Points() !! Points(s))
  {
    if i :| 0 <= i < |s| && s[i].Meets(r) {
      CommonPoint(s, i, r);
    } else {
      AbsentPoints(s, r);
    }
  }

  /** When an insert keeps ranges from touching, by points alone. */
  lemma SeparatedIffTidy(s: seq<Range>, r: Range)
    requires WellFormed(s) && Separated(s)
    ensures Separated(Inserted(s, r)) <==> Tidy(Points(s), InsertOp(r))
  {
    if r.length > 0 && r.IsValid() {
      hide *;
      InsertSeparatedIff(s, r);
      TouchesByPoints(s, r);
      MeetsIffCommonPoint(s, r);
      TidyCases(Points(s), r);
    }
  }

  lemma TidyCases(points: set<int>, r: Range)
    requires r.length > 0 && r.IsValid()
    ensures Tidy(points, InsertOp(r)) <==> r.Points() !! points || !Borders(points, r)
  {
  }
}
