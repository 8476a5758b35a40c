/** The range set (src/rangeset/mulle--rangeset.c): a sorted array of ranges, changed in
    place, that stands for a set of locations. */
module RangeSets {
  import opened BitMath
  import opened Ranges
  import opened RangeSetModel
  import opened RangeCuts

  const MIN_SIZE: nat := 2

  // ----- sequences while neighbours are being merged -----

  /** Writing the left neighbour of `x` and dropping `x`. */
  lemma AbsorbLeft(s: seq<Range>, a: nat, b: nat, x: Range, y: Range)
    requires 0 < a <= b <= |s|
    ensures var t := Replaced(s, a, b, x)[a - 1 := y]; t[..a] + t[a + 1..] == Replaced(s, a - 1, b, y)
  {
  }

  /** Writing `x` and dropping its right neighbour. */
  lemma AbsorbRight(s: seq<Range>, a: nat, b: nat, x: Range, y: Range)
    requires a <= b < |s|
    ensures var t := Replaced(s, a, b, x)[a := y]; t[..a + 1] + t[a + 2..] == Replaced(s, a, b + 1, y)
  {
  }

  class RangeSet {
    var ranges: array<Range>
    // storage that the caller provided and that must not be reallocated
    var initialStorage: array?<Range>
    var length: nat
    var size: nat

    ghost predicate Shape()
      reads this
    {
      length <= size == ranges.Length
    }

    ghost function Contents(): seq<Range>
      requires Shape()
      reads this, ranges
    {
      ranges[..length]
    }

    ghost predicate Valid()
      reads this, ranges
    {
      Shape() && WellFormed(Contents())
    }

    function At(i: nat): (r: Range)
      requires Shape() && i < length
      reads this, ranges
      ensures r == Contents()[i]
    {
      ranges[i]
    }

    constructor (capacity: nat)
      ensures Valid() && fresh(ranges) && Contents() == [] && size == capacity
      ensures initialStorage == null
    {
      length, size := 0, capacity;
      ranges := new Range[capacity];
      initialStorage := null;
    }

    constructor WithStorage(storage: array<Range>)
      ensures Valid() && ranges == initialStorage == storage && size == storage.Length && Contents() == []
    {
      length, size := 0, storage.Length;
      ranges, initialStorage := storage, storage;
    }

    // ----- capacity -----

    /** Move the ranges to a buffer of `newSize`; realloc, or malloc and memcpy when they
        still are in the caller's storage. */
    method Reallocate(newSize: nat)
      requires Shape() && length <= newSize
      modifies this`ranges, this`size
      ensures Shape() && fresh(ranges) && size == newSize && Contents() == old(Contents())
    {
      var buf := new Range[newSize];
      forall i | 0 <= i < length {
        buf[i] := ranges[i];
      }
      ranges := buf;
      size := newSize;
    }

    method Grow()
      requires Shape()
      modifies this`ranges, this`size
      ensures Shape() && fresh(ranges) && Contents() == old(Contents())
      ensures size == RoundUp(2 * old(size)) > old(size)
    {
      RoundUpIsLeast(2 * size);
      var newSize := RoundUp(size * 2);
      if newSize == 0 {
        newSize := MIN_SIZE;
      }
      Reallocate(newSize);
    }

    method Reserve(additional: nat)
      requires Shape()
      modifies this`ranges, this`size
      ensures Shape() && (ranges == old(ranges) || fresh(ranges)) && Contents() == old(Contents())
      ensures length + additional <= size
    {
      while length + additional > size
        invariant Shape() && (ranges == old(ranges) || fresh(ranges)) && Contents() == old(Contents())
        decreases length + additional - size
      {
        Grow();
      }
    }

    /** No further half would do: it is too small, or not above the minimum. */
    ghost predicate Shrunk()
      reads this
    {
      ranges == initialStorage || size / 2 <= MIN_SIZE || size / 2 < length
    }

    /** Halve the buffer while the ranges fit; the caller's storage stays as it is. */
    method Shrink()
      requires Shape()
      modifies this`ranges, this`size
      ensures Shape() && (ranges == old(ranges) || fresh(ranges)) && Contents() == old(Contents())
      ensures old(ranges) == initialStorage ==> ranges == old(ranges) && size == old(size)
      ensures old(ranges) != initialStorage ==> exists k: nat :: size == Shr(old(size), k)
      ensures Shrunk()
      ensures size < old(size) ==> MIN_SIZE < size
    {
      var newSize := size;
      var half := newSize / 2;
      ghost var k: nat := 0;
      while half > MIN_SIZE && half >= length
        invariant length <= newSize <= size && half == newSize / 2 && newSize == Shr(size, k)
        invariant newSize < size ==> MIN_SIZE < newSize
        modifies {}
      {
        ShrOnce(size, k);
        k := k + 1;
        newSize := half;
        half := newSize / 2;
      }
      if newSize >= size {
        assert size == Shr(size, 0);
        return;
      }
      if ranges != initialStorage {
        Reallocate(newSize);
      }
    }

    // ----- moving the tail -----

    /** Close the slot `index`. */
    method MoveDown(index: nat)
      requires Shape() && index < length
      modifies this`length, ranges
      ensures Shape() && Contents() == old(Contents())[..index] + old(Contents())[index + 1..]
    {
      forall i | index <= i < length - 1 {
        ranges[i] := ranges[i + 1];
      }
      length := length - 1;
    }

    /** Open the slot `index` and store `r` there. */
    method MoveUp(index: nat, r: Range)
      requires Shape() && index <= length
      modifies this, ranges
      ensures Shape() && (ranges == old(ranges) || fresh(ranges)) && initialStorage == old(initialStorage)
      ensures Contents() == old(Contents())[..index] + [r] + old(Contents())[index..]
    {
      ghost var s := Contents();
      Reserve(1);
      assert Contents() == s;
      forall i | index < i <= length {
        ranges[i] := ranges[i - 1];
      }
      length := length + 1;
      ranges[index] := r;
    }

    // ----- insertion -----

    /** Let the range before the slot `index` absorb `r`, if it touches it. */
    method JoinPrevious(index: nat, r: Range) returns (joined: bool)
      requires Shape() && index <= length
      modifies ranges
      ensures Shape() && (joined <==> index > 0 && old(Contents())[index - 1].Max() == r.location)
      ensures Contents() == if !joined then old(Contents())
                            else var prev := old(Contents())[index - 1];
                                 old(Contents())[index - 1 := Range(prev.location, prev.length + r.length)]
    {
      if index > 0 {
        var prev := ranges[index - 1];
        if prev.Max() == r.location {
          ranges[index - 1] := Range(prev.location, prev.length + r.length);
          return true;
        }
      }
      return false;
    }

    /** Let the neighbours of the slot `index` absorb `r`, if they touch it. */
    method JoinNeighbours(index: nat, r: Range) returns (joined: bool)
      requires Valid() && index <= length && r.length > 0 && !Meeting(Contents(), r)
      requires StartBefore(Contents(), r.location) == index
      modifies this`length, ranges
      ensures Shape()
      ensures Contents() == if joined then InsertAbsent(old(Contents()), r) else old(Contents())
      ensures joined <==> Touches(old(Contents()), r)
    {
      hide WellFormed, Points, StartBefore, InsertAbsent, Meeting, Touches;
      ghost var s := Contents();
      AbsentCases(s, r, index);
      joined := JoinPrevious(index, r);
      if index < length {
        var next := ranges[index];
        if r.Max() == next.location {
          if joined && ranges[index - 1].Max() == next.location {
            var prev := ranges[index - 1];
            ranges[index - 1] := Range(prev.location, prev.length + next.length);
            assert Contents() == s[index - 1 := Range(prev.location, prev.length + next.length)];
            MoveDown(index);
          } else {
            ranges[index] := Range(next.location - r.length, next.length + r.length);
            assert Contents() == s[index := Range(next.location - r.length, next.length + r.length)];
          }
          return true;
        }
      }
    }

    /** Let the neighbours absorb `r`, or open the slot for it. */
    method InsertAt(index: nat, r: Range)
      requires Valid() && index <= length && r.length > 0 && !Meeting(Contents(), r)
      requires StartBefore(Contents(), r.location) == index
      modifies this, ranges
      ensures Shape() && (ranges == old(ranges) || fresh(ranges)) && initialStorage == old(initialStorage)
      ensures Contents() == InsertAbsent(old(Contents()), r)
    {
      hide WellFormed, StartBefore, InsertAbsent, Meeting, Touches;
      AbsentApart(Contents(), r, index);
      if length > 0 {
        var joined := JoinNeighbours(index, r);
        if joined {
          return;
        }
      }
      MoveUp(index, r);
    }

    method InsertKnownAbsent(r: Range)
      requires Valid() && r.IsValid() && !Meeting(Contents(), r)
      modifies this, ranges
      ensures Valid() && (ranges == old(ranges) || fresh(ranges)) && initialStorage == old(initialStorage)
      ensures Contents() == InsertAbsent(old(Contents()), r)
    {
      if r.length == 0 {
        return;
      }
      hide WellFormed, Points, StartBefore, InsertAbsent, Meeting, Touches;
      ghost var s := Contents();
      InsertAbsentSpec(s, r);
      var index := HoleBsearch(ranges[..length], r.location);
      HoleIsPosition(s, r, index);
      InsertAt(index, r);
    }

    method SetRange(i: nat, r: Range)
      requires Shape() && i < length
      modifies ranges
      ensures Shape() && Contents() == old(Contents())[i := r]
    {
      ranges[i] := r;
    }

    /** Stretch the range before `at` over the hole and over the range at `at`. */
    method SwallowNext(at: nat)
      requires Shape() && 0 < at < length && Contents()[at - 1].Max() <= Contents()[at].location
      modifies this`length, ranges
      ensures Shape()
      ensures var s := old(Contents());
              var t := s[at - 1 := Span(s[at - 1].location, s[at].Max())];
              Contents() == t[..at] + t[at + 1..]
    {
      var prev, curr := At(at - 1), At(at);
      SetRange(at - 1, Range(prev.location, prev.length + (curr.location - prev.Max()) + curr.length));
      MoveDown(at);
    }

    /** The array is `s` with the ranges from `at` to `end` replaced by one that spans them;
        the range before that one swallows it. */
    method SwallowBefore(at: nat, ghost s: seq<Range>, ghost end: nat)
      requires Shape() && WellFormed(s) && 0 < at < end <= |s| && at < length
      requires s[at].location < s[end - 1].Max()
      requires Contents() == Replaced(s, at, end, Span(s[at].location, s[end - 1].Max()))
      modifies this`length, ranges
      ensures Shape() && length == old(length) - 1 && s[at - 1].location < s[end - 1].Max()
      ensures Contents() == Replaced(s, at - 1, end, Span(s[at - 1].location, s[end - 1].Max()))
    {
      hide WellFormed, Replaced;
      ReplacedAt(s, at, end, Span(s[at].location, s[end - 1].Max()));
      Neighbours(s, at);
      AbsorbLeft(s, at, end, Span(s[at].location, s[end - 1].Max()), Span(s[at - 1].location, s[end - 1].Max()));
      SwallowNext(at);
    }

    /** The array is `s` with the ranges from `at` to `end` replaced by one that begins at
        `first` and ends with them; that one swallows the next. */
    method SwallowAfter(at: nat, ghost s: seq<Range>, ghost end: nat, ghost first: nat)
      requires Shape() && WellFormed(s) && at < end < |s| && at + 1 < length
      requires first < s[end - 1].Max() && Contents() == Replaced(s, at, end, Span(first, s[end - 1].Max()))
      modifies this`length, ranges
      ensures Shape() && length == old(length) - 1 && first < s[end].Max()
      ensures Contents() == Replaced(s, at, end + 1, Span(first, s[end].Max()))
    {
      hide WellFormed, Replaced;
      ReplacedAt(s, at, end, Span(first, s[end - 1].Max()));
      Neighbours(s, end);
      assert At(at) == Span(first, s[end - 1].Max()) && At(at + 1) == s[end];
      AbsorbRight(s, at, end, Span(first, s[end - 1].Max()), Span(first, s[end].Max()));
      SwallowNext(at + 1);
    }

    /** Let the range at `found` be swallowed by the ranges before it that meet `r`. */
    method SwallowDown(found: nat, r: Range) returns (at: nat)
      requires Valid() && found < length && r.length > 0 && Contents()[found].Meets(r)
      modifies this`length, ranges
      ensures Shape() && at == EndBefore(old(Contents()), r.location) <= found && at < length
      ensures Contents() == Replaced(old(Contents()), at, found + 1,
                                     Span(old(Contents())[at].location, old(Contents())[found].Max()))
    {
      hide WellFormed, EndBefore, StartBefore, Replaced, Meeting;
      ghost var s := Contents();
      MeetingSlice(s, r);
      at := found;
      ReplacedBySelf(s, found);
      ReplacedAt(s, at, found + 1, Span(s[at].location, s[found].Max()));
      while at > 0 && At(at - 1).Meets(r)
        invariant Shape() && EndBefore(s, r.location) <= at <= found < |s| && s[at].location < s[found].Max()
        invariant length == at + |s| - found
        invariant Contents() == Replaced(s, at, found + 1, Span(s[at].location, s[found].Max()))
        decreases at
      {
        ReplacedAt(s, at, found + 1, Span(s[at].location, s[found].Max()));
        SwallowBefore(at, s, found + 1);
        at := at - 1;
      }
      ReplacedAt(s, at, found + 1, Span(s[at].location, s[found].Max()));
    }

    /** Merge with what meets `r` before `found`, down to the start of `r`. */
    method MergeDown(found: nat, r: Range) returns (at: nat)
      requires Valid() && found < length && r.length > 0 && Contents()[found].Meets(r)
      requires r.location < Contents()[found].location
      modifies this`length, ranges
      ensures Shape() && at == EndBefore(old(Contents()), r.location) <= found && at < length
      ensures Contents() == Replaced(old(Contents()), at, found + 1,
                                     Span(MinOf(old(Contents())[at].location, r.location),
                                          old(Contents())[found].Max()))
    {
      hide WellFormed, EndBefore, StartBefore, Replaced, Meeting;
      ghost var s := Contents();
      FoundMeets(s, r, found);
      at := SwallowDown(found, r);
      ReplacedAt(s, at, found + 1, Span(s[at].location, s[found].Max()));
      ReplacedAgain(s, at, found + 1, Span(s[at].location, s[found].Max()), Span(r.location, s[found].Max()));
      StretchDown(at, r.location);
    }

    /** Let the range at `at` begin at `first` if it begins after. */
    method StretchDown(at: nat, first: nat)
      requires Shape() && at < length
      modifies ranges
      ensures Shape()
      ensures Contents() == if first < old(Contents())[at].location
                            then old(Contents())[at := Span(first, old(Contents())[at].Max())] else old(Contents())
    {
      var curr := At(at);
      if first < curr.location {
        SetRange(at, Range(first, curr.length + (curr.location - first)));
      }
    }

    /** Let the range at `at` swallow the ranges after it that meet `r`. The array is `s`
        with the ranges from `at` to `next` replaced by one that begins at `first`. */
    method SwallowUp(at: nat, r: Range, ghost s: seq<Range>, ghost next: nat, ghost first: nat)
      requires Shape() && WellFormed(s) && r.length > 0 && Meeting(s, r)
      requires EndBefore(s, r.location) == at < next <= StartBefore(s, r.Max()) <= |s| && at < length
      requires first < s[next - 1].Max() && Contents() == Replaced(s, at, next, Span(first, s[next - 1].Max()))
      modifies this`length, ranges
      ensures Shape()
      ensures var b := StartBefore(s, r.Max());
              at < b && at < length && Contents() == Replaced(s, at, b, Span(first, s[b - 1].Max()))
              && first < s[b - 1].Max()
    {
      hide WellFormed, EndBefore, StartBefore, Replaced, Meeting;
      MeetingSlice(s, r);
      ghost var e := next;
      ReplacedAt(s, at, e, Span(first, s[e - 1].Max()));
      while at + 1 < length && At(at + 1).Meets(r)
        invariant Shape() && at < e <= StartBefore(s, r.Max()) && first < s[e - 1].Max()
        invariant at < length == at + 1 + |s| - e
        invariant Contents() == Replaced(s, at, e, Span(first, s[e - 1].Max()))
        decreases length
      {
        ReplacedAt(s, at, e, Span(first, s[e - 1].Max()));
        SwallowAfter(at, s, e, first);
        e := e + 1;
      }
      ReplacedAt(s, at, e, Span(first, s[e - 1].Max()));
    }

    /** Merge with what meets `r` after `at`, up to the end of `r`. */
    method MergeUp(at: nat, r: Range, ghost s: seq<Range>, ghost next: nat, ghost first: nat)
      requires Shape() && WellFormed(s) && r.length > 0 && Meeting(s, r)
      requires EndBefore(s, r.location) == at < next <= StartBefore(s, r.Max()) <= |s| && at < length
      requires first < s[next - 1].Max() && Contents() == Replaced(s, at, next, Span(first, s[next - 1].Max()))
      modifies this`length, ranges
      ensures Shape()
      ensures var b := StartBefore(s, r.Max());
              at < b && Contents() == Replaced(s, at, b, Span(first, MaxOf(s[b - 1].Max(), r.Max())))
    {
      hide WellFormed, EndBefore, StartBefore, Replaced, Meeting;
      SwallowUp(at, r, s, next, first);
      ghost var b := StartBefore(s, r.Max());
      ReplacedAt(s, at, b, Span(first, s[b - 1].Max()));
      ReplacedAgain(s, at, b, Span(first, s[b - 1].Max()), Span(first, r.Max()));
      StretchUp(at, r.Max());
    }

    /** Let the range at `at` end at `end` if it ends before. */
    method StretchUp(at: nat, end: nat)
      requires Shape() && at < length && Contents()[at].length > 0
      modifies ranges
      ensures Shape()
      ensures var s := old(Contents());
              Contents() == if end > s[at].Max() then s[at := Span(s[at].location, end)] else s
    {
      var curr := At(at);
      var len := end - curr.location;
      if len > curr.length {
        SetRange(at, Range(curr.location, len));
      }
    }

    /** Merge `r` with all ranges that it meets, of which `found` is one. */
    method MergeAt(found: nat, r: Range)
      requires Valid() && found < length && r.length > 0 && r.IsValid() && Contents()[found].Meets(r)
      requires !Contents()[found].Includes(r)
      modifies this`length, ranges
      ensures Shape() && Contents() == Inserted(old(Contents()), r)
    {
      hide WellFormed, EndBefore, StartBefore, Replaced, Points, Meeting, Inserted;
      ghost var s := Contents();
      FoundMeets(s, r, found);
      InsertIsReplaced(s, r);
      var at: nat := found;
      ReplacedBySelf(s, found);
      if r.location < At(found).location {
        at := MergeDown(found, r);
      } else {
        FirstMeets(s, r, found);
      }
      ghost var first := MinOf(s[at].location, r.location);
      ReplacedAt(s, at, found + 1, Span(first, s[found].Max()));
      if r.Max() > At(at).Max() {
        MergeUp(at, r, s, found + 1, first);
      } else {
        LastMeets(s, r, found);
      }
    }

    method Insert(r: Range)
      requires Valid()
      modifies this, ranges
      ensures Valid() && (ranges == old(ranges) || fresh(ranges)) && initialStorage == old(initialStorage)
      ensures Contents() == Inserted(old(Contents()), r)
      ensures Points(Contents()) == Points(old(Contents())) + (if r.IsValid() then r.Points() else {})
    {
      hide WellFormed, Points, Meeting;
      ghost var s := Contents();
      InsertSpec(s, r);
      if r.length == 0 || !r.IsValid() {
        return;
      }
      var found := IntersectsBsearch(ranges[..length], r);
      if found == -1 {
        InsertKnownAbsent(r);
        return;
      }
      if At(found).Includes(r) {
        IncludedIsSame(s, r, found);
        return;
      }
      MergeAt(found, r);
    }

    // ----- removal -----

    /** Make a hole: shrink the range at `found` and insert what trails the hole. */
    method CutMiddle(found: nat, r: Range)
      requires Valid() && found < length && r.length > 0 && Surrounds(Contents()[found], r)
      modifies this, ranges
      ensures Valid() && (ranges == old(ranges) || fresh(ranges)) && initialStorage == old(initialStorage)
      ensures Contents() == Holed(old(Contents()), found, r)
    {
      hide WellFormed, Separated, Points, Meeting, IsCut, InsertAbsent;
      ghost var s := Contents();
      var f := ranges[found];
      SplitAt(s, found, r);
      SetRange(found, Range(f.location, r.location - f.location));
      InsertKnownAbsent(Range(r.Max(), f.Max() - r.Max()));
    }

    /** Cut `r` out of the range at `found`, which it meets. */
    method CutAt(found: nat, r: Range)
      requires Valid() && found < length && r.length > 0 && Contents()[found].Meets(r)
      modifies this, ranges
      ensures Valid() && (ranges == old(ranges) || fresh(ranges)) && initialStorage == old(initialStorage)
      ensures Contents() == Cut(old(Contents()), found, r)
    {
      hide WellFormed, Holed;
      CutSpec(Contents(), found, r);
      var f := ranges[found];
      if r.Includes(f) {
        MoveDown(found);
        return;
      }
      var rangeEnd, foundEnd := r.Max(), f.Max();
      if r.location > f.location && rangeEnd < foundEnd {
        CutMiddle(found, r);
        return;
      }
      if rangeEnd < foundEnd {
        SetRange(found, Range(rangeEnd, foundEnd - rangeEnd));
        return;
      }
      SetRange(found, Range(f.location, r.location - f.location));
    }

    method Remove(r: Range)
      requires Valid()
      modifies this, ranges
      ensures Valid() && (ranges == old(ranges) || fresh(ranges)) && initialStorage == old(initialStorage)
      ensures Contents() == Removed(old(Contents()), r)
      ensures Points(Contents()) == Points(old(Contents())) - (if r.IsValid() then r.Points() else {})
      ensures Separated(old(Contents())) ==> Separated(Contents())
    {
      hide WellFormed, Separated, Points, Cut, IsCut;
      RemovedSpec(Contents(), r);
      if r.length == 0 {
        return;
      }
      if !r.IsValid() {
        return;
      }
      ghost var s := Contents();
      while true
        invariant Valid() && (ranges == old(ranges) || fresh(ranges)) && initialStorage == old(initialStorage)
        invariant Removed(Contents(), r) == Removed(s, r)
        decreases |Points(Contents()) * r.Points()|
      {
        ghost var t := Contents();
        var found := IntersectsBsearch(ranges[..length], r);
        if found == -1 {
          break;
        }
        CutSpec(t, found, r);
        CutShrinks(t, found, r, Cut(t, found, r));
        CutKeepsRemoved(t, found, r);
        CutAt(found, r);
      }
    }

    // ----- lists of ranges -----

    method InsertRanges(list: seq<Range>)
      requires Valid()
      modifies this, ranges
      ensures Valid() && (ranges == old(ranges) || fresh(ranges)) && initialStorage == old(initialStorage)
      ensures Points(Contents()) == Points(old(Contents())) + Storable(list)
      ensures forall x :: x in Points(Contents())
                          <==> x in Points(old(Contents()))
                               || (exists i :: 0 <= i < |list| && list[i].IsValid() && list[i].Has(x))
    {
      hide WellFormed, Points, Storable;
      NoneStorable(list);
      for i := 0 to |list|
        invariant Valid() && (ranges == old(ranges) || fresh(ranges)) && initialStorage == old(initialStorage)
        invariant Points(Contents()) == Points(old(Contents())) + Storable(list[..i])
      {
        Insert(list[i]);
        OneMoreStorable(list, i);
      }
      assert list[..|list|] == list;
      StorableIs(list);
    }

    method RemoveRanges(list: seq<Range>)
      requires Valid()
      modifies this, ranges
      ensures Valid() && (ranges == old(ranges) || fresh(ranges)) && initialStorage == old(initialStorage)
      ensures Points(Contents()) == Points(old(Contents())) - Storable(list)
      ensures forall x :: x in Points(Contents())
                          <==> x in Points(old(Contents()))
                               && !(exists i :: 0 <= i < |list| && list[i].IsValid() && list[i].Has(x))
      ensures Separated(old(Contents())) ==> Separated(Contents())
      ensures Shrunk()
    {
      hide WellFormed, Points, Storable, Separated;
      NoneStorable(list);
      for i := 0 to |list|
        invariant Valid() && (ranges == old(ranges) || fresh(ranges)) && initialStorage == old(initialStorage)
        invariant Points(Contents()) == Points(old(Contents())) - Storable(list[..i])
        invariant Separated(old(Contents())) ==> Separated(Contents())
      {
        Remove(list[i]);
        OneMoreStorable(list, i);
      }
      assert list[..|list|] == list;
      StorableIs(list);
      Shrink();
    }

    method Reset()
      requires Valid()
      modifies this
      ensures Valid() && (ranges == old(ranges) || fresh(ranges)) && initialStorage == old(initialStorage)
      ensures Contents() == [] && Shrunk()
      ensures if old(ranges) == initialStorage then size == old(size) else exists k: nat :: size == Shr(old(size), k)
    {
      length := 0;
      Shrink();
    }

    // ----- queries -----

    method Intersects(r: Range) returns (yes: bool)
      requires Valid()
      ensures yes <==> !(Points(Contents()) !! r.Points())
    {
      hide WellFormed, Points;
      if r.length == 0 || length == 0 {
        NoPoints(Contents(), r);
        return false;
      }
      var found := IntersectsBsearch(ranges[..length], r);
      if found == -1 {
        AbsentPoints(Contents(), r);
      } else {
        CommonPoint(Contents(), found, r);
      }
      return found != -1;
    }

    method SumLengths() returns (total: nat)
      requires Valid()
      ensures total == |Points(Contents())|
    {
      hide WellFormed, Points;
      ghost var s := Contents();
      total := 0;
      NoPoints([], Range(0, 0));
      for i := 0 to length
        invariant total == |Points(s[..i])|
      {
        SumStep(s, i);
        total := total + ranges[i].length;
      }
      assert s[..length] == s;
    }

    /** The range nearest to a location, or -1 when there is none. */
    method NearestIndex(location: nat) returns (index: int)
      requires Valid()
      ensures -1 <= index < length && (index == -1 <==> length == 0)
      ensures forall k :: 0 <= k < length && index >= 0 ==>
                            && Distance(Contents()[index], location) <= Distance(Contents()[k], location)
                            && (index < k ==> Distance(Contents()[index], location) < Distance(Contents()[k], location))
      ensures index >= 0 ==> IsNearest(Contents(), index, location)
    {
      hide WellFormed;
      ghost var s := Contents();
      index := IntersectsBsearch(ranges[..length], Range(location, 1));
      if index == -1 {
        if length == 0 {
          return;
        }
        var hole := HoleBsearch(ranges[..length], location);
        index := if hole == length then hole - 1 else hole;
        NearestBesideHole(s, hole, location);
        if index > 0 && Distance(ranges[index], location) > Distance(ranges[index - 1], location) {
          index := index - 1;
        }
      } else {
        HolderIsNearest(s, index, location);
      }
    }

    method SearchExact(location: nat) returns (r: Range)
      requires Valid()
      ensures r != INVALID ==> r in Contents() && r.Has(location)
      ensures r == INVALID <==> location !in Points(Contents())
    {
      hide WellFormed, Points;
      var index := IntersectsBsearch(ranges[..length], Range(location, 1));
      PointIn(Contents(), location);
      if index == -1 {
        return INVALID;
      }
      ValidRange(Contents(), index);
      return ranges[index];
    }

    /** The range that a search selects, from the nearest one. */
    method SelectRange(location: nat, op: SearchOp) returns (r: Range)
      requires Valid()
      ensures r == RangeFor(Contents(), location, op)
      ensures r != INVALID ==> (AsDocumented(r, location, op) <==> !Straddled(Contents(), location, op))
    {
      hide WellFormed, StartBefore, EndBefore, AsDocumented, Straddled;
      if RangeFor(Contents(), location, op) != INVALID {
        RangeForAsDocumentedIff(Contents(), location, op);
      }
      ghost var s := Contents();
      var index := NearestIndex(location);
      if index == -1 {
        return INVALID;
      }
      NearestDecides(s, index, location);
      if op.equal && ranges[index].Has(location) {
        return ranges[index];
      }
      match op.direction
      case Less =>
        if location > 0 {
          if ranges[index].location >= location {
            if index == 0 {
              return INVALID;
            }
            index := index - 1;
          }
          return ranges[index];
        }
        return INVALID;
      case Greater =>
        if location < LOCATION_MAX {
          if ranges[index].Max() - 1 <= location {
            index := index + 1;
            if index == length {
              return INVALID;
            }
          }
          return ranges[index];
        }
        return INVALID;
      case Neither =>
        return INVALID;
    }

    method SearchRange(location: nat, op: SearchOp) returns (r: Range)
      requires Valid()
      ensures r == RangeFor(Contents(), location, op)
      ensures r != INVALID ==> (AsDocumented(r, location, op) <==> !Straddled(Contents(), location, op))
      ensures r != INVALID ==> r in Contents()
      ensures op.equal && (exists q :: q in Contents() && q.Has(location)) ==> r in Contents() && r.Has(location)
      ensures !(op.equal && (exists q :: q in Contents() && q.Has(location))) ==>
                && (op.direction == Neither ==> r == INVALID)
                && (op.direction == Less ==>
                      && (r == INVALID <==> forall q :: q in Contents() ==> q.location >= location)
                      && (r != INVALID ==>
                            && r.location < location
                            && forall q :: q in Contents() && q.location < location ==> q.location <= r.location))
                && (op.direction == Greater ==>
                      && (r == INVALID <==> forall q :: q in Contents() ==> q.Max() <= location + 1)
                      && (r != INVALID ==>
                            && r.Max() > location + 1
                            && forall q :: q in Contents() && q.Max() > location + 1 ==> r.location <= q.location))
    {
      RangeForIs(Contents(), location, op);
      r := SelectRange(location, op);
    }

    method ClosestLocation(location: nat, op: SearchOp) returns (found: nat)
      requires Valid()
      ensures IsClosest(Points(Contents()), location, op, found)
    {
      hide WellFormed, Points, StartBefore, EndBefore;
      var r := SelectRange(location, op);
      RangeForDecides(Contents(), location, op);
      if !r.IsValid() {
        return NOT_FOUND;
      }
      if op.equal && r.Has(location) {
        return location;
      }
      match op.direction
      case Less =>
        if location > 0 {
          if r.Has(location - 1) {
            return location - 1;
          }
          return r.Max() - 1;
        }
        return NOT_FOUND;
      case Greater =>
        if location < LOCATION_MAX {
          if r.Has(location + 1) {
            return location + 1;
          }
          return r.location;
        }
        return NOT_FOUND;
      case Neither =>
        return NOT_FOUND;
    }

    method SearchLocation(location: nat, op: SearchOp) returns (found: nat)
      requires Valid()
      ensures op.equal && location in Points(Contents()) ==> found == location
      ensures !(op.equal && location in Points(Contents())) ==>
                var points := Points(Contents());
                && (op.direction == Neither ==> found == NOT_FOUND)
                && (op.direction == Less ==>
                      && (found == NOT_FOUND <==> forall y :: y in points ==> y >= location)
                      && (found != NOT_FOUND ==>
                            && found in points && found < location
                            && forall y :: y in points && y < location ==> y <= found))
                && (op.direction == Greater ==>
                      && (found == NOT_FOUND <==> forall y :: y in points ==> y <= location)
                      && (found != NOT_FOUND ==>
                            && found in points && found > location
                            && forall y :: y in points && y > location ==> found <= y))
    {
      hide WellFormed, Points, IsClosest;
      found := ClosestLocation(location, op);
      NotAPoint(Contents());
      ClosestIs(Points(Contents()), location, op, found);
    }
  }

  /** Over every run the array stands for the set that the operations describe; runs whose
      inserts are tidy keep the ranges apart, and with that the array is determined. */
  method Perform(p: RangeSet, ops: seq<SetOp>)
    requires p.Valid()
    modifies p, p.ranges
    ensures p.Valid()
    ensures Points(p.Contents()) == RunPoints(old(Points(p.Contents())), ops)
    ensures old(Separated(p.Contents())) && TidyRun(old(Points(p.Contents())), ops) ==>
              && Separated(p.Contents())
              && forall t :: WellFormed(t) && Separated(t) && Points(t) == Points(p.Contents()) ==>
                               t == p.Contents()
  {
    hide WellFormed, Points, Separated, Tidy;
    for i := 0 to |ops|
      invariant p.Valid() && (p.ranges == old(p.ranges) || fresh(p.ranges))
      invariant Points(p.Contents()) == RunPoints(old(Points(p.Contents())), ops[..i])
      invariant old(Separated(p.Contents())) && TidyRun(old(Points(p.Contents())), ops) ==>
                  Separated(p.Contents())
    {
      assert ops[..i + 1][..i] == ops[..i] && ops[..i + 1][i] == ops[i];
      match ops[i]
      case InsertOp(r) =>
        if Separated(p.Contents()) && Tidy(Points(p.Contents()), ops[i]) {
          SeparatedIffTidy(p.Contents(), r);
        }
        p.Insert(r);
      case RemoveOp(r) =>
        p.Remove(r);
      case ResetOp =>
        p.Reset();
        EmptyIsSeparated();
    }
    assert ops[..|ops|] == ops;
    if Separated(p.Contents()) {
      forall t | WellFormed(t) && Separated(t) && Points(t) == Points(p.Contents())
        ensures t == p.Contents()
      {
        Canonical(t, p.Contents());
      }
    }
  }

  lemma EmptyIsSeparated()
    ensures Separated([]) && Points([]) == {}
  {
  }

  lemma FoundMeets(s: seq<Range>, r: Range, i: nat)
    requires WellFormed(s) && r.length > 0 && i < |s| && s[i].Meets(r)
    ensures Meeting(s, r) && EndBefore(s, r.location) <= i < StartBefore(s, r.Max())
    ensures s[i].length > 0 && s[EndBefore(s, r.location)].length > 0
    ensures s[EndBefore(s, r.location)].location <= s[i].location
  {
    hide StartBefore, EndBefore;
    MeetingSlice(s, r);
    var a := EndBefore(s, r.location);
    assert a < i ==> s[a].Max() <= s[i].location;
  }

  lemma InsertIsReplaced(s: seq<Range>, r: Range)
    requires WellFormed(s) && r.length > 0 && r.IsValid() && Meeting(s, r)
    ensures var a, b := EndBefore(s, r.location), StartBefore(s, r.Max());
            && a < b <= |s|
            && Inserted(s, r)
               == Replaced(s, a, b, Span(MinOf(s[a].location, r.location), MaxOf(s[b - 1].Max(), r.Max())))
  {
    hide WellFormed, Meeting, StartBefore, EndBefore, Replaced, Span, MinOf, MaxOf;
    MeetingSlice(s, r);
  }

  lemma IncludedIsSame(s: seq<Range>, r: Range, i: nat)
    requires WellFormed(s) && r.length > 0 && r.IsValid() && i < |s| && s[i].Meets(r) && s[i].Includes(r)
    ensures Inserted(s, r) == s
  {
    hide StartBefore, EndBefore;
    FirstMeets(s, r, i);
    LastMeets(s, r, i);
    ReplacedBySelf(s, i);
  }

  lemma ReplacedBySelf(s: seq<Range>, i: nat)
    requires i < |s|
    ensures s == Replaced(s, i, i + 1, Span(s[i].location, s[i].Max()))
  {
  }

  /** The elements of a replaced sequence, and what rewriting the new one does. */
  lemma ReplacedAt(s: seq<Range>, a: nat, b: nat, x: Range)
    requires a <= b <= |s|
    ensures |Replaced(s, a, b, x)| == a + 1 + |s| - b
    ensures Replaced(s, a, b, x)[a] == x
    ensures a > 0 ==> Replaced(s, a, b, x)[a - 1] == s[a - 1]
    ensures b < |s| ==> Replaced(s, a, b, x)[a + 1] == s[b]
  {
  }

  lemma ReplacedAgain(s: seq<Range>, a: nat, b: nat, x: Range, y: Range)
    requires a <= b <= |s|
    ensures a < |Replaced(s, a, b, x)| && Replaced(s, a, b, x)[a := y] == Replaced(s, a, b, y)
  {
  }

  lemma HoleIsPosition(s: seq<Range>, r: Range, index: nat)
    requires WellFormed(s) && r.length > 0 && !Meeting(s, r) && index <= |s|
    requires forall i :: 0 <= i < index ==> s[i].location <= r.location
    requires forall i :: index <= i < |s| ==> s[i].location >= r.location
    ensures StartBefore(s, r.location) == index
  {
    forall i | 0 <= i < index ensures s[i].location < r.location {
      assert !s[i].Meets(r);
    }
    StartBeforeIs(s, r.location, index);
  }

  /** The ways to insert next to what is there, as edits of the array. */
  lemma AbsentCases(s: seq<Range>, r: Range, k: nat)
    requires k <= |s| && r.length > 0 && StartBefore(s, r.location) == k
    requires WellFormed(s) && !Meeting(s, r)
    ensures var left := k > 0 && s[k - 1].Max() == r.location;
            var right := k < |s| && r.Max() == s[k].location;
            && (Touches(s, r) <==> left || right)
            && (!left && !right ==> InsertAbsent(s, r) == s[..k] + [r] + s[k..])
            && (left && !right ==>
                  InsertAbsent(s, r) == s[k - 1 := Range(s[k - 1].location, s[k - 1].length + r.length)])
            && (!left && right ==>
                  && r.length <= s[k].location
                  && InsertAbsent(s, r) == s[k := Range(s[k].location - r.length, s[k].length + r.length)])
            && (left && right ==>
                  var t := s[k - 1 := Range(s[k - 1].location, s[k - 1].length + r.length + s[k].length)];
                  InsertAbsent(s, r) == t[..k] + t[k + 1..])
  {
    hide WellFormed, Meeting, StartBefore, Touches;
    Neighbours(s, k);
    AbsentTouches(s, r);
    if k > 0 && s[k - 1].Max() == r.location {
      var y := Range(s[k - 1].location, s[k - 1].length + r.length);
      assert s[k - 1 := y] == s[..k - 1] + [y] + s[k..];
    } else if k < |s| && r.Max() == s[k].location {
      var y := Range(s[k].location - r.length, s[k].length + r.length);
      assert s[k := y] == s[..k] + [y] + s[k + 1..];
    }
  }

  lemma AbsentApart(s: seq<Range>, r: Range, k: nat)
    requires k <= |s| && r.length > 0 && StartBefore(s, r.location) == k
    requires WellFormed(s) && !Meeting(s, r)
    ensures !Touches(s, r) ==> InsertAbsent(s, r) == s[..k] + [r] + s[k..]
    ensures |s| == 0 ==> !Touches(s, r)
  {
    AbsentCases(s, r, k);
  }

  lemma AbsentTouches(s: seq<Range>, r: Range)
    requires WellFormed(s) && r.length > 0 && !Meeting(s, r)
    ensures var k := StartBefore(s, r.location);
            Touches(s, r) <==> (k > 0 && s[k - 1].Max() == r.location) || (k < |s| && r.Max() == s[k].location)
  {
    hide StartBefore, EndBefore;
    var k := StartBefore(s, r.location);
    TouchesAtEnds(s, r);
    MeetingSlice(s, r);
    AbsentPosition(s, r);
    assert StartBefore(s, r.Max()) == EndBefore(s, r.location);
    assert k == EndBefore(s, r.location) by {
      StartBeforeIs(s, r.Max(), k);
    }
  }
}
