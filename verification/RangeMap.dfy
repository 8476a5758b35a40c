/** The range map (src/rangemap/mulle--rangemap.c): ranges and their values in the two
    parts of one buffer of words. With room for `size` pairs, range `i` takes the words
    2i and 2i+1, and value `i` is word 2*size + i. */
module RangeMaps {
  import opened Ranges
  import opened RangeMapModel
  import opened Sequences

  /** What a query has written: the first `count` pairs from `a` on, as far as asked for. */
  twostate predicate Written(outRanges: array?<Range>, outValues: array?<Word>, maxOut: nat,
                             new pairs: seq<(Range, Word)>, count: nat)
    requires count <= |pairs|
    reads outRanges, outValues
  {
    && (outRanges != null ==>
          forall i :: 0 <= i < outRanges.Length ==>
            outRanges[i] == if i < count && i < maxOut then pairs[i].0 else old(outRanges[i]))
    && (outValues != null ==>
          forall i :: 0 <= i < outValues.Length ==>
            outValues[i] == if i < count && i < maxOut then pairs[i].1 else old(outValues[i]))
  }

  class RangeMap {
    var storage: array<Word>
    var length: nat
    var size: nat

    predicate Shape()
      reads this
    {
      length <= size && storage.Length == 3 * size
    }

    function RangeAt(i: nat): Range
      requires Shape() && i < size
      reads this, storage
    {
      Range(storage[2 * i], storage[2 * i + 1])
    }

    /** The word position of a value. */
    function ValueIndex(i: nat): nat
      reads this
    {
      2 * size + i
    }

    /** The stored ranges, as the searches see them. */
    function GetRanges(): (rs: seq<Range>)
      requires Shape()
      reads this, storage
      ensures |rs| == length && forall i :: 0 <= i < length ==> rs[i] == RangeAt(i)
    {
      RangesUpTo(length)
    }

    function RangesUpTo(n: nat): (rs: seq<Range>)
      requires Shape() && n <= size
      reads this, storage
      ensures |rs| == n && forall i :: 0 <= i < n ==> rs[i] == RangeAt(i)
    {
      if n == 0 then [] else RangesUpTo(n - 1) + [RangeAt(n - 1)]
    }

    ghost function GetValues(): (vs: seq<Word>)
      requires Shape()
      reads this, storage
      ensures |vs| == length && forall i :: 0 <= i < length ==> vs[i] == storage[ValueIndex(i)]
    {
      storage[2 * size..2 * size + length]
    }

    ghost function Contents(): map<Range, Word>
      requires Shape()
      reads this, storage
    {
      PairMap(GetRanges(), GetValues())
    }

    ghost predicate Valid()
      reads this, storage
    {
      Shape() && WellFormed(GetRanges())
    }

    constructor (capacity: nat)
      ensures Valid() && fresh(storage) && Contents() == map[]
    {
      length, size := 0, capacity;
      storage := new Word[3 * capacity];
    }

    // ----- moving words -----

    method MemMove(dst: nat, src: nat, n: nat)
      requires dst + n <= storage.Length && src + n <= storage.Length
      modifies storage
      ensures forall i :: 0 <= i < storage.Length ==>
                            storage[i] == if dst <= i < dst + n then old(storage[i - dst + src]) else old(storage[i])
    {
      forall i | dst <= i < dst + n {
        storage[i] := storage[i - dst + src];
      }
    }

    /** A larger buffer; the values move to behind the larger part for the ranges. */
    method Grow()
      requires Shape()
      modifies this
      ensures Shape() && fresh(storage) && length == old(length)
      ensures size == if old(size) == 0 then 2 else 2 * old(size)
      ensures GetRanges() == old(GetRanges()) && GetValues() == old(GetValues())
    {
      hide RangeMap.RangesUpTo, RangeMap.GetRanges, RangeMap.GetValues;
      var oldSize := size;
      var newSize := oldSize * 2;
      if newSize == 0 {
        newSize := 2;
      }
      // realloc keeps the words that were there
      var buf := new Word[3 * newSize];
      forall i | 0 <= i < storage.Length {
        buf[i] := storage[i];
      }
      ghost var rs, vs := GetRanges(), GetValues();
      storage := buf;
      MemMove(2 * newSize, 2 * oldSize, length);
      size := newSize;
      forall i | 0 <= i < length ensures RangeAt(i) == rs[i] && storage[ValueIndex(i)] == vs[i] {
      }
      assert GetRanges() == rs;
      assert GetValues() == vs;
    }

    /** Make room for range `index` and write it. */
    method OpenRange(index: nat, r: Range)
      requires Shape() && index <= length < size
      modifies storage
      ensures Shape() && RangeAt(index) == r
      ensures forall i :: 0 <= i < index ==> RangeAt(i) == old(RangeAt(i))
      ensures forall i :: index < i <= length ==> RangeAt(i) == old(RangeAt(i - 1))
      ensures forall i :: 2 * size <= i < 3 * size ==> storage[i] == old(storage[i])
    {
      MemMove(2 * (index + 1), 2 * index, 2 * (length - index));
      storage[2 * index] := r.location;
      storage[2 * index + 1] := r.length;
      forall i | index < i <= length ensures RangeAt(i) == old(RangeAt(i - 1)) {
        assert storage[2 * i] == old(storage[2 * (i - 1)]);
        assert storage[2 * i + 1] == old(storage[2 * (i - 1) + 1]);
      }
    }

    /** Make room for value `index` and write it. */
    method OpenValue(index: nat, value: Word)
      requires Shape() && index <= length < size
      modifies storage
      ensures Shape()
      ensures forall i :: 0 <= i <= length ==> storage[2 * size + i] == Inserted(old(GetValues()), index, value)[i]
      ensures forall i :: 0 <= i < 2 * size ==> storage[i] == old(storage[i])
    {
      hide RangeMap.RangesUpTo, RangeMap.GetRanges, RangeMap.GetValues;
      ghost var vs := GetValues();
      MemMove(ValueIndex(index + 1), ValueIndex(index), length - index);
      storage[ValueIndex(index)] := value;
      forall i | 0 <= i <= length ensures storage[ValueIndex(i)] == Inserted(vs, index, value)[i] {
        if i > index {
          assert storage[ValueIndex(i)] == old(storage[ValueIndex(i - 1)]) == vs[i - 1];
        }
      }
    }

    method OpenSlot(index: nat, r: Range, value: Word)
      requires Shape() && index <= length < size
      modifies this`length, storage
      ensures Shape() && length == old(length) + 1
      ensures GetRanges() == Inserted(old(GetRanges()), index, r)
      ensures GetValues() == Inserted(old(GetValues()), index, value)
    {
      hide RangeMap.RangesUpTo, RangeMap.GetRanges, RangeMap.GetValues;
      ghost var rs, vs := GetRanges(), GetValues();
      OpenRange(index, r);
      assert GetValues() == vs;
      label Opened:
      OpenValue(index, value);
      length := length + 1;
      assert forall i :: 0 <= i < length ==> RangeAt(i) == old@Opened(RangeAt(i));
      assert GetRanges() == Inserted(rs, index, r);
      assert GetValues() == Inserted(vs, index, value);
    }

    /** Move the ranges after `index` down; `length` is already the new one. */
    method CloseRange(index: nat, ghost rs: seq<Range>)
      requires Shape() && index <= length < size && |rs| == length + 1
      requires forall i :: 0 <= i <= length ==> RangeAt(i) == rs[i]
      modifies storage
      ensures Shape() && forall i :: 0 <= i < length ==> RangeAt(i) == Removed(rs, index)[i]
      ensures forall i :: 2 * size <= i < 3 * size ==> storage[i] == old(storage[i])
    {
      hide RangeMap.RangesUpTo, RangeMap.GetRanges, RangeMap.GetValues;
      MemMove(2 * index, 2 * (index + 1), 2 * (length - index));
      forall i | 0 <= i < length ensures RangeAt(i) == Removed(rs, index)[i] {
        if i < index {
          assert RangeAt(i) == rs[i];
        } else {
          assert storage[2 * i] == old(storage[2 * (i + 1)]);
          assert storage[2 * i + 1] == old(storage[2 * (i + 1) + 1]);
          assert RangeAt(i) == rs[i + 1];
        }
      }
    }

    /** Move the values after `index` down. */
    method CloseValue(index: nat, ghost vs: seq<Word>)
      requires Shape() && index <= length < size && |vs| == length + 1
      requires forall i :: 0 <= i <= length ==> storage[2 * size + i] == vs[i]
      modifies storage
      ensures Shape()
      ensures forall i :: 0 <= i < length ==> storage[2 * size + i] == Removed(vs, index)[i]
      ensures forall i :: 0 <= i < 2 * size ==> storage[i] == old(storage[i])
    {
      hide RangeMap.RangesUpTo, RangeMap.GetRanges, RangeMap.GetValues;
      MemMove(ValueIndex(index), ValueIndex(index + 1), length - index);
      forall i | 0 <= i < length ensures storage[2 * size + i] == Removed(vs, index)[i] {
        if i >= index {
          assert storage[ValueIndex(i)] == old(storage[ValueIndex(i + 1)]) == vs[i + 1];
        }
      }
    }

    /** Close range slot and value slot `index`. */
    method CloseSlot(index: nat)
      requires Shape() && index < length
      modifies this`length, storage
      ensures Shape() && length == old(length) - 1
      ensures GetRanges() == Removed(old(GetRanges()), index)
      ensures GetValues() == Removed(old(GetValues()), index)
    {
      hide RangeMap.RangesUpTo, RangeMap.GetRanges, RangeMap.GetValues;
      ghost var rs, vs := GetRanges(), GetValues();
      length := length - 1;
      if length > 0 {
        CloseRange(index, rs);
        label Closed:
        CloseValue(index, vs);
        assert forall i :: 0 <= i < length ==> RangeAt(i) == old@Closed(RangeAt(i));
      }
      assert GetRanges() == Removed(rs, index);
      assert GetValues() == Removed(vs, index);
    }

    // ----- operations -----

    /** Insert a range that meets no other, with its value. */
    method InsertFree(r: Range, value: Word)
      requires Valid() && r.length > 0 && r.IsValid() && !Meeting(GetRanges(), r)
      modifies this, storage
      ensures Valid() && (storage == old(storage) || fresh(storage))
      ensures Contents() == old(Contents())[r := value]
    {
      hide WellFormed, Meeting, PairMap, Inserted, RangeMap.RangesUpTo, RangeMap.GetRanges, RangeMap.GetValues;
      ghost var rs, vs := GetRanges(), GetValues();
      if length >= size {
        Grow();
      }
      var index := HoleBsearch(GetRanges(), r.location);
      HoleFits(rs, r, index);
      InsertPair(rs, vs, index, r, value);
      OpenSlot(index, r, value);
    }

    method Insert(r: Range, value: Word) returns (outcome: Outcome)
      requires Valid()
      modifies this, storage
      ensures Valid() && (storage == old(storage) || fresh(storage))
      ensures outcome == InvalidRange <==> r.length == 0 || !r.IsValid()
      ensures outcome == InUse <==>
                r.length > 0 && r.IsValid() && exists q :: q in old(Contents()) && q.Meets(r)
      ensures outcome == InvalidRange || outcome == InUse || outcome == Ok
      ensures Contents() == if outcome == Ok then old(Contents())[r := value] else old(Contents())
      ensures outcome == Answer(old(Contents()), MapOp.Insert(r, value))
      ensures Contents() == StepMap(old(Contents()), MapOp.Insert(r, value))
    {
      hide WellFormed, PairMap, Inserted;
      if r.length == 0 || !r.IsValid() {
        return InvalidRange;
      }
      ghost var rs, vs := GetRanges(), GetValues();
      OverlapIsMeeting(rs, vs, r);
      var found := IntersectsBsearch(GetRanges(), r);
      if found != -1 {
        MeetingAt(rs, found, r);
        return InUse;
      }
      InsertFree(r, value);
      return Ok;
    }

    method Remove(r: Range) returns (outcome: Outcome)
      requires Valid()
      modifies this`length, storage
      ensures Valid() && storage == old(storage)
      ensures outcome == InvalidRange <==> r.length == 0 || !r.IsValid()
      ensures outcome == Ok <==> r.length > 0 && r.IsValid() && r in old(Contents())
      ensures outcome == Mismatch <==>
                && r.length > 0 && r.IsValid() && r !in old(Contents())
                && exists q :: q in old(Contents()) && q.Meets(r)
      ensures outcome == NotFound <==>
                && r.length > 0 && r.IsValid() && r !in old(Contents())
                && forall q :: q in old(Contents()) ==> !q.Meets(r)
      ensures Contents() == if outcome == Ok then old(Contents()) - {r} else old(Contents())
      ensures outcome == Answer(old(Contents()), MapOp.Remove(r))
      ensures Contents() == StepMap(old(Contents()), MapOp.Remove(r))
    {
      hide WellFormed, Removed, PairMap, Meeting;
      if r.length == 0 || !r.IsValid() {
        return InvalidRange;
      }
      ghost var rs, vs := GetRanges(), GetValues();
      OverlapIsMeeting(rs, vs, r);
      PairKeys(rs, vs);
      var index := IntersectsBsearch(GetRanges(), r);
      if index == -1 {
        StoredMeets(rs, r);
        return NotFound;
      }
      MeetingAt(rs, index, r);
      if RangeAt(index) != r {
        if r in rs {
          OnlyItself(rs, r, index);
        }
        return Mismatch;
      }
      RemovePair(rs, vs, index);
      CloseSlot(index);
      return Ok;
    }

    method Reset()
      requires Valid()
      modifies `length
      ensures Valid() && Contents() == map[]
    {
      length := 0;
    }

    /** The index of the range that has a location, or the out-of-band value. */
    method Search(location: nat) returns (index: nat)
      requires Valid()
      ensures if exists i :: 0 <= i < length && GetRanges()[i].Has(location)
              then index < length && GetRanges()[index].Has(location)
              else index == NOT_FOUND
    {
      hide WellFormed;
      var found := IntersectsBsearch(GetRanges(), Range(location, 1));
      if found == -1 {
        forall i | 0 <= i < length ensures !GetRanges()[i].Has(location) {
          assert !GetRanges()[i].Meets(Range(location, 1));
        }
        return NOT_FOUND;
      }
      return found;
    }

    /** The value of exactly this range; without one, whether another range has its location. */
    method GetExact(r: Range) returns (value: Word, outcome: Outcome)
      requires Valid()
      ensures r in Contents() ==> outcome == Ok && value == Contents()[r]
      ensures r !in Contents() ==>
                && value == 0
                && outcome == if exists q :: q in Contents() && q.Has(r.location) then Mismatch else NotFound
    {
      ghost var rs, vs := GetRanges(), GetValues();
      OverlapIsMeeting(rs, vs, Range(r.location, 1));
      HasIsOverlap(Contents(), r.location);
      PairKeys(rs, vs);
      hide Overlaps, PairMap;
      if length == 0 {
        return 0, NotFound;
      }
      hide WellFormed;
      StoredMeets(rs, r);
      var i := IntersectsBsearch(GetRanges(), Range(r.location, 1));
      if i == -1 {
        return 0, NotFound;
      }
      MeetingAt(rs, i, Range(r.location, 1));
      if RangeAt(i) != r {
        if r in rs {
          OnlyHolder(rs, r, i);
        }
        return 0, Mismatch;
      }
      PairAt(rs, vs, i);
      return storage[ValueIndex(i)], Ok;
    }

    /** The scan over the ranges that meet `r`, which are those from `i` up to `b`. */
    method Scan(r: Range, first: nat, maxOut: nat, outRanges: array?<Range>, outValues: array?<Word>,
                ghost b: nat, ghost pairs: seq<(Range, Word)>)
      returns (count: nat)
      requires Shape() && outValues != storage && first < length
      requires !RangeAt(first).Meets(r) ==> pairs == []
      requires RangeAt(first).Meets(r) ==>
                 && first <= b <= length && |pairs| == b - first
                 && (forall i :: 0 <= i < b - first ==>
                                   && pairs[i].0 == RangeAt(first + i)
                                   && pairs[i].1 == storage[ValueIndex(first + i)])
                 && (forall i :: first <= i < length ==> (RangeAt(i).Meets(r) <==> i < b))
      requires outRanges != null ==> maxOut <= outRanges.Length
      requires outValues != null ==> maxOut <= outValues.Length
      modifies outRanges, outValues
      ensures count == |pairs| && Written(outRanges, outValues, maxOut, pairs, count)
    {
      count := 0;
      if !RangeAt(first).Meets(r) {
        return;
      }
      for i := first to length
        invariant count == i - first <= |pairs|
        invariant Written(outRanges, outValues, maxOut, pairs, count)
      {
        if !RangeAt(i).Meets(r) {
          break;
        }
        assert pairs[count] == (RangeAt(i), storage[ValueIndex(i)]) by {
          assert i == first + count;
        }
        if count < maxOut {
          if outRanges != null {
            outRanges[count] := RangeAt(i);
          }
          if outValues != null {
            outValues[count] := storage[ValueIndex(i)];
          }
        }
        count := count + 1;
      }
    }

    /** The first range that can meet `r`; a query may start in a hole before it. */
    method FirstToScan(r: Range) returns (index: nat)
      requires Valid() && length > 0 && r.length > 0
      ensures index < length
      ensures if RangeAt(index).Meets(r) then EndBefore(GetRanges(), r.location) == index
              else EndBefore(GetRanges(), r.location) == StartBefore(GetRanges(), r.Max())
    {
      hide RangeMap.RangesUpTo, RangeMap.GetRanges, RangeMap.GetValues;
      hide WellFormed, EndBefore, StartBefore;
      index := HoleBsearch(GetRanges(), r.location);
      FirstCandidate(GetRanges(), r, index);
      if index == length {
        index := index - 1;
      } else if index > 0 && RangeAt(index - 1).Meets(r) {
        index := index - 1;
      }
    }

    /** A query over a map that is not empty, by a range that is valid. */
    method ScanFrom(r: Range, maxOut: nat, outRanges: array?<Range>, outValues: array?<Word>)
      returns (count: nat)
      requires Valid() && outValues != storage && length > 0 && r.length > 0
      requires outRanges != null ==> maxOut <= outRanges.Length
      requires outValues != null ==> maxOut <= outValues.Length
      modifies outRanges, outValues
      ensures count == |old(Selected(GetRanges(), GetValues(), r))|
      ensures Written(outRanges, outValues, maxOut, old(Selected(GetRanges(), GetValues(), r)), count)
    {
      hide RangeMap.RangesUpTo, RangeMap.GetRanges, RangeMap.GetValues;
      hide WellFormed, Selected, EndBefore, StartBefore;
      ghost var rs, vs := GetRanges(), GetValues();
      var index := FirstToScan(r);
      SelectedFrom(rs, vs, r, index);
      count := Scan(r, index, maxOut, outRanges, outValues, StartBefore(rs, r.Max()), Selected(rs, vs, r));
    }

    /** A query, in terms of the arrays. */
    method Query(r: Range, maxOut: nat, outRanges: array?<Range>, outValues: array?<Word>)
      returns (count: nat)
      requires Valid() && outValues != storage
      requires outRanges != null ==> maxOut <= outRanges.Length
      requires outValues != null ==> maxOut <= outValues.Length
      modifies outRanges, outValues
      ensures var out := old(Found(GetRanges(), GetValues(), r));
              count == |out| && Written(outRanges, outValues, maxOut, out, count)
    {
      hide WellFormed, RangeMap.GetRanges, RangeMap.GetValues;
      if r.length == 0 || !r.IsValid() {
        return 0;
      }
      if length == 0 {
        return 0;
      }
      count := ScanFrom(r, maxOut, outRanges, outValues);
    }

    /** How many stored ranges meet `r`; the first of them and their values are written to
        the output arrays, as many as the caller has asked for. `found` are all of them. */
    method GetRangesValues(r: Range, maxOut: nat, outRanges: array?<Range>, outValues: array?<Word>)
      returns (count: nat, ghost found: seq<Range>)
      requires Valid() && outValues != storage
      requires outRanges != null ==> maxOut <= outRanges.Length
      requires outValues != null ==> maxOut <= outValues.Length
      modifies outRanges, outValues
      ensures r.length == 0 || !r.IsValid() ==> count == 0
      ensures r.length > 0 && r.IsValid() ==> count == |set q | q in old(Contents()) && q.Meets(r)|
      ensures |found| == count && forall i :: 0 <= i < count ==> found[i] in old(Contents()) && found[i].Meets(r)
      ensures forall i, j :: 0 <= i < j < count ==> found[i].Max() <= found[j].location
      ensures outRanges != null ==>
                forall i :: 0 <= i < outRanges.Length ==>
                              outRanges[i] == if i < count && i < maxOut then found[i] else old(outRanges[i])
      ensures outValues != null ==>
                forall i :: 0 <= i < outValues.Length ==>
                              outValues[i] == if i < count && i < maxOut then old(Contents())[found[i]]
                                              else old(outValues[i])
    {
      hide WellFormed, PairMap, Found, RangesOf, RangeMap.GetRanges, RangeMap.GetValues, RangeMap.RangesUpTo;
      FoundAre(GetRanges(), GetValues(), r);
      found := RangesOf(Found(GetRanges(), GetValues(), r));
      count := Query(r, maxOut, outRanges, outValues);
    }
  }

  /** What a query finds: nothing for an invalid range. */
  ghost function Found(rs: seq<Range>, vs: seq<Word>, r: Range): seq<(Range, Word)>
    requires |rs| == |vs|
  {
    if r.length == 0 || !r.IsValid() then [] else Selected(rs, vs, r)
  }

  /** The selection begins where the scan begins, or it is empty. */
  lemma SelectedFrom(rs: seq<Range>, vs: seq<Word>, r: Range, first: nat)
    requires WellFormed(rs) && |rs| == |vs| && r.length > 0 && first < |rs|
    requires if rs[first].Meets(r) then EndBefore(rs, r.location) == first
             else EndBefore(rs, r.location) == StartBefore(rs, r.Max())
    ensures !rs[first].Meets(r) ==> Selected(rs, vs, r) == []
    ensures rs[first].Meets(r) ==>
              var pairs, b := Selected(rs, vs, r), StartBefore(rs, r.Max());
              && first <= b <= |rs| && |pairs| == b - first
              && (forall i :: 0 <= i < b - first ==> pairs[i] == (rs[first + i], vs[first + i]))
              && (forall i :: first <= i < |rs| ==> (rs[i].Meets(r) <==> i < b))
  {
    hide WellFormed, Selected, EndBefore, StartBefore;
    MeetingSlice(rs, r);
    SelectedSlice(rs, vs, r, EndBefore(rs, r.location), StartBefore(rs, r.Max()));
  }

  /** What a query finds: the stored ranges that meet `r`, each once, in order, with their
      own values. */
  lemma FoundAre(rs: seq<Range>, vs: seq<Word>, r: Range)
    requires WellFormed(rs) && |rs| == |vs|
    ensures var out, m := Found(rs, vs, r), PairMap(rs, vs);
            && (r.length == 0 || !r.IsValid() ==> |out| == 0)
            && (r.length > 0 && r.IsValid() ==> |out| == |set q | q in m && q.Meets(r)|)
            && (forall i :: 0 <= i < |out| ==>
                              out[i].0 in m && out[i].0.Meets(r) && m[out[i].0] == out[i].1)
            && (forall i, j :: 0 <= i < j < |out| ==> out[i].0.Max() <= out[j].0.location)
  {
    hide WellFormed, PairMap, Selected;
    if r.length > 0 && r.IsValid() {
      SelectedAre(rs, vs, r);
      AllFound(rs, vs, r, RangesOf(Selected(rs, vs, r)));
    }
  }

  lemma AllFound(rs: seq<Range>, vs: seq<Word>, r: Range, found: seq<Range>)
    requires WellFormed(rs) && |rs| == |vs| && r.length > 0 && found == RangesOf(Selected(rs, vs, r))
    ensures |found| == |set q | q in PairMap(rs, vs) && q.Meets(r)|
  {
    SelectedAre(rs, vs, r);
    hide WellFormed, PairMap, Selected;
    LengthIsSize(found, set q | q in PairMap(rs, vs) && q.Meets(r));
  }

  lemma PairKeys(rs: seq<Range>, vs: seq<Word>)
    requires |rs| == |vs|
    ensures forall q :: q in PairMap(rs, vs) <==> q in rs
  {
  }

  lemma MeetingAt(rs: seq<Range>, i: nat, r: Range)
    requires i < |rs| && rs[i].Meets(r)
    ensures Meeting(rs, r)
  {
  }

  /** A hole that the search returns fits a range that meets no other. */
  lemma HoleFits(rs: seq<Range>, r: Range, index: nat)
    requires WellFormed(rs) && r.length > 0 && !Meeting(rs, r) && index <= |rs|
    requires forall i :: 0 <= i < index ==> rs[i].location <= r.location
    requires forall i :: index <= i < |rs| ==> rs[i].location >= r.location
    ensures index > 0 ==> rs[index - 1].Max() <= r.location
    ensures index < |rs| ==> r.Max() <= rs[index].location
  {
    assert index > 0 ==> !rs[index - 1].Meets(r);
    assert index < |rs| ==> !rs[index].Meets(r);
  }

  /** What an insert asks of the search before it: putting a range into its hole keeps the
      ranges in order exactly when the range meets no other. A search that misses a range
      which begins behind the query's own location would not do. */
  lemma HoleInsertIff(rs: seq<Range>, r: Range, index: nat)
    requires WellFormed(rs) && r.length > 0 && r.IsValid() && index <= |rs|
    requires forall i :: 0 <= i < index ==> rs[i].location <= r.location
    requires forall i :: index <= i < |rs| ==> rs[i].location >= r.location
    ensures WellFormed(Inserted(rs, index, r)) <==> !Meeting(rs, r)
  {
    var t := Inserted(rs, index, r);
    if i :| 0 <= i < |rs| && rs[i].Meets(r) {
      var at := if i < index then i else i + 1;
      assert t[at] == rs[i] && t[index] == r;
    } else {
      HoleFits(rs, r, index);
      InsertInOrder(rs, index, r);
    }
  }

  /** A stored range meets itself and the range of its first location. */
  lemma StoredMeets(rs: seq<Range>, r: Range)
    requires WellFormed(rs)
    ensures r in rs ==> Meeting(rs, r) && Meeting(rs, Range(r.location, 1))
  {
    if r in rs {
      var i := IndexOf(rs, r);
      assert rs[i].Meets(r) && rs[i].Meets(Range(r.location, 1));
    }
  }

  /** The range that has the first location of a stored range is that range. */
  lemma OnlyHolder(rs: seq<Range>, r: Range, i: nat)
    requires WellFormed(rs) && i < |rs| && r in rs && rs[i].Meets(Range(r.location, 1))
    ensures rs[i] == r
  {
    assert r.length > 0 && rs[i].Meets(r);
    OnlyItself(rs, r, i);
  }

  /** Where a query starts to scan: nothing before meets it. */
  lemma FirstCandidate(rs: seq<Range>, r: Range, index: nat)
    requires WellFormed(rs) && r.length > 0 && 0 < |rs| && index <= |rs|
    requires forall i :: 0 <= i < index ==> rs[i].location <= r.location
    requires forall i :: index <= i < |rs| ==> rs[i].location >= r.location
    ensures var k := if index == |rs| then index - 1
                     else if index > 0 && rs[index - 1].Meets(r) then index - 1 else index;
            if rs[k].Meets(r) then EndBefore(rs, r.location) == k
            else EndBefore(rs, r.location) == StartBefore(rs, r.Max())
  {
    hide EndBefore, StartBefore;
    MeetingSlice(rs, r);
    var k := if index == |rs| then index - 1
             else if index > 0 && rs[index - 1].Meets(r) then index - 1 else index;
    forall i | 0 <= i < k ensures !rs[i].Meets(r) {
      assert rs[i].Max() <= rs[k].location;
      assert i < index - 1 ==> rs[i].Max() <= rs[index - 1].location;
    }
    forall i | k < i < |rs| && !rs[k].Meets(r) ensures !rs[i].Meets(r) {
      assert rs[k].Max() <= rs[i].location;
    }
  }

  /** Over every run the map is the one that the operations describe, and so are the
      answers. */
  method Perform(m: RangeMap, ops: seq<MapOp>) returns (out: seq<Outcome>)
    requires m.Valid()
    modifies m, m.storage
    ensures m.Valid()
    ensures (m.Contents(), out) == RunMap(old(m.Contents()), ops)
  {
    out := [];
    for i := 0 to |ops|
      invariant m.Valid() && (m.storage == old(m.storage) || fresh(m.storage))
      invariant (m.Contents(), out) == RunMap(old(m.Contents()), ops[..i])
    {
      hide PairMap, WellFormed;
      assert ops[..i + 1][..i] == ops[..i] && ops[..i + 1][i] == ops[i];
      var outcome;
      match ops[i]
      case Insert(r, value) =>
        outcome := m.Insert(r, value);
        out := out + [outcome];
      case Remove(r) =>
        outcome := m.Remove(r);
        out := out + [outcome];
      case Reset =>
        m.Reset();
        out := out + [Ok];
    }
    assert ops[..|ops|] == ops;
  }
}
