/** The mathematical side of src/rangemap: a sorted array of disjoint ranges, an array of
    values beside it, and the map from ranges to values that they stand for. */
module RangeMapModel {
  import opened Ranges
  import opened Sequences

  /** Words are pointer sized and hold locations, lengths and values alike. */
  type Word = nat

  datatype Outcome = Ok | InvalidRange | InUse | NotFound | Mismatch

  // ----- arrays side by side -----

  /** The value of each stored range. */
  ghost function PairMap<V>(rs: seq<Range>, vs: seq<V>): map<Range, V>
    requires |rs| == |vs|
  {
    map r | r in rs :: vs[IndexOf(rs, r)]
  }

  lemma Different(rs: seq<Range>, i: nat, j: nat)
    requires WellFormed(rs) && i < |rs| && j < |rs| && rs[i] == rs[j]
    ensures i == j
  {
  }

  lemma PairAt<V>(rs: seq<Range>, vs: seq<V>, i: nat)
    requires WellFormed(rs) && |rs| == |vs| && i < |rs|
    ensures rs[i] in PairMap(rs, vs) && PairMap(rs, vs)[rs[i]] == vs[i]
  {
    Different(rs, i, IndexOf(rs, rs[i]));
  }

  ghost function Inserted<T>(s: seq<T>, k: nat, x: T): seq<T>
    requires k <= |s|
  {
    s[..k] + [x] + s[k..]
  }

  ghost function Removed<T>(s: seq<T>, k: nat): seq<T>
    requires k < |s|
  {
    s[..k] + s[k + 1..]
  }

  /** Inserting a pair between its neighbours adds it to the map and changes no other. */
  lemma InsertPair<V>(rs: seq<Range>, vs: seq<V>, k: nat, r: Range, v: V)
    requires WellFormed(rs) && |rs| == |vs| && k <= |rs| && r.length > 0 && r.IsValid()
    requires k > 0 ==> rs[k - 1].Max() <= r.location
    requires k < |rs| ==> r.Max() <= rs[k].location
    ensures WellFormed(Inserted(rs, k, r))
    ensures PairMap(Inserted(rs, k, r), Inserted(vs, k, v)) == PairMap(rs, vs)[r := v]
  {
    hide WellFormed, Inserted;
    InsertInOrder(rs, k, r);
    InsertedKeys(rs, vs, k, r, v);
    var now, expected := PairMap(Inserted(rs, k, r), Inserted(vs, k, v)), PairMap(rs, vs)[r := v];
    forall q | q in expected ensures now[q] == expected[q] {
      InsertedValue(rs, vs, k, r, v, q);
    }
  }

  lemma InsertedKeys<V>(rs: seq<Range>, vs: seq<V>, k: nat, r: Range, v: V)
    requires |rs| == |vs| && k <= |rs|
    ensures |Inserted(rs, k, r)| == |Inserted(vs, k, v)|
    ensures PairMap(Inserted(rs, k, r), Inserted(vs, k, v)).Keys == PairMap(rs, vs)[r := v].Keys
  {
    var rs' := Inserted(rs, k, r);
    assert forall q :: q in rs' <==> q in rs || q == r by {
      assert rs == rs[..k] + rs[k..];
    }
  }

  lemma InsertedValue<V>(rs: seq<Range>, vs: seq<V>, k: nat, r: Range, v: V, q: Range)
    requires WellFormed(rs) && |rs| == |vs| && k <= |rs| && (q in rs || q == r)
    requires WellFormed(Inserted(rs, k, r))
    ensures |Inserted(rs, k, r)| == |Inserted(vs, k, v)|
    ensures q in PairMap(Inserted(rs, k, r), Inserted(vs, k, v))
    ensures PairMap(Inserted(rs, k, r), Inserted(vs, k, v))[q] == PairMap(rs, vs)[r := v][q]
  {
    hide WellFormed, Inserted;
    InsertedAt(rs, k, r);
    InsertedAt(vs, k, v);
    if q == r {
      PairAt(Inserted(rs, k, r), Inserted(vs, k, v), k);
    } else {
      var i := IndexOf(rs, q);
      PairAt(rs, vs, i);
      PairAt(Inserted(rs, k, r), Inserted(vs, k, v), if i < k then i else i + 1);
    }
  }

  lemma InsertedAt<T>(s: seq<T>, k: nat, x: T)
    requires k <= |s|
    ensures |Inserted(s, k, x)| == |s| + 1 && Inserted(s, k, x)[k] == x
    ensures forall i :: 0 <= i < k ==> Inserted(s, k, x)[i] == s[i]
    ensures forall i {:trigger s[i]} :: k <= i < |s| ==> Inserted(s, k, x)[i + 1] == s[i]
    ensures forall i {:trigger Inserted(s, k, x)[i]} :: k < i <= |s| ==> Inserted(s, k, x)[i] == s[i - 1]
  {
  }

  lemma RemovedAt<T>(s: seq<T>, k: nat)
    requires k < |s|
    ensures |Removed(s, k)| == |s| - 1
    ensures forall i :: 0 <= i < k ==> Removed(s, k)[i] == s[i]
    ensures forall i {:trigger Removed(s, k)[i]} :: k <= i < |s| - 1 ==> Removed(s, k)[i] == s[i + 1]
    ensures forall i {:trigger s[i]} :: k < i < |s| ==> Removed(s, k)[i - 1] == s[i]
  {
  }

  lemma InsertInOrder(rs: seq<Range>, k: nat, r: Range)
    requires WellFormed(rs) && k <= |rs| && r.length > 0 && r.IsValid()
    requires k > 0 ==> rs[k - 1].Max() <= r.location
    requires k < |rs| ==> r.Max() <= rs[k].location
    ensures WellFormed(Inserted(rs, k, r))
  {
    LeftOf(rs, k, r);
    RightOf(rs, k, r);
    GlueInOrder(rs, k, k, r, Inserted(rs, k, r));
  }

  /** Removing a pair takes it out of the map and changes no other. */
  lemma RemovePair<V>(rs: seq<Range>, vs: seq<V>, k: nat)
    requires WellFormed(rs) && |rs| == |vs| && k < |rs|
    ensures WellFormed(Removed(rs, k))
    ensures PairMap(Removed(rs, k), Removed(vs, k)) == PairMap(rs, vs) - {rs[k]}
  {
    hide WellFormed, Removed;
    RemoveInOrder(rs, k);
    RemovedAt(rs, k);
    RemovedAt(vs, k);
    var now, expected := PairMap(Removed(rs, k), Removed(vs, k)), PairMap(rs, vs) - {rs[k]};
    RemovedKeys(rs, vs, k);
    forall q | q in expected ensures q in now && now[q] == expected[q] {
      RemovedValue(rs, vs, k, q);
    }
  }

  lemma RemovedKeys<V>(rs: seq<Range>, vs: seq<V>, k: nat)
    requires WellFormed(rs) && |rs| == |vs| && k < |rs|
    ensures |Removed(rs, k)| == |Removed(vs, k)|
    ensures PairMap(Removed(rs, k), Removed(vs, k)).Keys <= PairMap(rs, vs).Keys - {rs[k]}
  {
    hide WellFormed, Removed;
    RemovedAt(rs, k);
    RemovedAt(vs, k);
    forall q | q in Removed(rs, k) ensures q in rs && q != rs[k] {
      var i := IndexOf(Removed(rs, k), q);
      var j := if i < k then i else i + 1;
      assert rs[j] == q;
      if q == rs[k] {
        Different(rs, k, j);
      }
    }
  }

  lemma RemovedValue<V>(rs: seq<Range>, vs: seq<V>, k: nat, q: Range)
    requires WellFormed(rs) && |rs| == |vs| && k < |rs| && q in rs && q != rs[k]
    requires WellFormed(Removed(rs, k))
    ensures |Removed(rs, k)| == |Removed(vs, k)|
    ensures q in PairMap(Removed(rs, k), Removed(vs, k))
    ensures PairMap(Removed(rs, k), Removed(vs, k))[q] == PairMap(rs, vs)[q]
  {
    hide WellFormed, Removed;
    RemovedAt(rs, k);
    RemovedAt(vs, k);
    var i := IndexOf(rs, q);
    PairAt(rs, vs, i);
    PairAt(Removed(rs, k), Removed(vs, k), if i < k then i else i - 1);
  }

  lemma RemoveInOrder(rs: seq<Range>, k: nat)
    requires WellFormed(rs) && k < |rs|
    ensures WellFormed(Removed(rs, k))
  {
    DropInOrder(rs, k, Removed(rs, k));
  }

  // ----- runs -----

  datatype MapOp = Insert(range: Range, value: Word) | Remove(range: Range) | Reset

  ghost predicate Overlaps(m: map<Range, Word>, r: Range) {
    exists q :: q in m && q.Meets(r)
  }

  /** What an operation answers. */
  ghost function Answer(m: map<Range, Word>, op: MapOp): Outcome {
    match op
    case Insert(r, v) =>
      if r.length == 0 || !r.IsValid() then InvalidRange else if Overlaps(m, r) then InUse else Ok
    case Remove(r) =>
      if r.length == 0 || !r.IsValid() then InvalidRange
      else if r in m then Ok
      else if Overlaps(m, r) then Mismatch
      else NotFound
    case Reset => Ok
  }

  ghost function StepMap(m: map<Range, Word>, op: MapOp): map<Range, Word> {
    if Answer(m, op) != Ok then m
    else
      match op
      case Insert(r, v) => m[r := v]
      case Remove(r) => m - {r}
      case Reset => map[]
  }

  ghost function RunMap(m: map<Range, Word>, ops: seq<MapOp>): (map<Range, Word>, seq<Outcome>) {
    if |ops| == 0 then (m, [])
    else
      var (before, out) := RunMap(m, ops[..|ops| - 1]);
      (StepMap(before, ops[|ops| - 1]), out + [Answer(before, ops[|ops| - 1])])
  }

  lemma OverlapIsMeeting(rs: seq<Range>, vs: seq<Word>, r: Range)
    requires |rs| == |vs|
    ensures Overlaps(PairMap(rs, vs), r) <==> Meeting(rs, r)
  {
    var m := PairMap(rs, vs);
    if Meeting(rs, r) {
      var i :| 0 <= i < |rs| && rs[i].Meets(r);
      assert rs[i] in m;
    }
    if q :| q in m && q.Meets(r) {
      assert rs[IndexOf(rs, q)].Meets(r);
    }
  }

  lemma HasIsOverlap(m: map<Range, Word>, x: nat)
    ensures Overlaps(m, Range(x, 1)) <==> exists q :: q in m && q.Has(x)
  {
    if q :| q in m && q.Has(x) {
      assert q.Meets(Range(x, 1));
    }
    if q :| q in m && q.Meets(Range(x, 1)) {
      assert q.Has(x);
    }
  }

  /** A stored range is the only one that meets it. */
  lemma OnlyItself(rs: seq<Range>, r: Range, i: nat)
    requires WellFormed(rs) && i < |rs| && rs[i].Meets(r) && r in rs
    ensures rs[i] == r
  {
    var j := IndexOf(rs, r);
    assert rs[j] == r;
  }

  // ----- range queries -----

  /** The pairs whose range meets `r`, in order. */
  ghost function Selected(rs: seq<Range>, vs: seq<Word>, r: Range): seq<(Range, Word)>
    requires |rs| == |vs|
  {
    if |rs| == 0 then []
    else
      var n := |rs| - 1;
      Selected(rs[..n], vs[..n], r) + if rs[n].Meets(r) then [(rs[n], vs[n])] else []
  }

  /** The selection is the slice between the two positions that `r` determines. */
  lemma {:induction false} SelectedSlice(rs: seq<Range>, vs: seq<Word>, r: Range, a: nat, b: nat)
    requires |rs| == |vs| && a <= b <= |rs|
    requires forall i :: 0 <= i < |rs| ==> (rs[i].Meets(r) <==> a <= i < b)
    ensures |Selected(rs, vs, r)| == b - a
    ensures forall i :: 0 <= i < b - a ==> Selected(rs, vs, r)[i] == (rs[a + i], vs[a + i])
  {
    if |rs| == 0 {
    } else {
      var n := |rs| - 1;
      SelectedSlice(rs[..n], vs[..n], r, if a <= n then a else n, if b <= n then b else n);
    }
  }

  lemma SliceIsStored(rs: seq<Range>, vs: seq<Word>, r: Range, a: nat, b: nat, out: seq<(Range, Word)>)
    requires WellFormed(rs) && a <= b <= |rs| == |vs| && |out| == b - a
    requires forall i :: 0 <= i < |rs| ==> (rs[i].Meets(r) <==> a <= i < b)
    requires forall i :: 0 <= i < b - a ==> out[i] == (rs[a + i], vs[a + i])
    ensures forall i :: 0 <= i < |out| ==>
                          && out[i].0 in PairMap(rs, vs) && out[i].0.Meets(r)
                          && PairMap(rs, vs)[out[i].0] == out[i].1
  {
    hide WellFormed, PairMap;
    forall i | 0 <= i < |out|
      ensures out[i].0 in PairMap(rs, vs) && out[i].0.Meets(r) && PairMap(rs, vs)[out[i].0] == out[i].1
    {
      PairAt(rs, vs, a + i);
    }
  }

  lemma SliceHasAll(rs: seq<Range>, r: Range, a: nat, b: nat, out: seq<(Range, Word)>)
    requires a <= b <= |rs| && |out| == b - a
    requires forall i :: 0 <= i < |rs| ==> (rs[i].Meets(r) <==> a <= i < b)
    requires forall i :: 0 <= i < b - a ==> out[i].0 == rs[a + i]
    ensures forall q :: q in rs && q.Meets(r) ==> exists i :: 0 <= i < |out| && out[i].0 == q
  {
    forall q | q in rs && q.Meets(r) ensures exists i :: 0 <= i < |out| && out[i].0 == q {
      assert out[IndexOf(rs, q) - a].0 == q;
    }
  }

  /** The pairs selected are stored, and their ranges are all that meet `r`, in order. */
  lemma SelectedAre(rs: seq<Range>, vs: seq<Word>, r: Range)
    requires WellFormed(rs) && |rs| == |vs| && r.length > 0
    ensures var out := Selected(rs, vs, r);
            && (forall i :: 0 <= i < |out| ==>
                              && out[i].0 in PairMap(rs, vs) && out[i].0.Meets(r)
                              && PairMap(rs, vs)[out[i].0] == out[i].1)
            && (forall i, j :: 0 <= i < j < |out| ==> out[i].0.Max() <= out[j].0.location)
            && (forall q :: q in PairMap(rs, vs) && q.Meets(r) ==>
                              exists i :: 0 <= i < |out| && out[i].0 == q)
  {
    hide EndBefore, StartBefore, Selected;
    MeetingSlice(rs, r);
    var a, b := EndBefore(rs, r.location), StartBefore(rs, r.Max());
    SelectedSlice(rs, vs, r, a, b);
    var out := Selected(rs, vs, r);
    SliceIsStored(rs, vs, r, a, b, out);
    SliceHasAll(rs, r, a, b, out);
  }

  ghost function RangesOf(out: seq<(Range, Word)>): (found: seq<Range>)
    ensures |found| == |out| && forall i :: 0 <= i < |out| ==> found[i] == out[i].0
  {
    seq(|out|, i requires 0 <= i < |out| => out[i].0)
  }

  /** A sequence without repetition is as long as the set of its elements. */
  lemma {:induction false} LengthIsSize(found: seq<Range>, all: set<Range>)
    requires forall i, j :: 0 <= i < j < |found| ==> found[i] != found[j]
    requires forall q :: q in found <==> q in all
    ensures |found| == |all|
  {
    if |found| == 0 {
      assert all == {};
    } else {
      var n := |found| - 1;
      assert found == found[..n] + [found[n]];
      LengthIsSize(found[..n], all - {found[n]});
    }
  }

  /** A stored range keeps its value until it is removed or the map is reset. */
  lemma {:induction false} InsertedStays(m: map<Range, Word>, ops: seq<MapOp>, at: nat)
    requires at < |ops| && ops[at].Insert? && Answer(RunMap(m, ops[..at]).0, ops[at]) == Ok
    requires forall i :: at < i < |ops| ==> !ops[i].Reset? && ops[i] != MapOp.Remove(ops[at].range)
    ensures ops[at].range in RunMap(m, ops).0 && RunMap(m, ops).0[ops[at].range] == ops[at].value
    ensures ops[at].range.length > 0
  {
    var n := |ops| - 1;
    if at == n {
    } else {
      assert ops[..n][..at] == ops[..at];
      InsertedStays(m, ops[..n], at);
      var before := RunMap(m, ops[..n]).0;
      if ops[n].Insert? && ops[n].range == ops[at].range {
        assert ops[at].range.Meets(ops[n].range);
      }
    }
  }

  /** A removed range is gone until it is inserted again. */
  lemma {:induction false} RemovedIsGone(m: map<Range, Word>, ops: seq<MapOp>, at: nat, r: Range)
    requires at < |ops| && (ops[at].Reset? || (ops[at] == MapOp.Remove(r) && r.length > 0 && r.IsValid()))
    requires forall i :: at < i < |ops| && ops[i].Insert? ==> ops[i].range != r
    ensures r !in RunMap(m, ops).0
  {
    var n := |ops| - 1;
    if at == n {
    } else {
      RemovedIsGone(m, ops[..n], at, r);
    }
  }
}
