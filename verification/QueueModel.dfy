/** The pending elements of a chain of buckets (src/queue/mulle--pointerqueue.c). */
module QueueModel {
  import opened Pointers

  /** Bucket contents, a read position in the first and a write position in the last. */
  ghost predicate Positions(ss: seq<seq<Pointer>>, r: nat, w: nat) {
    |ss| > 0 ==>
      && r <= |ss[0]| && w <= |ss[|ss| - 1]|
      && (|ss| == 1 ==> r <= w)
  }

  /** What has been pushed and not been popped, oldest first. */
  ghost function Pending(ss: seq<seq<Pointer>>, r: nat, w: nat): seq<Pointer>
    requires Positions(ss, r, w)
  {
    if |ss| == 0 then []
    else if |ss| == 1 then ss[0][r..w]
    else ss[0][r..] + Pending(ss[1..], 0, w)
  }

  /** Writing at the write position appends. */
  lemma {:induction false} PushLast(ss: seq<seq<Pointer>>, r: nat, w: nat, p: Pointer)
    requires |ss| > 0 && Positions(ss, r, w) && w < |ss[|ss| - 1]|
    ensures var ss' := ss[|ss| - 1 := ss[|ss| - 1][w := p]];
            Positions(ss', r, w + 1) && Pending(ss', r, w + 1) == Pending(ss, r, w) + [p]
  {
    var ss' := ss[|ss| - 1 := ss[|ss| - 1][w := p]];
    if |ss| == 1 {
    } else {
      PushLast(ss[1..], 0, w, p);
      assert ss'[1..] == ss[1..][|ss| - 2 := ss[|ss| - 1][w := p]];
    }
  }

  /** A new bucket behind a full one changes nothing. */
  lemma {:induction false} GrowLast(ss: seq<seq<Pointer>>, r: nat, fresh_: seq<Pointer>)
    requires |ss| > 0 && Positions(ss, r, |ss[|ss| - 1]|)
    ensures Positions(ss + [fresh_], r, 0)
    ensures Pending(ss + [fresh_], r, 0) == Pending(ss, r, |ss[|ss| - 1]|)
  {
    var ss' := ss + [fresh_];
    if |ss| > 1 {
      GrowLast(ss[1..], 0, fresh_);
      assert ss'[1..] == ss[1..] + [fresh_];
    } else {
      assert ss'[1..] == [fresh_];
    }
  }

  lemma EmptyBucket(fresh_: seq<Pointer>)
    ensures Positions([fresh_], 0, 0) && Pending([fresh_], 0, 0) == Pending([], |fresh_|, |fresh_|) == []
  {
  }

  /** A new bucket behind a chain that is full, or that is not there. */
  lemma GrowChain(ss: seq<seq<Pointer>>, r: nat, w: nat, fresh_: seq<Pointer>)
    requires Positions(ss, r, w) && (|ss| > 0 ==> w == |ss[|ss| - 1]|)
    ensures var r' := if |ss| == 0 then 0 else r;
            Positions(ss + [fresh_], r', 0) && Pending(ss + [fresh_], r', 0) == Pending(ss, r, w)
  {
    if |ss| == 0 {
      EmptyBucket(fresh_);
      assert ss + [fresh_] == [fresh_];
    } else {
      GrowLast(ss, r, fresh_);
    }
  }

  /** A single bucket that has been read to its end holds nothing. */
  lemma ReadToEnd(s: seq<Pointer>, r: nat, w: nat)
    requires Positions([s], r, w) && r == |s|
    ensures r == w && Pending([s], r, w) == [] && forall r', w' :: Pending([], r', w') == []
  {
  }

  /** Dropping a bucket that has been read to its end changes nothing. */
  lemma DropFirst(ss: seq<seq<Pointer>>, w: nat)
    requires |ss| > 1 && Positions(ss, |ss[0]|, w)
    ensures Positions(ss[1..], 0, w) && Pending(ss[1..], 0, w) == Pending(ss, |ss[0]|, w)
  {
  }

  /** Nothing is pending in the last bucket once the write position is reached, and nothing
      at all when there is no bucket. */
  lemma Exhausted(ss: seq<seq<Pointer>>, r: nat, w: nat)
    requires Positions(ss, r, w)
    ensures |ss| == 0 || (|ss| == 1 && r >= w) ==> Pending(ss, r, w) == []
    ensures Positions([], r, w) && Pending([], r, w) == []
  {
  }

  /** Reading at the read position takes the oldest element. */
  lemma TakeFirst(ss: seq<seq<Pointer>>, r: nat, w: nat)
    requires |ss| > 0 && Positions(ss, r, w) && r < |ss[0]| && (|ss| == 1 ==> r < w)
    ensures Positions(ss, r + 1, w)
    ensures Pending(ss, r, w) == [ss[0][r]] + Pending(ss, r + 1, w)
  {
  }

  // ----- runs -----

  datatype QueueOp = Push(p: Pointer) | Pop | Reset

  ghost function StepQueue(q: seq<Pointer>, op: QueueOp): seq<Pointer> {
    match op
    case Push(p) => q + [p]
    case Pop => if |q| == 0 then [] else q[1..]
    case Reset => []
  }

  /** What a run returns: the result of each pop. */
  ghost function Returned(q: seq<Pointer>, op: QueueOp): seq<Pointer> {
    if op.Pop? then [if |q| == 0 then NULL else q[0]] else []
  }

  ghost function RunQueue(q: seq<Pointer>, ops: seq<QueueOp>): (seq<Pointer>, seq<Pointer>) {
    if |ops| == 0 then (q, [])
    else
      var (before, out) := RunQueue(q, ops[..|ops| - 1]);
      (StepQueue(before, ops[|ops| - 1]), out + Returned(before, ops[|ops| - 1]))
  }

  /** What a run pushes. */
  ghost function Pushed(ops: seq<QueueOp>): seq<Pointer> {
    if |ops| == 0 then []
    else Pushed(ops[..|ops| - 1]) + if ops[|ops| - 1].Push? then [ops[|ops| - 1].p] else []
  }

  ghost function Answered(out: seq<Pointer>): seq<Pointer> {
    if |out| == 0 then []
    else Answered(out[..|out| - 1]) + if out[|out| - 1] == NULL then [] else [out[|out| - 1]]
  }

  /** First in, first out: without resets, what was pending and pushed comes back in order;
      the answers are a prefix of it and the rest is still pending. */
  lemma {:induction false} FirstInFirstOut(q: seq<Pointer>, ops: seq<QueueOp>)
    requires forall i :: 0 <= i < |ops| ==> ops[i] != Reset && ops[i] != Push(NULL)
    requires NULL !in q
    ensures var (rest, out) := RunQueue(q, ops);
            NULL !in rest && q + Pushed(ops) == Answered(out) + rest
  {
    if |ops| == 0 {
    } else {
      var n := |ops| - 1;
      FirstInFirstOut(q, ops[..n]);
      var (before, out) := RunQueue(q, ops[..n]);
      FifoStep(q + Pushed(ops[..n]), out, before, ops[n]);
      assert q + Pushed(ops) == q + Pushed(ops[..n]) + if ops[n].Push? then [ops[n].p] else [];
    }
  }

  lemma FifoStep(all: seq<Pointer>, out: seq<Pointer>, before: seq<Pointer>, op: QueueOp)
    requires all == Answered(out) + before && NULL !in before && op != Reset && op != Push(NULL)
    ensures all + (if op.Push? then [op.p] else [])
            == Answered(out + Returned(before, op)) + StepQueue(before, op)
    ensures NULL !in StepQueue(before, op)
  {
    hide Answered;
    if op.Push? {
      assert out + [] == out;
    } else {
      AnswerOne(out, Returned(before, op)[0]);
      if |before| > 0 {
        assert before[0] in before && before == [before[0]] + before[1..];
      }
    }
  }

  lemma AnswerOne(out: seq<Pointer>, p: Pointer)
    ensures Answered(out + [p]) == Answered(out) + if p == NULL then [] else [p]
  {
    assert (out + [p])[..|out|] == out;
  }
}
