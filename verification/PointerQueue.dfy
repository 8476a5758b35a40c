/** The pointer queue (src/queue/mulle--pointerqueue.c and .h): a chain of buckets that is
    written at its end and read at its start, and a chain of spare buckets. */
module PointerQueues {
  import opened Pointers
  import opened QueueModel

  /** A bucket; its slots are part of it. */
  class Bucket {
    var next: Bucket?
    var storage: seq<Pointer>

    constructor (size: nat)
      ensures next == null && |storage| == size
    {
      next := null;
      storage := seq(size, _ => NULL);
    }
  }

  /** `bs` are the buckets that are reached from `head` by following the links. */
  ghost predicate Chain(bs: seq<Bucket>, head: Bucket?)
    reads bs`next
  {
    && (head == if |bs| == 0 then null else bs[0])
    && (forall i {:trigger bs[i].next} :: 0 <= i < |bs| ==>
                                            bs[i].next == if i == |bs| - 1 then null else bs[i + 1])
    && (forall i, j :: 0 <= i < j < |bs| ==> bs[i] != bs[j])
  }

  ghost function Elements(bs: seq<Bucket>): set<Bucket> {
    set b | b in bs
  }

  ghost function Stores(bs: seq<Bucket>): (ss: seq<seq<Pointer>>)
    reads bs`storage
    ensures |ss| == |bs| && forall i :: 0 <= i < |bs| ==> ss[i] == bs[i].storage
  {
    if |bs| == 0 then [] else Stores(bs[..|bs| - 1]) + [bs[|bs| - 1].storage]
  }

  lemma StoresAppend(bs: seq<Bucket>, p: Bucket)
    ensures Stores(bs + [p]) == Stores(bs) + [p.storage]
  {
    assert (bs + [p])[..|bs|] == bs;
  }

  lemma ElementsAround(q: Bucket, bs: seq<Bucket>)
    ensures Elements([q] + bs) == {q} + Elements(bs) && Elements(bs + [q]) == Elements(bs) + {q}
  {
    assert forall b :: b in [q] + bs <==> b == q || b in bs;
    assert forall b :: b in bs + [q] <==> b == q || b in bs;
  }

  lemma ElementsTail(bs: seq<Bucket>)
    requires |bs| > 0 && forall i, j :: 0 <= i < j < |bs| ==> bs[i] != bs[j]
    ensures Elements(bs) == {bs[0]} + Elements(bs[1..]) && bs[0] !in Elements(bs[1..])
  {
    assert bs == [bs[0]] + bs[1..];
    ElementsAround(bs[0], bs[1..]);
  }

  lemma ChainTail(bs: seq<Bucket>, head: Bucket?)
    requires Chain(bs, head) && |bs| > 0
    ensures Chain(bs[1..], bs[0].next)
    ensures Elements(bs) == {bs[0]} + Elements(bs[1..]) && bs[0] !in Elements(bs[1..])
  {
    ElementsTail(bs);
    forall i | 0 <= i < |bs| - 1
      ensures bs[1..][i].next == if i == |bs| - 2 then null else bs[1..][i + 1]
    {
      assert bs[i + 1].next == if i + 1 == |bs| - 1 then null else bs[i + 2];
    }
  }

  lemma ChainPut(q: Bucket, bs: seq<Bucket>, head: Bucket?)
    requires Chain(bs, head) && q.next == head && q !in bs
    ensures Chain([q] + bs, q) && Elements([q] + bs) == {q} + Elements(bs)
  {
    ElementsAround(q, bs);
    var t := [q] + bs;
    forall i | 0 <= i < |t| ensures t[i].next == if i == |t| - 1 then null else t[i + 1] {
      if i > 0 {
        assert t[i] == bs[i - 1];
      }
    }
  }

  /** `top` is on the stack `cached`, one after the other, above what was there. */
  ghost predicate Stacked(top: seq<Bucket>, was: seq<Bucket>, cached: seq<Bucket>) {
    && |cached| == |was| + |top| && cached[|top|..] == was
    && forall i :: 0 <= i < |top| ==> cached[|top| - 1 - i] == top[i]
  }

  class PointerQueue {
    var spares: Bucket?
    var read: Bucket?
    var write: Bucket?
    var count: nat
    var readIndex: nat
    var writeIndex: nat
    var bucketSize: nat
    var spareAllowance: nat

    // the two chains, and the allocator's books
    ghost var live: seq<Bucket>
    ghost var cached: seq<Bucket>
    ghost var everAllocated: set<Bucket>
    ghost var freed: set<Bucket>
    ghost var quota: nat

    /** The chains are acyclic and disjoint, and every bucket ever allocated is in one of
        them, or has been freed, or is among the `floating` ones. */
    ghost predicate Chained(floating: set<Bucket>)
      reads `live, `cached, `read, `spares, `spareAllowance, `quota, `everAllocated, `freed
      reads live`next, cached`next
    {
      && Chain(live, read) && Chain(cached, spares) && Elements(live) !! Elements(cached)
      && |cached| + spareAllowance == quota
      && everAllocated == Elements(live) + Elements(cached) + freed + floating
      && Elements(live) + Elements(cached) !! freed + floating
      && freed !! floating
    }

    ghost predicate Linked(floating: set<Bucket>)
      reads `live, `cached, `read, `write, `spares, `spareAllowance, `quota, `everAllocated, `freed
      reads live`next, cached`next
    {
      Chained(floating) && write == (if |live| == 0 then null else live[|live| - 1])
    }

    ghost predicate Sized()
      reads `live, `cached, `bucketSize, live`storage, cached`storage
    {
      && (forall i {:trigger live[i].storage} :: 0 <= i < |live| ==> |live[i].storage| == bucketSize)
      && (forall i {:trigger cached[i].storage} :: 0 <= i < |cached| ==> |cached[i].storage| == bucketSize)
    }

    ghost predicate Indices()
      reads `live, `bucketSize, `readIndex, `writeIndex, live`storage
    {
      && bucketSize > 0
      && readIndex <= bucketSize && writeIndex <= bucketSize
      && Positions(Stores(live), readIndex, writeIndex)
      && (|live| == 0 ==> readIndex == writeIndex == bucketSize)
    }

    ghost function Contents(): seq<Pointer>
      requires Indices()
      reads `live, `bucketSize, `readIndex, `writeIndex, live`storage
    {
      Pending(Stores(live), readIndex, writeIndex)
    }

    ghost predicate Valid()
      reads this, live, cached
    {
      Linked({}) && Sized() && Indices() && count == |Contents()| && NULL !in Contents()
    }

    /** The ends of the live chain, and that its buckets are all different. */
    lemma LiveChain(floating: set<Bucket>)
      requires Linked(floating)
      ensures read == (if |live| == 0 then null else live[0])
      ensures write == (if |live| == 0 then null else live[|live| - 1])
      ensures forall i, j :: 0 <= i < j < |live| ==> live[i] != live[j]
      ensures Elements(live) !! Elements(cached)
    {
    }

    /** Spares and allowance add up to the quota; every bucket is live, spare or freed. */
    lemma Books()
      requires Valid()
      ensures |cached| + spareAllowance == quota
      ensures everAllocated == Elements(live) + Elements(cached) + freed
      ensures Elements(live) + Elements(cached) !! freed && Elements(live) !! Elements(cached)
      ensures forall b :: b in live || b in cached ==> b in everAllocated
    {
    }

    /** Where reading starts: at the first bucket, with everything that is pending ahead. */
    lemma Start()
      requires Valid()
      ensures read == if |live| == 0 then null else live[0]
      ensures Positions(Stores(live)[0..], readIndex, writeIndex)
      ensures Pending(Stores(live)[0..], readIndex, writeIndex) == Contents()
      ensures read == null ==> readIndex == bucketSize
    {
      hide Stores, Pending, Positions;
      LiveChain({});
      assert Stores(live)[0..] == Stores(live);
    }

    constructor (bucketSize: nat, spareAllowance: nat)
      ensures Valid() && Contents() == [] && quota == spareAllowance
      ensures live == cached == [] && everAllocated == {}
      ensures this.bucketSize >= 4
    {
      var size := if bucketSize == 0 then 64 else bucketSize;
      spares, read, write := null, null, null;
      count := 0;
      size := if size >= 4 then size else 4;
      this.bucketSize, readIndex, writeIndex := size, size, size;
      this.spareAllowance := spareAllowance;
      live, cached, everAllocated, freed, quota := [], [], {}, {}, spareAllowance;
    }

    // ----- buckets -----

    /** A bucket for the end of the chain: a spare one, or else a new one. */
    method NewBucket() returns (p: Bucket)
      requires Linked({}) && Sized()
      modifies `spares, `spareAllowance, `cached, `everAllocated, cached`next
      ensures Linked({p}) && Sized() && p.next == null && |p.storage| == bucketSize
      ensures Elements(cached) <= old(Elements(cached))
      ensures p in old(cached) || fresh(p)
      ensures if old(cached) != [] then
                p == old(cached[0]) && cached == old(cached[1..]) && everAllocated == old(everAllocated)
              else fresh(p) && cached == [] && everAllocated == old(everAllocated) + {p}
    {
      if spares != null {
        ChainTail(cached, spares);
        p := spares;
        spares := p.next;
        spareAllowance := spareAllowance + 1;
        cached := cached[1..];
      } else {
        p := new Bucket(bucketSize);
        everAllocated := everAllocated + {p};
      }
      p.next := null;
    }

    /** The allocator's free; only what is not in use and not freed yet can be freed. */
    ghost method Free(b: Bucket)
      requires b in everAllocated && b !in freed
      modifies `freed
      ensures freed == old(freed) + {b}
    {
      freed := freed + {b};
    }

    /** Keep a bucket as a spare while there is room, free it otherwise. */
    method FreeBucket(q: Bucket)
      requires Linked({q}) && Sized() && |q.storage| == bucketSize
      modifies `spares, `spareAllowance, `cached, `freed, q`next
      ensures Linked({}) && Sized()
      ensures if old(spareAllowance) > 0 then cached == [q] + old(cached) && freed == old(freed)
              else cached == old(cached) && freed == old(freed) + {q}
    {
      if spareAllowance > 0 {
        q.next := spares;
        ChainPut(q, cached, spares);
        spares := q;
        spareAllowance := spareAllowance - 1;
        cached := [q] + cached;
        return;
      }
      Free(q);
    }

    // ----- growing and shrinking -----

    /** Put a floating bucket at the end of the chain. */
    method Link(p: Bucket)
      requires Linked({p}) && p.next == null
      modifies `read, `write, `live, live`next
      ensures Linked({}) && live == old(live) + [p]
    {
      if write != null {
        assert write in Elements(live);
        write.next := p;
      }
      write := p;
      if read == null {
        read := write;
      }
      AppendedChain(live, p, read);
      live := live + [p];
    }

    /** Put a spare or a new bucket at the end of the chain. */
    method AppendBucket()
      requires Linked({}) && Sized()
      modifies `spares, `spareAllowance, `cached, `everAllocated, cached`next
      modifies `read, `write, `live, live`next
      ensures Linked({}) && Sized() && |live| > 0 && live[..|live| - 1] == old(live)
      ensures |live[|live| - 1].storage| == bucketSize
      ensures live[|live| - 1] in old(cached) || fresh(live[|live| - 1])
      ensures old(everAllocated) <= everAllocated && fresh(everAllocated - old(everAllocated))
    {
      hide Linked, Elements;
      LiveChain({});
      var p := NewBucket();
      Link(p);
      assert live[..|live| - 1] == old(live);
    }

    /** Append an empty bucket to the chain. */
    method Grow()
      requires Linked({}) && Sized() && Indices() && writeIndex >= bucketSize
      modifies `spares, `spareAllowance, `cached, `everAllocated, cached`next
      modifies `read, `write, `live, `readIndex, `writeIndex, live`next
      ensures Linked({}) && Sized() && Indices() && Contents() == old(Contents())
      ensures |live| > 0 && writeIndex == 0
      ensures old(everAllocated) <= everAllocated && fresh(everAllocated - old(everAllocated))
      ensures live[..|live| - 1] == old(live)
      ensures live[|live| - 1] in old(cached) || fresh(live[|live| - 1])
    {
      hide Linked, Pending, Positions, Elements, Stores;
      ghost var ss := Stores(live);
      LiveChain({});
      var first := write == null;
      AppendBucket();
      ghost var p := live[|live| - 1];
      GrowChain(ss, readIndex, writeIndex, p.storage);
      StoresAppend(old(live), p);
      assert live == old(live) + [p];
      if first {
        readIndex := 0;
      }
      writeIndex := 0;
    }

    /** The books only ever grow; the quota of spare buckets is kept. */
    twostate predicate Kept()
      reads `quota, `bucketSize, `everAllocated, `freed
    {
      && quota == old(quota) && bucketSize == old(bucketSize)
      && old(everAllocated) <= everAllocated && fresh(everAllocated - old(everAllocated))
      && old(freed) <= freed
    }

    /** Store an element in the last bucket, which has room. */
    method Append(p: Pointer)
      requires Linked({}) && Sized() && Indices() && |live| > 0 && writeIndex < bucketSize && write != null
      modifies `count, `writeIndex, write`storage
      ensures Sized() && Indices() && Contents() == old(Contents()) + [p] && count == old(count) + 1
    {
      hide Linked, Pending;
      ghost var ss := Stores(live);
      LiveChain({});
      PushLast(ss, readIndex, writeIndex, p);
      count := count + 1;
      write.storage := write.storage[writeIndex := p];
      writeIndex := writeIndex + 1;
      assert Stores(live) == ss[|live| - 1 := ss[|live| - 1][writeIndex - 1 := p]];
    }

    method Push(p: Pointer)
      requires Valid() && p != NULL
      modifies this, live, cached
      ensures Valid() && Contents() == old(Contents()) + [p] && Kept()
    {
      hide Linked, Pending, Positions, Stores;
      if writeIndex >= bucketSize {
        Grow();
      }
      LiveChain({});
      Append(p);
    }

    /** Take the first bucket off the chain. */
    method Unlink() returns (q: Bucket)
      requires Linked({}) && read != null
      modifies `read, `write, `live
      ensures Linked({q}) && q == old(read) && live == old(live)[1..]
      ensures Stores(live) == old(Stores(live))[1..]
    {
      ChainTail(live, read);
      q := read;
      if q.next == null {
        read, write := null, null;
      } else {
        read := q.next;
      }
      live := live[1..];
    }

    /** Take the bucket that has been read to its end off the chain; what is pending stays. */
    method Drop() returns (q: Bucket)
      requires Valid() && readIndex >= bucketSize && read != null
      modifies `read, `write, `live, `readIndex, `writeIndex
      ensures Linked({q}) && Sized() && Indices() && |q.storage| == bucketSize
      ensures Contents() == old(Contents()) && q == old(live)[0]
      ensures |live| > 0 ==> readIndex < bucketSize
    {
      hide Linked, Stores, Pending;
      LiveChain({});
      ghost var ss := Stores(live);
      q := Unlink();
      LiveChain({q});
      if read == null {
        assert ss == [ss[0]];
        ReadToEnd(ss[0], readIndex, writeIndex);
        readIndex, writeIndex := bucketSize, bucketSize;
      } else {
        DropFirst(ss, writeIndex);
        readIndex := 0;
      }
    }

    /** Give up the bucket that has been read to its end. */
    method Shrink()
      requires Valid() && readIndex >= bucketSize
      modifies this, live`next, cached`next
      ensures Valid() && Contents() == old(Contents()) && Kept()
      ensures |live| > 0 ==> readIndex < bucketSize
    {
      hide Linked, Pending, Positions;
      LiveChain({});
      if read == null {
        return;
      }
      var q := Drop();
      FreeBucket(q);
    }

    /** Pop without taking buckets off the chain. */
    method PopNoShrink() returns (p: Pointer)
      requires Valid() && (|live| > 0 ==> readIndex < bucketSize)
      modifies `count, `readIndex
      ensures Valid()
      ensures old(Contents()) == [] ==> p == NULL && Contents() == []
      ensures old(Contents()) != [] ==> p == old(Contents())[0] && Contents() == old(Contents())[1..]
    {
      hide Linked, Stores, Pending;
      LiveChain({});
      Exhausted(Stores(live), readIndex, writeIndex);
      if read == write && readIndex == writeIndex {
        return NULL;
      }
      TakeFirst(Stores(live), readIndex, writeIndex);
      count := count - 1;
      p := read.storage[readIndex];
      readIndex := readIndex + 1;
    }

    /** The oldest element, or NULL exactly when there is none. */
    method Pop() returns (p: Pointer)
      requires Valid()
      modifies this, live, cached
      ensures Valid() && Kept()
      ensures old(Contents()) == [] ==> p == NULL && Contents() == []
      ensures old(Contents()) != [] ==>
                p != NULL && p == old(Contents())[0] && Contents() == old(Contents())[1..]
      ensures [p] == Returned(old(Contents()), QueueOp.Pop)
      ensures Contents() == StepQueue(old(Contents()), QueueOp.Pop)
    {
      if readIndex >= bucketSize {
        Shrink();
      }
      p := PopNoShrink();
    }

    // ----- reset and done -----

    /** Move the first bucket of the chain to the spares. */
    method Spare()
      requires Chained({}) && Sized() && read != null && spareAllowance > 0
      modifies `read, `spares, `spareAllowance, `live, `cached, live`next
      ensures old(|live|) > 0 && live == old(live)[1..]
      ensures Chained({}) && Sized()
      ensures Elements(live) + Elements(cached) == old(Elements(live) + Elements(cached))
      ensures cached == [old(live)[0]] + old(cached)
      ensures spareAllowance == old(spareAllowance) - 1
    {
      ChainTail(live, read);
      var p := read;
      read := p.next;
      p.next := spares;
      ChainPut(p, cached, spares);
      spares := p;
      live := live[1..];
      cached := [p] + cached;
      spareAllowance := spareAllowance - 1;
    }

    /** Free a chain of buckets. */
    method FreeChain(head: Bucket?, ghost bs: seq<Bucket>)
      requires Chain(bs, head) && Elements(bs) <= everAllocated && Elements(bs) !! freed
      modifies `freed
      ensures freed == old(freed) + Elements(bs)
    {
      var p := head;
      ghost var rest := bs;
      while p != null
        invariant Chain(rest, p) && Elements(rest) <= Elements(bs)
        invariant freed == old(freed) + (Elements(bs) - Elements(rest))
        decreases |rest|
      {
        ChainTail(rest, p);
        var q := p.next;
        Free(p);
        rest := rest[1..];
        p := q;
      }
    }

    /** Move buckets to the spares as long as there is room for them. */
    method FillSpares()
      requires Chained({}) && Sized()
      modifies `read, `spares, `spareAllowance, `live, `cached, live`next
      ensures Chained({}) && Sized()
      ensures var k := if old(|live|) <= old(spareAllowance) then old(|live|) else old(spareAllowance);
              && live == old(live)[k..] && spareAllowance == old(spareAllowance) - k
              && Stacked(old(live)[..k], old(cached), cached)
    {
      ghost var k: nat := 0;
      while spareAllowance > 0
        invariant Chained({}) && Sized() && k <= old(|live|)
        invariant spareAllowance == old(spareAllowance) - k && live == old(live)[k..]
        invariant Stacked(old(live)[..k], old(cached), cached)
        decreases spareAllowance
      {
        hide Elements, Chained, Sized;
        ReadIsFirst();
        if read == null {
          break;
        }
        Spare();
        k := k + 1;
      }
      ReadIsFirst();
    }

    lemma ReadIsFirst()
      requires Chained({})
      ensures read == null <==> |live| == 0
    {
    }

    /** Free the buckets of the chain. */
    method DropChain()
      requires Chained({}) && Sized()
      modifies `read, `write, `live, `freed
      ensures Linked({}) && Sized() && live == [] && freed == old(freed + Elements(live))
    {
      hide Chain;
      FreeChain(read, live);
      read, write := null, null;
      live := [];
      NoElements();
    }

    /** Nothing is pending when the chain is gone. */
    method Unchain()
      requires Chained({}) && Sized() && bucketSize > 0
      modifies `read, `write, `readIndex, `writeIndex, `count, `live, `freed
      ensures Valid() && Contents() == [] && live == [] && freed == old(freed + Elements(live))
    {
      hide Linked, Sized;
      DropChain();
      readIndex, writeIndex := bucketSize, bucketSize;
      count := 0;
    }

    /** Forget all elements; the first buckets become spares while there is room, and the
        others are freed. */
    method Reset()
      requires Valid()
      modifies this, live`next, cached`next
      ensures Valid() && Contents() == [] && live == [] && Kept()
      ensures var k := if old(|live|) <= old(spareAllowance) then old(|live|) else old(spareAllowance);
              && |cached| == old(|cached|) + k && spareAllowance == old(spareAllowance) - k
              && cached[k..] == old(cached)
              && (forall i :: 0 <= i < k ==> cached[k - 1 - i] == old(live)[i])
              && freed == old(freed) + set b | b in old(live)[k..]
    {
      hide Chained, Sized;
      FillSpares();
      Unchain();
    }

    /** Give back everything: no bucket is left, and none is freed twice. */
    method Done()
      requires Valid()
      modifies `freed
      ensures freed == everAllocated && unchanged(`everAllocated)
    {
      FreeChain(read, live);
      FreeChain(spares, cached);
    }
  }

  /** The enumerator: a bucket of the chain and an index into it. */
  class QueueEnumerator {
    const queue: PointerQueue?
    var curr: Bucket?
    var index: nat
    // the position of `curr` in the chain
    ghost var at: nat

    ghost predicate Valid()
      reads this, queue
      reads if queue == null then {} else Elements(queue.live) + Elements(queue.cached)
    {
      queue != null ==>
        && queue.Valid() && at <= |queue.live|
        && curr == (if at == |queue.live| then null else queue.live[at])
        && Positions(Stores(queue.live)[at..], index, queue.writeIndex)
        && (curr == null ==> index == queue.bucketSize)
    }

    /** The elements that are still to come. */
    ghost function Ahead(): seq<Pointer>
      requires Valid()
      reads this, queue
      reads if queue == null then {} else Elements(queue.live) + Elements(queue.cached)
    {
      if queue == null then [] else Pending(Stores(queue.live)[at..], index, queue.writeIndex)
    }

    constructor (queue: PointerQueue?)
      requires queue != null ==> queue.Valid()
      ensures Valid() && this.queue == queue
      ensures Ahead() == if queue == null then [] else queue.Contents()
    {
      this.queue := queue;
      curr := if queue == null then null else queue.read;
      index := if queue == null then 0 else queue.readIndex;
      at := 0;
      new;
      hide Stores, Pending, Positions, PointerQueue.Valid;
      if queue != null {
        queue.Start();
      }
    }

    ghost function Left(): nat
      requires Valid()
      reads this, queue
      reads if queue == null then {} else Elements(queue.live) + Elements(queue.cached)
    {
      if queue == null then 0 else |queue.live| - at
    }

    /** The stretch of the chain that is still to come, and the current bucket in it. */
    lemma Here()
      requires Valid() && queue != null
      ensures at <= |Stores(queue.live)| && |Stores(queue.live)[at..]| == |queue.live| - at
      ensures curr == null <==> at == |queue.live|
      ensures queue.writeIndex <= queue.bucketSize && (curr == null ==> index == queue.bucketSize)
      ensures curr != null ==>
                && curr.storage == Stores(queue.live)[at..][0] && |curr.storage| == queue.bucketSize
                && (curr == queue.write <==> at + 1 == |queue.live|)
                && curr.next == if at + 1 == |queue.live| then null else queue.live[at + 1]
    {
    }

    /** The fast path: the next element of the current bucket. */
    method Next() returns (more: bool, item: Pointer)
      requires Valid()
      modifies this
      ensures Valid()
      ensures old(Ahead()) == [] ==> !more && item == NULL && Ahead() == []
      ensures old(Ahead()) != [] ==> more && item == old(Ahead())[0] && Ahead() == old(Ahead())[1..]
      decreases Left(), 1
    {
      hide PointerQueue.Valid, PointerQueue.Linked, Stores, Pending;
      if queue == null {
        return false, NULL;
      }
      Here();
      var limit := if curr != queue.write then queue.bucketSize else queue.writeIndex;
      if index < limit {
        TakeFirst(Stores(queue.live)[at..], index, queue.writeIndex);
        item := curr.storage[index];
        index := index + 1;
        return true, item;
      }
      more, item := NextBucket();
    }

    /** The slow path: the current bucket has no more elements. */
    method NextBucket() returns (more: bool, item: Pointer)
      requires Valid() && queue != null
      requires curr != null ==> index >= if curr != queue.write then queue.bucketSize else queue.writeIndex
      modifies this
      ensures Valid()
      ensures old(Ahead()) == [] ==> !more && item == NULL && Ahead() == []
      ensures old(Ahead()) != [] ==> more && item == old(Ahead())[0] && Ahead() == old(Ahead())[1..]
      decreases Left(), 0
    {
      hide PointerQueue.Valid, PointerQueue.Linked, Stores, Pending;
      Here();
      ghost var rest := Stores(queue.live)[at..];
      Exhausted(rest, index, queue.writeIndex);
      if index != queue.bucketSize {
        return false, NULL;
      }
      if curr == null {
        return false, NULL;
      }
      curr := curr.next;
      at := at + 1;
      assert Stores(queue.live)[at..] == rest[1..];
      if curr == null {
        assert rest[1..] == [];
        return false, NULL;
      }
      DropFirst(rest, queue.writeIndex);
      index := 0;
      more, item := Next();
    }
  }

  /** Enumerating yields the pending elements in order and then stays at the end. */
  method Drain(rover: QueueEnumerator) returns (items: seq<Pointer>)
    requires rover.Valid()
    modifies rover
    ensures rover.Valid() && items == old(rover.Ahead()) && rover.Ahead() == []
  {
    hide PointerQueue.Valid, Stores, Pending, QueueEnumerator.Ahead;
    items := [];
    var more, item := rover.Next();
    while more
      invariant rover.Valid()
      invariant more ==> old(rover.Ahead()) == items + ([item] + rover.Ahead())
      invariant !more ==> old(rover.Ahead()) == items && rover.Ahead() == []
      decreases more, |rover.Ahead()|
    {
      ghost var ahead := rover.Ahead();
      assert items + ([item] + ahead) == items + [item] + ahead;
      items := items + [item];
      more, item := rover.Next();
      assert more ==> ahead == [item] + rover.Ahead();
      assert !more ==> items + ahead == items;
    }
  }

  method Step(q: PointerQueue, op: QueueOp) returns (answer: seq<Pointer>)
    requires q.Valid() && op != QueueOp.Push(NULL)
    modifies q, q.live, q.cached
    ensures q.Valid() && q.Kept()
    ensures q.Contents() == StepQueue(old(q.Contents()), op) && answer == Returned(old(q.Contents()), op)
  {
    hide PointerQueue.Valid, PointerQueue.Contents;
    answer := [];
    match op
    case Push(p) =>
      q.Push(p);
    case Pop =>
      var p := q.Pop();
      answer := [p];
    case Reset =>
      q.Reset();
  }

  /** Over every run the queue is the sequence of pending elements, the pops return what
      they return for that sequence, and the buckets stay accounted for. */
  method Perform(q: PointerQueue, ops: seq<QueueOp>) returns (out: seq<Pointer>)
    requires q.Valid()
    requires forall i :: 0 <= i < |ops| ==> ops[i] != QueueOp.Push(NULL)
    modifies q, q.everAllocated
    ensures q.Valid()
    ensures (q.Contents(), out) == RunQueue(old(q.Contents()), ops)
    ensures |q.cached| + q.spareAllowance == old(|q.cached| + q.spareAllowance)
    ensures q.everAllocated == Elements(q.live) + Elements(q.cached) + q.freed
    ensures Elements(q.live) + Elements(q.cached) !! q.freed && Elements(q.live) !! Elements(q.cached)
  {
    out := [];
    q.Books();
    for i := 0 to |ops|
      invariant q.Valid() && q.quota == old(q.quota)
      invariant old(q.everAllocated) <= q.everAllocated && fresh(q.everAllocated - old(q.everAllocated))
      invariant (q.Contents(), out) == RunQueue(old(q.Contents()), ops[..i])
    {
      hide PointerQueue.Valid, PointerQueue.Contents, StepQueue, Returned;
      assert ops[..i + 1][..i] == ops[..i] && ops[..i + 1][i] == ops[i];
      q.Books();
      var answer := Step(q, ops[i]);
      out := out + answer;
    }
    assert ops[..|ops|] == ops;
    q.Books();
  }

  lemma NoElements()
    ensures Elements([]) == {} && Chain([], null)
  {
  }

  lemma AppendedChain(bs: seq<Bucket>, p: Bucket, head: Bucket?)
    requires p !in bs && p.next == null && head == if |bs| == 0 then p else bs[0]
    requires forall i {:trigger bs[i].next} :: 0 <= i < |bs| ==>
                                                 bs[i].next == if i == |bs| - 1 then p else bs[i + 1]
    requires forall i, j :: 0 <= i < j < |bs| ==> bs[i] != bs[j]
    ensures Chain(bs + [p], head) && Elements(bs + [p]) == Elements(bs) + {p}
  {
    ElementsAround(p, bs);
    var t := bs + [p];
    forall i | 0 <= i < |t| ensures t[i].next == if i == |t| - 1 then null else t[i + 1] {
      if i < |bs| {
        assert t[i] == bs[i];
      }
    }
  }
}
