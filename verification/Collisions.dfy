/** Collision statistics (src/map/pointer/mulle--pointermap-generic.c:817-860) against the
    comparisons that the lookup of each stored key makes in vain. */
module Collisions {
  import opened Pointers
  import opened ProbeTable

  /** Failed comparisons of a probe for `key` that stands at slot `i` and may still look
      at `room` slots: it stops at an equal key or at a hole. */
  ghost function Misses(cb: KeyCallback, keys: seq<Pointer>, key: Pointer, i: nat, room: nat): nat
    requires i < |keys|
    decreases room
  {
    if room == 0 || keys[i] == cb.notakey || cb.IsEqual(key, keys[i]) then 0
    else 1 + Misses(cb, keys, key, Next(i, |keys|), room - 1)
  }

  /** Failed comparisons of a whole lookup. */
  ghost function LookupMisses(cb: KeyCallback, keys: seq<Pointer>, key: Pointer): nat
    requires |keys| >= 2
  {
    Misses(cb, keys, key, cb.Home(key, |keys|), |keys|)
  }

  /** The failed comparisons of looking up every key in the first `n` slots once. */
  ghost function TotalMisses(cb: KeyCallback, keys: seq<Pointer>, n: nat): nat
    requires n <= |keys| && |keys| >= 2
  {
    if n == 0 then 0
    else TotalMisses(cb, keys, n - 1)
         + if keys[n - 1] == cb.notakey then 0 else LookupMisses(cb, keys, keys[n - 1])
  }

  /** A probe that has come to slot `i` in vain, and ends there, has failed once a step. */
  lemma {:induction false} MissesUpTo(cb: KeyCallback, keys: seq<Pointer>, key: Pointer, i: nat, j: nat, room: nat)
    requires |keys| >= 2 && i < |keys| && j < |keys| && Missed(cb, keys, key, i)
    requires keys[i] == cb.notakey || cb.IsEqual(key, keys[i])
    requires var h := cb.Home(key, |keys|);
             Dist(h, j, |keys|) + Dist(j, i, |keys|) == Dist(h, i, |keys|)
    requires Dist(j, i, |keys|) < room
    ensures Misses(cb, keys, key, j, room) == Dist(j, i, |keys|)
    decreases room
  {
    if i == j {
    } else {
      MissesUpTo(cb, keys, key, i, Next(j, |keys|), room - 1);
    }
  }

  /** A lookup fails as many comparisons as its probe makes steps. */
  lemma ProbeMisses(cb: KeyCallback, keys: seq<Pointer>, key: Pointer, i: nat)
    requires |keys| >= 2 && i < |keys| && Missed(cb, keys, key, i)
    requires keys[i] == cb.notakey || cb.IsEqual(key, keys[i])
    ensures LookupMisses(cb, keys, key) == Dist(cb.Home(key, |keys|), i, |keys|)
  {
    MissesUpTo(cb, keys, key, i, cb.Home(key, |keys|), |keys|);
  }

  lemma StoredMisses(cb: KeyCallback, keys: seq<Pointer>, s: nat)
    requires Table(cb, keys) && s < |keys| && keys[s] != cb.notakey
    ensures LookupMisses(cb, keys, keys[s]) == Dist(cb.Home(keys[s], |keys|), s, |keys|)
  {
    assert PathFull(cb, keys, keys[s], s);
    ProbeMisses(cb, keys, keys[s], s);
  }

  /** The slots that the probe for the key in slot `s` looks at before it comes to `s`, for
      every key in the first `n` slots. */
  ghost function Passed(cb: KeyCallback, keys: seq<Pointer>, n: nat): set<(nat, nat)>
    requires n <= |keys| && |keys| >= 2
  {
    set s: nat, j: nat | s < n && j < |keys| && keys[s] != cb.notakey
                         && Dist(cb.Home(keys[s], |keys|), j, |keys|) < Dist(cb.Home(keys[s], |keys|), s, |keys|)
      :: (s, j)
  }

  /** The comparison with each of these slots fails. */
  lemma PassedInVain(cb: KeyCallback, keys: seq<Pointer>, s: nat, j: nat)
    requires Table(cb, keys) && (s, j) in Passed(cb, keys, |keys|)
    ensures keys[s] != cb.notakey && keys[j] != cb.notakey && !cb.IsEqual(keys[s], keys[j])
  {
    assert PathFull(cb, keys, keys[s], s);
  }

  lemma {:induction false} SlotsWithin(s: nat, h: nat, n: nat, d: nat)
    requires h < n && d <= n
    ensures |set j: nat | j < n && Dist(h, j, n) < d :: (s, j)| == d
  {
    if d == 0 {
      assert (set j: nat | j < n && Dist(h, j, n) < d :: (s, j)) == {};
    } else {
      SlotsWithin(s, h, n, d - 1);
      var last := if h + d - 1 < n then h + d - 1 else h + d - 1 - n;
      var fewer := set j: nat | j < n && Dist(h, j, n) < d - 1 :: (s, j);
      assert (set j: nat | j < n && Dist(h, j, n) < d :: (s, j)) == fewer + {(s, last)};
    }
  }

  lemma PassedStep(cb: KeyCallback, keys: seq<Pointer>, n: nat)
    requires n < |keys| && |keys| >= 2
    ensures |Passed(cb, keys, n + 1)|
            == |Passed(cb, keys, n)|
               + if keys[n] == cb.notakey then 0 else Dist(cb.Home(keys[n], |keys|), n, |keys|)
  {
    hide KeyCallback.Home;
    var before, now := Passed(cb, keys, n), Passed(cb, keys, n + 1);
    if keys[n] == cb.notakey {
      assert now == before;
    } else {
      var h := cb.Home(keys[n], |keys|);
      var d := Dist(h, n, |keys|);
      var row := set j: nat | j < |keys| && Dist(h, j, |keys|) < d :: (n, j);
      SlotsWithin(n, h, |keys|, d);
      assert now == before + row && before !! row;
    }
  }

  /** The keys in the first `n` slots whose slot is their home. */
  ghost function InPlace(cb: KeyCallback, keys: seq<Pointer>, n: nat): set<nat>
    requires n <= |keys| && |keys| >= 2
  {
    set s: nat | s < n && keys[s] != cb.notakey && cb.Home(keys[s], |keys|) == s
  }

  lemma InPlaceStep(cb: KeyCallback, keys: seq<Pointer>, n: nat)
    requires n < |keys| && |keys| >= 2
    ensures |InPlace(cb, keys, n + 1)|
            == |InPlace(cb, keys, n)| + if keys[n] != cb.notakey && cb.Home(keys[n], |keys|) == n then 1 else 0
  {
    hide KeyCallback.Home;
    var before, now := InPlace(cb, keys, n), InPlace(cb, keys, n + 1);
    var there := keys[n] != cb.notakey && cb.Home(keys[n], |keys|) == n;
    forall s: nat ensures s in now <==> s in before || (there && s == n) {
    }
    assert now == if there then before + {n} else before;
  }

  /** The count is the number of slots that the probes for all stored keys look at before
      they find their key, and with that of the comparisons that fail. */
  method CountCollisions(cb: KeyCallback, storage: array<Pointer>, size: nat)
    returns (collisions: nat, perfects: nat)
    requires storage.Length == 2 * size
    requires size > 0 ==> size >= 2 && Table(cb, storage[..size])
    ensures size == 0 ==> collisions == perfects == 0
    ensures size > 0 ==>
              collisions == |set s: nat, j: nat
                               | s < size && j < size && storage[s] != cb.notakey
                                 && Dist(cb.Home(storage[s], size), j, size)
                                    < Dist(cb.Home(storage[s], size), s, size)
                               :: (s, j)|
    ensures size > 0 ==> collisions == TotalMisses(cb, storage[..size], size)
    ensures size > 0 ==>
              perfects == |set s: nat | s < size && storage[s] != cb.notakey && cb.Home(storage[s], size) == s|
  {
    hide Table, LookupMisses, Misses, Passed, InPlace, KeyCallback.Home;
    collisions, perfects := 0, 0;
    if size == 0 {
      return;
    }
    ghost var keys := storage[..size];
    NoSlots(cb, keys);
    var i := 0;
    while i < size
      invariant i <= size
      invariant collisions == TotalMisses(cb, keys, i) == |Passed(cb, keys, i)|
      invariant perfects == |InPlace(cb, keys, i)|
    {
      var key := storage[i];
      if key != cb.notakey {
        var start := cb.Home(key, size);
        var distance;
        if start <= i {
          distance := i - start;
          if distance == 0 {
            perfects := perfects + 1;
          }
        } else {
          distance := size - start + i;
        }
        collisions := collisions + distance;
        StoredMisses(cb, keys, i);
      }
      PassedStep(cb, keys, i);
      InPlaceStep(cb, keys, i);
      i := i + 1;
    }
    PassedInStorage(cb, storage, size);
  }

  lemma NoSlots(cb: KeyCallback, keys: seq<Pointer>)
    requires |keys| >= 2
    ensures Passed(cb, keys, 0) == {} && InPlace(cb, keys, 0) == {}
  {
  }

  lemma PassedInStorage(cb: KeyCallback, storage: array<Pointer>, size: nat)
    requires 2 <= size <= storage.Length
    ensures Passed(cb, storage[..size], size)
            == set s: nat, j: nat
                 | s < size && j < size && storage[s] != cb.notakey
                   && Dist(cb.Home(storage[s], size), j, size) < Dist(cb.Home(storage[s], size), s, size)
                 :: (s, j)
    ensures InPlace(cb, storage[..size], size)
            == set s: nat | s < size && storage[s] != cb.notakey && cb.Home(storage[s], size) == s
  {
    hide KeyCallback.Home;
  }
}
