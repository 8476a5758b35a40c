/** The open-addressing table of src/map/pointer/mulle--pointermap-generic.c seen as two
    sequences: the keys half and the values half of its storage. The class PointerMap is
    proved against what is defined and proved here. */
module ProbeTable {
  import opened BitMath
  import opened Pointers

  /** The key half of the callbacks. `is_equal` has to be an equivalence; it is given by
      the class of each pointer. What `retain` returns is a parameter of the calls. */
  datatype KeyCallback = KeyCallback(hash: Pointer -> nat, classOf: Pointer -> int, notakey: Pointer)
  {
    predicate IsEqual(a: Pointer, b: Pointer) {
      classOf(a) == classOf(b)
    }

    /** Equal keys hash equally. */
    ghost predicate Valid() {
      forall a, b :: IsEqual(a, b) ==> hash(a) == hash(b)
    }

    /** Where the search for a key starts: `hash & (size - 2)`. */
    function Home(key: Pointer, n: nat): (h: nat)
      requires n >= 2
      ensures h < n
    {
      AndBound(hash(key), n - 2);
      And(hash(key), n - 2)
    }
  }

  /** In a table with a power of two slots the home slot is the hash modulo the size, rounded
      down to an even slot. */
  lemma HomeIsEven(cb: KeyCallback, key: Pointer, n: nat)
    requires n >= 2 && IsPower(n)
    ensures cb.Home(key, n) == cb.hash(key) % n - cb.hash(key) % 2
  {
    var k: nat :| n == Pow2(k);
    EvenMask(cb.hash(key), k);
  }

  // ----- cyclic positions -----

  /** How many steps a probe starting at `from` makes before it looks at `to`. */
  function Dist(from: nat, to: nat, n: nat): (d: nat)
    requires from < n && to < n
    ensures d < n
  {
    if from <= to then to - from else to + n - from
  }

  function Next(i: nat, n: nat): (j: nat)
    requires i < n
    ensures j < n
  {
    if i + 1 < n then i + 1 else 0
  }

  // ----- the invariant -----

  ghost predicate Unique(cb: KeyCallback, keys: seq<Pointer>) {
    forall i, j :: 0 <= i < |keys| && 0 <= j < |keys| && i != j
                   && keys[i] != cb.notakey && keys[j] != cb.notakey ==>
                     !cb.IsEqual(keys[i], keys[j])
  }

  /** No hole lies before slot `s` on the probe path of `key`. */
  ghost predicate PathFull(cb: KeyCallback, keys: seq<Pointer>, key: Pointer, s: nat)
    requires |keys| >= 2 && s < |keys|
  {
    var n := |keys|;
    forall j :: 0 <= j < n && Dist(cb.Home(key, n), j, n) < Dist(cb.Home(key, n), s, n) ==>
                  keys[j] != cb.notakey
  }

  ghost predicate Table(cb: KeyCallback, keys: seq<Pointer>) {
    && |keys| >= 2
    && Unique(cb, keys)
    && forall s :: 0 <= s < |keys| && keys[s] != cb.notakey ==> PathFull(cb, keys, keys[s], s)
  }

  /** Some stored key equals `key`. */
  ghost predicate Stores(cb: KeyCallback, keys: seq<Pointer>, key: Pointer) {
    exists s :: 0 <= s < |keys| && keys[s] != cb.notakey && cb.IsEqual(key, keys[s])
  }

  /** A probe that ran into the hole `i` has compared every slot before it in vain. */
  ghost predicate Missed(cb: KeyCallback, keys: seq<Pointer>, key: Pointer, i: nat)
    requires |keys| >= 2 && i < |keys|
  {
    var n := |keys|;
    forall j :: 0 <= j < n && Dist(cb.Home(key, n), j, n) < Dist(cb.Home(key, n), i, n) ==>
                  keys[j] != cb.notakey && !cb.IsEqual(key, keys[j])
  }

  /** One more failed comparison on the way to the hole `w`. */
  lemma MissStep(cb: KeyCallback, keys: seq<Pointer>, key: Pointer, i: nat, w: nat)
    requires |keys| >= 2 && i < |keys| && w < |keys| && i != w
    requires Missed(cb, keys, key, i) && keys[i] != cb.notakey && !cb.IsEqual(key, keys[i])
    requires var h := cb.Home(key, |keys|);
             Dist(h, i, |keys|) <= Dist(h, w, |keys|)
    ensures Missed(cb, keys, key, Next(i, |keys|))
    ensures var h := cb.Home(key, |keys|);
            Dist(h, Next(i, |keys|), |keys|) == Dist(h, i, |keys|) + 1 <= Dist(h, w, |keys|)
  {
  }

  lemma MissIsAbsence(cb: KeyCallback, keys: seq<Pointer>, key: Pointer, i: nat)
    requires cb.Valid() && Table(cb, keys) && i < |keys|
    requires keys[i] == cb.notakey && Missed(cb, keys, key, i)
    ensures !Stores(cb, keys, key)
  {
    forall s | 0 <= s < |keys| && keys[s] != cb.notakey ensures !cb.IsEqual(key, keys[s]) {
      assert PathFull(cb, keys, keys[s], s);
    }
  }

  lemma PlaceKeepsTable(cb: KeyCallback, keys: seq<Pointer>, key: Pointer, i: nat)
    requires cb.Valid() && Table(cb, keys) && i < |keys|
    requires key != cb.notakey && keys[i] == cb.notakey
    requires PathFull(cb, keys, key, i) && !Stores(cb, keys, key)
    ensures Table(cb, keys[i := key])
  {
    var now := keys[i := key];
    forall s | 0 <= s < |now| && now[s] != cb.notakey ensures PathFull(cb, now, now[s], s) {
      if s != i {
        assert PathFull(cb, keys, keys[s], s);
      }
    }
  }

  lemma ReplaceKeepsTable(cb: KeyCallback, keys: seq<Pointer>, key: Pointer, i: nat)
    requires cb.Valid() && Table(cb, keys) && i < |keys|
    requires key != cb.notakey && keys[i] != cb.notakey && cb.IsEqual(key, keys[i])
    ensures Table(cb, keys[i := key])
  {
    var now := keys[i := key];
    forall s | 0 <= s < |now| && now[s] != cb.notakey ensures PathFull(cb, now, now[s], s) {
      assert PathFull(cb, keys, keys[s], s);
    }
  }

  lemma EmptyTable(cb: KeyCallback, keys: seq<Pointer>)
    requires |keys| >= 2 && forall s :: 0 <= s < |keys| ==> keys[s] == cb.notakey
    ensures Table(cb, keys)
  {
  }

  // ----- deletion by backward shift -----

  /** The case analysis that decides whether an entry found at `i`, with home slot
      `start`, stays where it is while there is a gap at `dst`. */
  predicate Stays(start: nat, dst: nat, i: nat) {
    if start > i then dst > i && start > dst
    else dst > i || start > dst
  }

  /** It stays exactly when the gap is not on its probe path. */
  lemma StaysIffGapOffPath(start: nat, dst: nat, i: nat, n: nat)
    requires start < n && dst < n && i < n && dst != i
    ensures Stays(start, dst, i) <==> !(Dist(start, dst, n) < Dist(start, i, n))
  {
  }

  /** The only hole on a probe path is the gap at `dst`, and it lies only on the paths of
      entries that a scan from `dst` up to `i` has not reached yet. */
  ghost predicate OpenPaths(cb: KeyCallback, keys: seq<Pointer>, dst: nat, i: nat)
    requires |keys| >= 2 && dst < |keys| && i < |keys|
  {
    var n := |keys|;
    forall s, j :: 0 <= s < n && 0 <= j < n && keys[s] != cb.notakey && keys[j] == cb.notakey
                   && Dist(cb.Home(keys[s], n), j, n) < Dist(cb.Home(keys[s], n), s, n) ==>
                     j == dst && Dist(dst, i, n) < Dist(dst, s, n)
  }

  /** The table while entries are shifted back into the gap at `dst`. */
  ghost predicate Shifting(cb: KeyCallback, keys: seq<Pointer>, dst: nat, i: nat)
    requires |keys| >= 2 && dst < |keys| && i < |keys|
  {
    keys[dst] == cb.notakey && Unique(cb, keys) && OpenPaths(cb, keys, dst, i)
  }

  lemma ShiftStart(cb: KeyCallback, keys: seq<Pointer>, i: nat)
    requires Table(cb, keys) && i < |keys| && keys[i] != cb.notakey
    ensures Shifting(cb, keys[i := cb.notakey], i, i)
  {
    var now := keys[i := cb.notakey];
    var n := |keys|;
    forall s, j | 0 <= s < n && 0 <= j < n && now[s] != cb.notakey && now[j] == cb.notakey
                  && Dist(cb.Home(now[s], n), j, n) < Dist(cb.Home(now[s], n), s, n)
      ensures j == i && Dist(i, i, n) < Dist(i, s, n)
    {
      assert PathFull(cb, keys, keys[s], s);
    }
  }

  lemma ShiftStay(cb: KeyCallback, keys: seq<Pointer>, dst: nat, i: nat)
    requires |keys| >= 2 && dst < |keys| && i < |keys|
    requires Shifting(cb, keys, dst, i)
    requires Next(i, |keys|) != dst && keys[Next(i, |keys|)] != cb.notakey
    requires Stays(cb.Home(keys[Next(i, |keys|)], |keys|), dst, Next(i, |keys|))
    ensures Shifting(cb, keys, dst, Next(i, |keys|))
  {
    var n := |keys|;
    var i' := Next(i, n);
    StaysIffGapOffPath(cb.Home(keys[i'], n), dst, i', n);
    forall s, j | 0 <= s < n && 0 <= j < n && keys[s] != cb.notakey && keys[j] == cb.notakey
                  && Dist(cb.Home(keys[s], n), j, n) < Dist(cb.Home(keys[s], n), s, n)
      ensures j == dst && Dist(dst, i', n) < Dist(dst, s, n)
    {
      assert s != i';
    }
  }

  lemma ShiftMove(cb: KeyCallback, keys: seq<Pointer>, dst: nat, i: nat)
    requires |keys| >= 2 && dst < |keys| && i < |keys|
    requires Shifting(cb, keys, dst, i)
    requires Next(i, |keys|) != dst && keys[Next(i, |keys|)] != cb.notakey
    requires !Stays(cb.Home(keys[Next(i, |keys|)], |keys|), dst, Next(i, |keys|))
    ensures Shifting(cb, keys[dst := keys[Next(i, |keys|)]][Next(i, |keys|) := cb.notakey],
                     Next(i, |keys|), Next(i, |keys|))
  {
    MoveKeepsUnique(cb, keys, dst, Next(i, |keys|));
    MoveKeepsPaths(cb, keys, dst, i);
  }

  lemma MoveKeepsUnique(cb: KeyCallback, keys: seq<Pointer>, dst: nat, i: nat)
    requires dst < |keys| && i < |keys| && dst != i
    requires keys[dst] == cb.notakey && Unique(cb, keys)
    ensures Unique(cb, keys[dst := keys[i]][i := cb.notakey])
  {
  }

  lemma MoveKeepsPaths(cb: KeyCallback, keys: seq<Pointer>, dst: nat, i: nat)
    requires |keys| >= 2 && dst < |keys| && i < |keys|
    requires keys[dst] == cb.notakey && OpenPaths(cb, keys, dst, i)
    requires Next(i, |keys|) != dst && keys[Next(i, |keys|)] != cb.notakey
    requires !Stays(cb.Home(keys[Next(i, |keys|)], |keys|), dst, Next(i, |keys|))
    ensures OpenPaths(cb, keys[dst := keys[Next(i, |keys|)]][Next(i, |keys|) := cb.notakey],
                      Next(i, |keys|), Next(i, |keys|))
  {
    var n := |keys|;
    var i' := Next(i, n);
    var now := keys[dst := keys[i']][i' := cb.notakey];
    forall s, j | 0 <= s < n && 0 <= j < n && now[s] != cb.notakey && now[j] == cb.notakey
                  && Dist(cb.Home(now[s], n), j, n) < Dist(cb.Home(now[s], n), s, n)
      ensures j == i' && Dist(i', i', n) < Dist(i', s, n)
    {
      if j != i' {
        MovedPathIsFull(cb, keys, dst, i, s, j);
      }
    }
  }

  /** After a move the slot `i'` it came from is the only hole on any path. */
  lemma MovedPathIsFull(cb: KeyCallback, keys: seq<Pointer>, dst: nat, i: nat, s: nat, j: nat)
    requires |keys| >= 2 && dst < |keys| && i < |keys| && s < |keys| && j < |keys|
    requires keys[dst] == cb.notakey && OpenPaths(cb, keys, dst, i)
    requires Next(i, |keys|) != dst && keys[Next(i, |keys|)] != cb.notakey
    requires !Stays(cb.Home(keys[Next(i, |keys|)], |keys|), dst, Next(i, |keys|))
    requires s != Next(i, |keys|) && j != Next(i, |keys|)
    requires (if s == dst then keys[Next(i, |keys|)] else keys[s]) != cb.notakey
    requires var h := cb.Home(if s == dst then keys[Next(i, |keys|)] else keys[s], |keys|);
             Dist(h, j, |keys|) < Dist(h, s, |keys|)
    ensures j == dst || keys[j] != cb.notakey
  {
    var n := |keys|;
    var was := if s == dst then Next(i, n) else s;
    StaysIffGapOffPath(cb.Home(keys[Next(i, n)], n), dst, Next(i, n), n);
    assert Dist(cb.Home(keys[was], n), j, n) < Dist(cb.Home(keys[was], n), was, n);
  }

  /** A scan that has met a hole leaves no open path: the path would lead across that hole. */
  lemma NoOpenPath(cb: KeyCallback, keys: seq<Pointer>, dst: nat, i: nat, s: nat, j: nat)
    requires |keys| >= 2 && dst < |keys| && i < |keys| && s < |keys| && j < |keys|
    requires OpenPaths(cb, keys, dst, i) && keys[s] != cb.notakey
    requires Next(i, |keys|) != dst && keys[Next(i, |keys|)] == cb.notakey
    requires var h := cb.Home(keys[s], |keys|);
             Dist(h, j, |keys|) < Dist(h, s, |keys|)
    ensures keys[j] != cb.notakey
  {
    hide KeyCallback.Home;
  }

  lemma ShiftEnd(cb: KeyCallback, keys: seq<Pointer>, dst: nat, i: nat)
    requires |keys| >= 2 && dst < |keys| && i < |keys|
    requires Shifting(cb, keys, dst, i)
    requires Next(i, |keys|) != dst && keys[Next(i, |keys|)] == cb.notakey
    ensures Table(cb, keys)
  {
    hide Unique, OpenPaths, KeyCallback.Home;
    var n := |keys|;
    forall s | 0 <= s < n && keys[s] != cb.notakey ensures PathFull(cb, keys, keys[s], s) {
      var h := cb.Home(keys[s], n);
      forall j | 0 <= j < n && Dist(h, j, n) < Dist(h, s, n) ensures keys[j] != cb.notakey {
        NoOpenPath(cb, keys, dst, i, s, j);
      }
    }
  }
}
