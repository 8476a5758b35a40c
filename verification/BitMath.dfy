/** The power-of-two helpers of the containers (src/mulle-container-math.h), over
    naturals with an explicit word width. The bit operators are defined bit by bit, so
    that what the tricks compute is proved by induction and for every width. */
module BitMath {

  function Pow2(k: nat): (r: nat)
    ensures r >= 1
  {
    if k == 0 then 1 else 2 * Pow2(k - 1)
  }

  ghost predicate IsPower(n: nat) {
    exists k: nat :: n == Pow2(k)
  }

  /** `r` is the least power of two that is not below `v`. */
  ghost predicate IsLeastPower(r: nat, v: nat) {
    IsPower(r) && v <= r && forall p: nat :: IsPower(p) && v <= p ==> r <= p
  }

  /** `r` is the greatest power of two that is not above `v`. */
  ghost predicate IsGreatestPower(r: nat, v: nat) {
    IsPower(r) && r <= v && forall p: nat :: IsPower(p) && p <= v ==> p <= r
  }

  // ----- the bit operators -----

  predicate Bit(v: nat, i: nat) {
    if i == 0 then v % 2 == 1 else Bit(v / 2, i - 1)
  }

  function And(a: nat, b: nat): nat {
    if a == 0 || b == 0 then 0
    else (if a % 2 == 1 && b % 2 == 1 then 1 else 0) + 2 * And(a / 2, b / 2)
  }

  function Or(a: nat, b: nat): nat {
    if a == 0 then b
    else if b == 0 then a
    else (if a % 2 == 1 || b % 2 == 1 then 1 else 0) + 2 * Or(a / 2, b / 2)
  }

  function Shr(v: nat, s: nat): nat {
    if s == 0 then v else Shr(v / 2, s - 1)
  }

  /** Number of significant bits. */
  function Len(v: nat): nat {
    if v == 0 then 0 else 1 + Len(v / 2)
  }

  /** Addition of two words; the carry out of the word is lost. */
  function Add(a: nat, b: nat, w: nat): (r: nat)
    requires a < Pow2(w) && b < Pow2(w)
    ensures r < Pow2(w)
  {
    if a + b < Pow2(w) then a + b else a + b - Pow2(w)
  }

  lemma {:induction false} Pow2Monotone(j: nat, k: nat)
    requires j < k
    ensures Pow2(j) < Pow2(k)
  {
    if j + 1 == k {
    } else {
      Pow2Monotone(j, k - 1);
    }
  }

  lemma NextPower(p: nat, q: nat)
    requires IsPower(p) && IsPower(q) && p < q
    ensures 2 * p <= q
  {
    var j: nat :| p == Pow2(j);
    var k: nat :| q == Pow2(k);
    if k < j {
      Pow2Monotone(k, j);
    } else if j < k - 1 {
      Pow2Monotone(j, k - 1);
    }
  }

  lemma {:induction false} LenBounds(v: nat)
    ensures v < Pow2(Len(v))
    ensures v > 0 ==> Pow2(Len(v) - 1) <= v
  {
    if v <= 1 {
    } else {
      LenBounds(v / 2);
    }
  }

  lemma {:induction false} BitOr(a: nat, b: nat, i: nat)
    ensures Bit(Or(a, b), i) <==> Bit(a, i) || Bit(b, i)
  {
    BitZero(i);
    if a == 0 || b == 0 || i == 0 {
    } else {
      BitOr(a / 2, b / 2, i - 1);
    }
  }

  lemma {:induction false} BitZero(i: nat)
    ensures !Bit(0, i)
  {
    if i == 0 {
    } else {
      BitZero(i - 1);
    }
  }

  lemma {:induction false} BitShr(v: nat, s: nat, i: nat)
    ensures Bit(Shr(v, s), i) <==> Bit(v, i + s)
  {
    if s == 0 {
    } else {
      BitShr(v / 2, s - 1, i);
    }
  }

  lemma {:induction false} ShrOnce(v: nat, s: nat)
    ensures Shr(v, s + 1) == Shr(v, s) / 2
  {
    if s == 0 {
    } else {
      ShrOnce(v / 2, s - 1);
    }
  }

  lemma {:induction false} BitBeyond(v: nat, i: nat)
    requires Len(v) <= i
    ensures !Bit(v, i)
  {
    if v == 0 {
      BitZero(i);
    } else {
      BitBeyond(v / 2, i - 1);
    }
  }

  lemma {:induction false} TopBit(v: nat)
    requires v > 0
    ensures Bit(v, Len(v) - 1)
  {
    if v <= 1 {
    } else {
      TopBit(v / 2);
    }
  }

  // ----- smearing the top bit downwards -----

  /** No bit at or above `len`, and the `m` bits just below `len` are all set. */
  ghost predicate TopOnes(v: nat, len: nat, m: nat) {
    && (forall i: nat :: len <= i ==> !Bit(v, i))
    && (forall i: nat :: i < len <= i + m ==> Bit(v, i))
  }

  lemma TopOnesStart(v: nat)
    ensures TopOnes(v, Len(v), 1)
  {
    forall i: nat | Len(v) <= i ensures !Bit(v, i) {
      BitBeyond(v, i);
    }
    if v > 0 {
      TopBit(v);
    }
  }

  lemma SmearDoubles(v: nat, len: nat, m: nat)
    requires TopOnes(v, len, m)
    ensures TopOnes(Or(v, Shr(v, m)), len, 2 * m)
  {
    var r := Or(v, Shr(v, m));
    forall i: nat | len <= i ensures !Bit(r, i) {
      BitOr(v, Shr(v, m), i);
      BitShr(v, m, i);
    }
    forall i: nat | i < len <= i + 2 * m ensures Bit(r, i) {
      BitOr(v, Shr(v, m), i);
      BitShr(v, m, i);
    }
  }

  lemma {:induction false} AllOnes(v: nat, len: nat, m: nat)
    requires TopOnes(v, len, m) && len <= m
    ensures v == Pow2(len) - 1
  {
    if len == 0 {
      if v > 0 {
        TopBit(v);
        assert false;
      }
    } else {
      assert Bit(v, 0);
      forall i: nat ensures Bit(v / 2, i) == Bit(v, i + 1) {
      }
      AllOnes(v / 2, len - 1, m);
    }
  }

  // ----- rounding -----

  /** What the rounding functions are for, without a word width. */
  function RoundUp(v: nat): nat {
    if v <= 1 then 1 else Pow2(Len(v - 1))
  }

  lemma RoundUpIsLeast(v: nat)
    ensures IsLeastPower(RoundUp(v), v)
  {
    assert Pow2(0) == 1;
    if v > 1 {
      LenBounds(v - 1);
      forall p: nat | IsPower(p) && v <= p ensures RoundUp(v) <= p {
        var k: nat :| p == Pow2(k);
        if k < Len(v - 1) {
          if k < Len(v - 1) - 1 {
            Pow2Monotone(k, Len(v - 1) - 1);
          }
        } else if Len(v - 1) < k {
          Pow2Monotone(Len(v - 1), k);
        }
      }
    }
  }

  lemma TopBitIsGreatest(v: nat)
    requires v > 0
    ensures IsGreatestPower(Pow2(Len(v) - 1), v)
  {
    LenBounds(v);
    forall p: nat | IsPower(p) && p <= v ensures p <= Pow2(Len(v) - 1) {
      var k: nat :| p == Pow2(k);
      if Len(v) <= k {
        if Len(v) < k {
          Pow2Monotone(Len(v), k);
        }
        assert false;
      } else if k < Len(v) - 1 {
        Pow2Monotone(k, Len(v) - 1);
      }
    }
  }

  lemma {:induction false} LenFits(v: nat, k: nat)
    requires v < Pow2(k)
    ensures Len(v) <= k
  {
    if v == 0 {
    } else {
      LenFits(v / 2, k - 1);
    }
  }

  /** The decrement that starts rounding up and the increment that ends it. */
  lemma RoundUpEpilogue(v: nat, u: nat, w: nat)
    requires 0 < w && v < Pow2(w) && u == Add(v, Pow2(w) - 1, w)
    ensures Len(u) <= w && Pow2(Len(u)) - 1 < Pow2(w) && 1 < Pow2(w)
    ensures var s := Add(Pow2(Len(u)) - 1, 1, w);
            (if s != 0 then s else 1) == if v <= Pow2(w - 1) then RoundUp(v) else 1
  {
    LenFits(u, w);
    LenBounds(u);
    if Len(u) < w {
      Pow2Monotone(Len(u), w);
    }
    if v == 0 || v > Pow2(w - 1) {
      if Len(u) < w - 1 {
        Pow2Monotone(Len(u), w - 1);
      }
      assert Len(u) == w;
    } else {
      LenFits(u, w - 1);
    }
  }

  /** One `v |= v >> s` statement. */
  method Smear(v: nat, s: nat, ghost len: nat) returns (r: nat)
    requires TopOnes(v, len, s)
    ensures TopOnes(r, len, 2 * s)
  {
    SmearDoubles(v, len, s);
    r := Or(v, Shr(v, s));
  }

  /** The shifts that the rounding functions share; the 64 bit ones add a last step. */
  method SmearWord(v: nat, w: nat) returns (r: nat)
    requires (w == 32 || w == 64) && v < Pow2(w)
    ensures r == Pow2(Len(v)) - 1
  {
    ghost var len := Len(v);
    TopOnesStart(v);
    r := Smear(v, 1, len);
    r := Smear(r, 2, len);
    r := Smear(r, 4, len);
    r := Smear(r, 8, len);
    r := Smear(r, 16, len);
    if w == 64 {
      r := Smear(r, 32, len);
    }
    LenFits(v, w);
    AllOnes(r, len, w);
  }

  method Pow2RoundUp(v: nat, w: nat) returns (r: nat)
    requires (w == 32 || w == 64) && v < Pow2(w)
    ensures v <= Pow2(w - 1) ==> r == RoundUp(v) && IsLeastPower(r, v)
    ensures v > Pow2(w - 1) ==> r == 1
  {
    hide Pow2, Len, RoundUp, IsLeastPower, Add;
    var u := Add(v, Pow2(w) - 1, w);
    RoundUpEpilogue(v, u, w);
    RoundUpIsLeast(v);
    u := SmearWord(u, w);
    u := Add(u, 1, w);
    r := if u != 0 then u else 1;
  }

  method Pow2RoundDown(v: nat, w: nat) returns (r: nat)
    requires (w == 32 || w == 64) && v < Pow2(w)
    ensures v == 0 ==> r == 0
    ensures v > 0 ==> IsGreatestPower(r, v)
  {
    var u := SmearWord(v, w);
    RoundDownEpilogue(v, u);
    r := u - Shr(u, 1);
  }

  lemma RoundDownEpilogue(v: nat, u: nat)
    requires u == Pow2(Len(v)) - 1
    ensures Shr(u, 1) <= u
    ensures v == 0 ==> u - Shr(u, 1) == 0
    ensures v > 0 ==> IsGreatestPower(u - Shr(u, 1), v)
  {
    assert Shr(u, 1) == Shr(u / 2, 0) == u / 2;
    if v > 0 {
      TopBitIsGreatest(v);
      assert u / 2 == Pow2(Len(v) - 1) - 1;
    }
  }

  // ----- the test for a power of two -----

  predicate IsPow2(x: nat, w: nat)
    requires 0 < w && x < Pow2(w)
  {
    And(x, Add(Pow2(w) - 1 - x, 1, w)) == x
  }

  lemma IsPow2Exact(x: nat, w: nat)
    requires 0 < w && x < Pow2(w)
    ensures IsPow2(x, w) <==> x == 0 || IsPower(x)
  {
    if x > 0 {
      LowestBit(x, w);
    }
  }

  lemma PowerHalves(x: nat)
    requires x > 0 && x % 2 == 0
    ensures IsPower(x) <==> IsPower(x / 2)
  {
    if IsPower(x / 2) {
      var k: nat :| x / 2 == Pow2(k);
      assert x == Pow2(k + 1);
    }
    if IsPower(x) {
      var k: nat :| x == Pow2(k);
      assert k > 0 && x / 2 == Pow2(k - 1);
    }
  }

  lemma OddPower(x: nat)
    requires x % 2 == 1
    ensures IsPower(x) <==> x == 1
  {
    assert Pow2(0) == 1;
    if IsPower(x) {
      var k: nat :| x == Pow2(k);
      assert k == 0;
    }
  }

  lemma {:induction false} LowestBit(x: nat, w: nat)
    requires 0 < x < Pow2(w)
    ensures And(x, Pow2(w) - x) == x <==> IsPower(x)
  {
    var n := Pow2(w - 1);
    var y := 2 * n - x;
    if x % 2 == 0 {
      LowestBit(x / 2, w - 1);
      PowerHalves(x);
      assert y % 2 == 0 && y / 2 == n - x / 2;
    } else {
      OddPower(x);
      assert y % 2 == 1 && y / 2 == n - 1 - x / 2;
      AndComplement(x / 2, w - 1);
      assert And(x, y) == 1;
    }
  }

  lemma {:induction false} AndComplement(y: nat, w: nat)
    requires y < Pow2(w)
    ensures And(y, Pow2(w) - 1 - y) == 0
  {
    if w == 0 {
    } else {
      assert (Pow2(w) - 1 - y) / 2 == Pow2(w - 1) - 1 - y / 2;
      AndComplement(y / 2, w - 1);
    }
  }

  // ----- masks -----

  lemma {:induction false} AndBound(a: nat, b: nat)
    ensures And(a, b) <= b
  {
    if a == 0 || b == 0 {
    } else {
      AndBound(a / 2, b / 2);
    }
  }

  /** `a & (n - 1)` is `a` modulo `n` when `n` is a power of two. */
  lemma {:induction false} MaskIsModulo(a: nat, k: nat)
    ensures And(a, Pow2(k) - 1) == a % Pow2(k)
  {
    if k == 0 {
    } else {
      var n := Pow2(k - 1);
      assert (Pow2(k) - 1) / 2 == n - 1;
      MaskIsModulo(a / 2, k - 1);
      ModDouble(a, n);
      if a != 0 && Pow2(k) - 1 != 0 {
        assert (Pow2(k) - 1) % 2 == 1;
      }
    }
  }

  /** `a & (n - 2)` is `a` modulo `n` with the lowest bit cleared. */
  lemma EvenMask(a: nat, k: nat)
    requires k > 0
    ensures Pow2(k) >= 2 && And(a, Pow2(k) - 2) == a % Pow2(k) - a % 2
  {
    var n := Pow2(k - 1);
    assert (Pow2(k) - 2) / 2 == n - 1 && (Pow2(k) - 2) % 2 == 0;
    MaskIsModulo(a / 2, k - 1);
    ModDouble(a, n);
    if a == 0 {
    } else if n == 1 {
      assert (a / 2) % n == 0;
    } else {
      assert And(a, Pow2(k) - 2) == 2 * And(a / 2, n - 1);
    }
  }

  lemma ModDouble(a: nat, n: nat)
    requires n > 0
    ensures a % (2 * n) == a % 2 + 2 * ((a / 2) % n)
  {
    var q, r := (a / 2) / n, (a / 2) % n;
    assert a == (2 * n) * q + (2 * r + a % 2) by {
      assert a / 2 == n * q + r;
    }
    DivUnique(a, 2 * n, q, 2 * r + a % 2);
  }

  lemma DivUnique(a: int, d: int, q: int, r: int)
    requires a == d * q + r && 0 <= r < d
    ensures a % d == r
  {
    var q', r' := a / d, a % d;
    assert a == d * q' + r';
    Distribute(d, q, q');
    if q > q' {
      AtLeastOne(d, q - q');
    } else if q < q' {
      AtLeastOne(d, q' - q);
      Distribute(d, q', q);
    }
  }

  lemma Distribute(d: int, x: int, y: int)
    ensures d * (x - y) == d * x - d * y
  {
  }

  lemma AtLeastOne(d: int, x: int)
    requires d > 0 && x >= 1
    ensures d * x >= d
  {
  }

  /** Stepping with the mask and stepping with a comparison are the same. */
  lemma MaskStep(i: nat, n: nat)
    requires i < n && IsPower(n)
    ensures And(i + 1, n - 1) == if i + 1 < n then i + 1 else 0
  {
    var k: nat :| n == Pow2(k);
    MaskIsModulo(i + 1, k);
    if i + 1 < n {
      DivUnique(i + 1, n, 0, i + 1);
    } else {
      DivUnique(i + 1, n, 1, 0);
    }
  }
}
