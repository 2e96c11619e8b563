/** Unsigned machine words of an arbitrary width `w` (8 * sizeof(T) for the
    integral types cloakwork's templates are instantiated with), represented
    as naturals below 2^w. The bitwise operators are defined bit by bit, from
    the least significant bit upwards, so that they are independent reference
    definitions of C++'s `^`, `&`, `|` and `~` on a w-bit unsigned type; the
    arithmetic operators wrap modulo 2^w as unsigned C++ arithmetic does. */
module Word {

  function Pow2(w: nat): (p: nat)
    ensures p >= 1
  {
    if w == 0 then 1 else 2 * Pow2(w - 1)
  }

  /** `x` is a value of a w-bit unsigned type. */
  predicate Fits(w: nat, x: int) {
    0 <= x < Pow2(w)
  }

  function Bit(x: nat): nat { x % 2 }

  /** The bit that a condition sets. */
  function B(c: bool): nat { if c then 1 else 0 }

  function Xor(w: nat, x: nat, y: nat): (r: nat)
    ensures r < Pow2(w)
  {
    if w == 0 then 0 else B(Bit(x) != Bit(y)) + 2 * Xor(w - 1, x / 2, y / 2)
  }

  function And(w: nat, x: nat, y: nat): (r: nat)
    ensures r < Pow2(w)
  {
    if w == 0 then 0 else B(Bit(x) == 1 && Bit(y) == 1) + 2 * And(w - 1, x / 2, y / 2)
  }

  function Or(w: nat, x: nat, y: nat): (r: nat)
    ensures r < Pow2(w)
  {
    if w == 0 then 0
    else B(Bit(x) == 1 || Bit(y) == 1) + 2 * Or(w - 1, x / 2, y / 2)
  }

  /** `~x` on a w-bit unsigned type. */
  function Not(w: nat, x: nat): (r: nat)
    ensures r < Pow2(w)
  {
    if w == 0 then 0 else B(Bit(x) == 0) + 2 * Not(w - 1, x / 2)
  }

  /** `x + y`, `x - y`, `x << n` and `x >> n` on a w-bit unsigned type. */
  function Add(w: nat, x: int, y: int): nat { (x + y) % Pow2(w) }

  function Sub(w: nat, x: int, y: int): nat { (x - y) % Pow2(w) }

  /** `x * y` on a w-bit unsigned type. */
  function Mul(w: nat, x: int, y: int): nat { (x * y) % Pow2(w) }

  function Shl(w: nat, x: nat, n: nat): nat { (x * Pow2(n)) % Pow2(w) }

  function Shr(x: nat, n: nat): nat
  {
    DivNonNegative(x, Pow2(n));
    x / Pow2(n)
  }

  /** `std::rotl(x, 1)` and `std::rotr(x, 1)` on a w-bit unsigned type. */
  function Rotl1(w: nat, x: nat): nat
    requires w >= 1
  {
    Shl(w, x, 1) + Shr(x, w - 1)
  }

  function Rotr1(w: nat, x: nat): nat
    requires w >= 1
  {
    Shr(x, 1) + Shl(w, x, w - 1)
  }

  /** `std::rotl(x, n)` and `std::rotr(x, n)`: n single-bit rotations. */
  function Rotl(w: nat, x: nat, n: nat): nat
    requires w >= 1
    decreases n
  {
    if n == 0 then x else Rotl1(w, Rotl(w, x, n - 1))
  }

  function Rotr(w: nat, x: nat, n: nat): nat
    requires w >= 1
    decreases n
  {
    if n == 0 then x else Rotr(w, Rotr1(w, x), n - 1)
  }

  /** The widths cloakwork's types come in. */
  lemma Pow2Values()
    ensures Pow2(8) == 0x100 && Pow2(16) == 0x1_0000
    ensures Pow2(32) == 0x1_0000_0000 && Pow2(64) == 0x1_0000_0000_0000_0000
  {
    assert Pow2(4) == 16;
    assert Pow2(8) == 0x100;
    assert Pow2(12) == 0x1000;
    assert Pow2(16) == 0x1_0000;
    assert Pow2(20) == 0x10_0000;
    assert Pow2(24) == 0x100_0000;
    assert Pow2(28) == 0x1000_0000;
    assert Pow2(32) == 0x1_0000_0000;
    assert Pow2(36) == 0x10_0000_0000;
    assert Pow2(40) == 0x100_0000_0000;
    assert Pow2(44) == 0x1000_0000_0000;
    assert Pow2(48) == 0x1_0000_0000_0000;
    assert Pow2(52) == 0x10_0000_0000_0000;
    assert Pow2(56) == 0x100_0000_0000_0000;
    assert Pow2(60) == 0x1000_0000_0000_0000;
  }

  // ---------------------------------------------------------------------
  // Facts about the bitwise operators, each proved bit by bit.
  // ---------------------------------------------------------------------

  lemma {:induction false} XorInvolutive(w: nat, x: nat, k: nat)
    requires Fits(w, x)
    ensures Xor(w, Xor(w, x, k), k) == x
  {
    if w > 0 {
      HalfFits(w, x);
      XorStep(w, x, k);
      XorStep(w, Xor(w, x, k), k);
      XorInvolutive(w - 1, x / 2, k / 2);
    }
  }

  lemma {:induction false} XorSelf(w: nat, x: nat)
    ensures Xor(w, x, x) == 0
  {
    if w > 0 { XorSelf(w - 1, x / 2); }
  }

  lemma {:induction false} XorZero(w: nat, x: nat)
    requires Fits(w, x)
    ensures Xor(w, x, 0) == x
  {
    if w > 0 {
      HalfFits(w, x);
      XorZero(w - 1, x / 2);
    }
  }

  lemma {:induction false} OrZero(w: nat, x: nat)
    requires Fits(w, x)
    ensures Or(w, x, 0) == x
  {
    if w > 0 {
      HalfFits(w, x);
      OrZero(w - 1, x / 2);
    }
  }

  lemma {:induction false} AndZero(w: nat, y: nat)
    ensures And(w, 0, y) == 0
  {
    if w > 0 { AndZero(w - 1, y / 2); }
  }

  lemma {:induction false} AndZeroRight(w: nat, x: nat)
    ensures And(w, x, 0) == 0
  {
    if w > 0 { AndZeroRight(w - 1, x / 2); }
  }

  /** `x & 1` is the low bit of x. */
  lemma AndOne(w: nat, x: nat)
    requires w >= 1
    ensures And(w, x, 1) == x % 2
  {
    AndZeroRight(w - 1, x / 2);
  }

  /** `x & ~0` is x. */
  lemma {:induction false} AndAllOnes(w: nat, x: nat)
    requires Fits(w, x)
    ensures And(w, x, Pow2(w) - 1) == x
  {
    if w > 0 {
      HalfFits(w, x);
      assert (Pow2(w) - 1) / 2 == Pow2(w - 1) - 1;
      AndAllOnes(w - 1, x / 2);
    }
  }

  lemma {:induction false} XorComm(w: nat, x: nat, y: nat)
    ensures Xor(w, x, y) == Xor(w, y, x)
  {
    if w > 0 { XorComm(w - 1, x / 2, y / 2); }
  }

  lemma {:induction false} OrComm(w: nat, x: nat, y: nat)
    ensures Or(w, x, y) == Or(w, y, x)
  {
    if w > 0 { OrComm(w - 1, x / 2, y / 2); }
  }

  lemma {:induction false} AndNotSelf(w: nat, x: nat)
    ensures And(w, x, Not(w, x)) == 0
  {
    if w > 0 {
      NotStep(w, x);
      AndNotSelf(w - 1, x / 2);
    }
  }

  /** `x | y` is never below `x`: setting bits only increases a value. */
  lemma {:induction false} OrAtLeast(w: nat, x: nat, y: nat)
    requires Fits(w, x)
    ensures Or(w, x, y) >= x
  {
    if w > 0 {
      HalfFits(w, x);
      OrAtLeast(w - 1, x / 2, y / 2);
    }
  }

  /** `~x == 2^w - 1 - x`. */
  lemma {:induction false} NotValue(w: nat, x: nat)
    requires Fits(w, x)
    ensures Not(w, x) == Pow2(w) - 1 - x
  {
    if w > 0 {
      HalfFits(w, x);
      NotValue(w - 1, x / 2);
    }
  }

  lemma {:induction false} NotNot(w: nat, x: nat)
    requires Fits(w, x)
    ensures Not(w, Not(w, x)) == x
  {
    NotValue(w, x);
    NotValue(w, Not(w, x));
  }

  /** De Morgan: `~(~x | ~y) == x & y`. */
  lemma {:induction false} NotOrNot(w: nat, x: nat, y: nat)
    ensures Not(w, Or(w, Not(w, x), Not(w, y))) == And(w, x, y)
  {
    if w > 0 {
      var nx, ny := Not(w, x), Not(w, y);
      NotStep(w, x);
      NotStep(w, y);
      OrStep(w, nx, ny);
      NotStep(w, Or(w, nx, ny));
      NotOrNot(w - 1, x / 2, y / 2);
    }
  }

  /** De Morgan: `~(~x & ~y) == x | y`. */
  lemma {:induction false} NotAndNot(w: nat, x: nat, y: nat)
    ensures Not(w, And(w, Not(w, x), Not(w, y))) == Or(w, x, y)
  {
    if w > 0 {
      var nx, ny := Not(w, x), Not(w, y);
      NotStep(w, x);
      NotStep(w, y);
      AndStep(w, nx, ny);
      NotStep(w, And(w, nx, ny));
      NotAndNot(w - 1, x / 2, y / 2);
    }
  }

  /** The carry-save decomposition behind add_mba: x + y == (x ^ y) + 2 (x & y). */
  lemma {:induction false} SumSplit(w: nat, x: nat, y: nat)
    requires Fits(w, x) && Fits(w, y)
    ensures x + y == Xor(w, x, y) + 2 * And(w, x, y)
  {
    if w > 0 {
      HalfFits(w, x);
      HalfFits(w, y);
      SumSplit(w - 1, x / 2, y / 2);
      assert x == 2 * (x / 2) + Bit(x) && y == 2 * (y / 2) + Bit(y);
    } else {
      assert x == 0 && y == 0;
    }
  }

  /** The borrow decomposition behind sub_mba: x - y == (x ^ y) - 2 (~x & y). */
  lemma {:induction false} DifferenceSplit(w: nat, x: nat, y: nat)
    requires Fits(w, x) && Fits(w, y)
    ensures x - y == Xor(w, x, y) - 2 * And(w, Not(w, x), y)
  {
    if w > 0 {
      HalfFits(w, x);
      HalfFits(w, y);
      NotStep(w, x);
      DifferenceSplit(w - 1, x / 2, y / 2);
      assert x == 2 * (x / 2) + Bit(x) && y == 2 * (y / 2) + Bit(y);
    } else {
      assert x == 0 && y == 0;
    }
  }

  /** Rotating left by one and then right by one gives the value back. */
  lemma {:induction false} RotateOneRoundTrip(w: nat, x: nat)
    requires w >= 1 && Fits(w, x)
    ensures Rotr1(w, Rotl1(w, x)) == x
  {
    var h := Pow2(w - 1);
    var hi, lo := x / h, x % h;
    RotlSplit(w, x);
    var l := Rotl1(w, x);
    assert l == 2 * lo + hi;
    RotrSplit(w, hi, lo);
    DivMod(x, h);
  }

  /** Rotating right by one and then left by one gives the value back, and
      both one-bit rotations stay within w bits. */
  lemma {:induction false} RotateOneRoundTripRight(w: nat, x: nat)
    requires w >= 1 && Fits(w, x)
    ensures Fits(w, Rotl1(w, x)) && Fits(w, Rotr1(w, x))
    ensures Rotl1(w, Rotr1(w, x)) == x
  {
    var h := Pow2(w - 1);
    assert Pow2(w) == 2 * h;
    RotlSplit(w, x);
    var hi, lo := x / h, x % h;
    assert Rotl1(w, x) == 2 * lo + hi && lo < h && hi < 2;
    var b, q := x % 2, x / 2;
    RotrValue(w, x);
    RotlTopBit(w, b, q);
    assert Rotr1(w, x) == b * h + q;
    assert x == 2 * q + b;
  }

  /** Rotating right by one moves the bottom bit to the top. */
  lemma {:induction false} RotrValue(w: nat, x: nat)
    requires w >= 1 && Fits(w, x)
    ensures x / 2 < Pow2(w - 1)
    ensures Rotr1(w, x) == (x % 2) * Pow2(w - 1) + x / 2
  {
    assert Pow2(w) == 2 * Pow2(w - 1);
    DivMod(x, 2);
    RotrSplit(w, x % 2, x / 2);
  }

  /** Rotating left by one moves the top bit back to the bottom. */
  lemma {:induction false} RotlTopBit(w: nat, b: nat, q: nat)
    requires w >= 1 && b < 2 && q < Pow2(w - 1)
    ensures Fits(w, b * Pow2(w - 1) + q)
    ensures Rotl1(w, b * Pow2(w - 1) + q) == 2 * q + b
  {
    var h := Pow2(w - 1);
    assert Pow2(w) == 2 * h;
    var y := b * h + q;
    if b == 0 {
      assert y == q;
      DivModUnique(y, 0, q, h);
    } else {
      assert y == h + q;
      DivModUnique(y, 1, q, h);
    }
    RotlSplit(w, y);
  }

  /** Rotating by n bits one way and then the other gives the value back;
      rotations stay within w bits. */
  lemma {:induction false} RotateRoundTrip(w: nat, x: nat, n: nat)
    requires w >= 1 && Fits(w, x)
    ensures Fits(w, Rotl(w, x, n)) && Fits(w, Rotr(w, x, n))
    ensures Rotr(w, Rotl(w, x, n), n) == x
    ensures Rotl(w, Rotr(w, x, n), n) == x
    decreases n
  {
    if n > 0 {
      RotateRoundTrip(w, x, n - 1);
      var z := Rotl(w, x, n - 1);
      RotateOneRoundTripRight(w, z);
      RotateOneRoundTrip(w, z);
      var r := Rotr1(w, x);
      RotateOneRoundTripRight(w, x);
      RotateRoundTrip(w, r, n - 1);
    }
  }

  lemma DivMod(x: nat, h: nat)
    requires h > 0
    ensures x == (x / h) * h + x % h
  {
  }

  /** Rotating left by one moves the top bit (x / 2^(w-1)) to the bottom. */
  lemma {:induction false} RotlSplit(w: nat, x: nat)
    requires w >= 1 && Fits(w, x)
    ensures x / Pow2(w - 1) < 2
    ensures Rotl1(w, x) == 2 * (x % Pow2(w - 1)) + x / Pow2(w - 1)
  {
    var h := Pow2(w - 1);
    assert Pow2(w) == 2 * h;
    assert Pow2(1) == 2;
    // x << 1 drops the top bit; x >> (w - 1) is the top bit
    if x < h {
      DivModUnique(x, 0, x, h);
      DivModUnique(x * 2, 0, 2 * x, 2 * h);
    } else {
      DivModUnique(x, 1, x - h, h);
      DivModUnique(x * 2, 1, 2 * (x - h), 2 * h);
    }
  }

  /** Rotating right by one moves the bottom bit to the top. */
  lemma {:induction false} RotrSplit(w: nat, hi: nat, lo: nat)
    requires w >= 1 && hi < 2 && lo < Pow2(w - 1)
    ensures Rotr1(w, 2 * lo + hi) == hi * Pow2(w - 1) + lo
  {
    var h := Pow2(w - 1);
    assert Pow2(w) == 2 * h;
    assert Pow2(1) == 2;
    var l := 2 * lo + hi;
    DivModUnique(l, lo, hi, 2);
    if hi == 0 {
      assert l * h == lo * (2 * h);
      DivModUnique(l * h, lo, 0, 2 * h);
    } else {
      assert l * h == lo * (2 * h) + h;
      DivModUnique(l * h, lo, h, 2 * h);
    }
  }

  /** Adding a key and then subtracting it, both modulo 2^w, gives the value back. */
  lemma {:induction false} AddSubRoundTrip(w: nat, x: nat, k: int)
    requires Fits(w, x)
    ensures Sub(w, Add(w, x, k), k) == x
  {
    var p := Pow2(w);
    var s := x + k;
    assert s == (s / p) * p + s % p;
    DivModUnique(s % p - k, -(s / p), x, p);
  }

  /** Subtracting a key and then adding it, both modulo 2^w, gives the
      value back. */
  lemma {:induction false} SubAddRoundTrip(w: nat, x: nat, k: int)
    requires Fits(w, x)
    ensures Add(w, Sub(w, x, k), k) == x
  {
    var p := Pow2(w);
    var d := x - k;
    assert d == (d / p) * p + d % p;
    DivModUnique(d % p + k, -(d / p), x, p);
  }

  /** `static_cast<T>(draw)` for a w-bit unsigned T. */
  function Truncate(w: nat, draw: nat): (k: nat)
    ensures Fits(w, k)
  {
    draw % Pow2(w)
  }

  // ---------------------------------------------------------------------
  // One step of each bitwise recursion, and arithmetic helpers.
  // ---------------------------------------------------------------------

  lemma {:induction false} Digits(b: nat, q: nat)
    requires b < 2
    ensures (b + 2 * q) / 2 == q && Bit(b + 2 * q) == b
  {
    DivModUnique(b + 2 * q, q, b, 2);
  }

  lemma {:induction false} XorStep(w: nat, x: nat, y: nat)
    requires w >= 1
    ensures Xor(w, x, y) / 2 == Xor(w - 1, x / 2, y / 2)
    ensures Bit(Xor(w, x, y)) == B(Bit(x) != Bit(y))
  {
    Digits(B(Bit(x) != Bit(y)), Xor(w - 1, x / 2, y / 2));
  }

  lemma {:induction false} AndStep(w: nat, x: nat, y: nat)
    requires w >= 1
    ensures And(w, x, y) / 2 == And(w - 1, x / 2, y / 2)
    ensures Bit(And(w, x, y)) == B(Bit(x) == 1 && Bit(y) == 1)
  {
    Digits(B(Bit(x) == 1 && Bit(y) == 1), And(w - 1, x / 2, y / 2));
  }

  lemma {:induction false} OrStep(w: nat, x: nat, y: nat)
    requires w >= 1
    ensures Or(w, x, y) / 2 == Or(w - 1, x / 2, y / 2)
    ensures Bit(Or(w, x, y)) == B(Bit(x) == 1 || Bit(y) == 1)
  {
    Digits(B(Bit(x) == 1 || Bit(y) == 1), Or(w - 1, x / 2, y / 2));
  }

  lemma {:induction false} NotStep(w: nat, x: nat)
    requires w >= 1
    ensures Not(w, x) / 2 == Not(w - 1, x / 2) && Bit(Not(w, x)) == B(Bit(x) == 0)
  {
    Digits(B(Bit(x) == 0), Not(w - 1, x / 2));
  }

  /** Reducing one operand first does not change a sum or difference modulo p. */
  lemma {:induction false} ModInner(a: int, b: int, p: int)
    requires p > 0
    ensures (a + b % p) % p == (a + b) % p
    ensures (a - b % p) % p == (a - b) % p
  {
    var q := b / p;
    assert b == q * p + b % p;
    var s, d := a + b % p, a - b % p;
    DivModUnique(a + b, s / p + q, s % p, p);
    DivModUnique(a - b, d / p - q, d % p, p);
  }

  lemma {:induction false} HalfFits(w: nat, x: nat)
    requires w >= 1 && Fits(w, x)
    ensures Fits(w - 1, x / 2)
  {
  }

  /** Division with remainder is unique. */
  lemma {:induction false} DivModUnique(x: int, q: int, r: int, p: int)
    requires p > 0 && x == q * p + r && 0 <= r < p
    ensures x / p == q && x % p == r
  {
    var q', r' := x / p, x % p;
    assert x == q' * p + r';
    assert (q - q') * p == r' - r;
    if q - q' >= 1 {
      MulAtLeast(q - q', p);
    } else if q - q' <= -1 {
      MulAtLeast(q' - q, p);
    }
  }

  lemma {:induction false} DivNonNegative(x: nat, p: int)
    requires p > 0
    ensures x / p >= 0
  {
    var q := x / p;
    assert x == q * p + x % p;
    if q <= -1 {
      MulAtLeast(-q, p);
    }
  }

  lemma {:induction false} MulAtLeast(a: int, p: int)
    requires a >= 1 && p > 0
    ensures a * p >= p
  {
  }
}
