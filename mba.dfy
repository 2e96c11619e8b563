/** Mixed boolean-arithmetic helpers of `cloakwork::mba`. Each template
    `f<Integral T>` is modelled for an unsigned T of `w` bits: every helper
    computes exactly the expression the source writes, and its contract states
    the native operation that expression equals modulo 2^w. */
module Mba {
  import opened Word

  /** add_mba: (x ^ y) + ((x & y) << 1). */
  function AddMba(w: nat, x: nat, y: nat): (r: nat)
    requires Fits(w, x) && Fits(w, y)
    ensures r == Add(w, x, y)
  {
    SumSplit(w, x, y);
    ShlOneIsDouble(w, And(w, x, y));
    ModInner(Xor(w, x, y), 2 * And(w, x, y), Pow2(w));
    Add(w, Xor(w, x, y), Shl(w, And(w, x, y), 1))
  }

  /** sub_mba: (x ^ y) - ((~x & y) << 1). */
  function SubMba(w: nat, x: nat, y: nat): (r: nat)
    requires Fits(w, x) && Fits(w, y)
    ensures r == Sub(w, x, y)
  {
    DifferenceSplit(w, x, y);
    ShlOneIsDouble(w, And(w, Not(w, x), y));
    ModInner(Xor(w, x, y), 2 * And(w, Not(w, x), y), Pow2(w));
    Sub(w, Xor(w, x, y), Shl(w, And(w, Not(w, x), y), 1))
  }

  /** mul2_mba as written: (x ^ (x << 1)) + (x << 1). The source's comment
      calls this x * 2; it is not (see Mul2MbaCounterexample). */
  function Mul2Mba(w: nat, x: nat): (r: nat)
    ensures Fits(w, r)
  {
    Add(w, Xor(w, x, Shl(w, x, 1)), Shl(w, x, 1))
  }

  /** The doubling the comment above mul2_mba describes, written with the
      same carry-save identity as add_mba: (x ^ x) + ((x & x) << 1). */
  function Mul2MbaIntended(w: nat, x: nat): (r: nat)
    requires Fits(w, x)
    ensures r == Add(w, x, x)
  {
    AddMba(w, x, x)
  }

  /** neg_mba: add_mba(~x, 1); the literal 1 needs a type of at least one bit. */
  function NegMba(w: nat, x: nat): (r: nat)
    requires w >= 1 && Fits(w, x)
    ensures r == Sub(w, 0, x)
  {
    NotValue(w, x);
    assert Pow2(w) == 2 * Pow2(w - 1);
    NegWraps(Pow2(w), x);
    AddMba(w, Not(w, x), 1)
  }

  /** and_mba: ~(~x | ~y). */
  function AndMba(w: nat, x: nat, y: nat): (r: nat)
    ensures r == And(w, x, y)
  {
    NotOrNot(w, x, y);
    Not(w, Or(w, Not(w, x), Not(w, y)))
  }

  /** or_mba: ~(~x & ~y). */
  function OrMba(w: nat, x: nat, y: nat): (r: nat)
    ensures r == Or(w, x, y)
  {
    NotAndNot(w, x, y);
    Not(w, And(w, Not(w, x), Not(w, y)))
  }

  /** With three or more bits, mul2_mba(1) is 5, not 2. */
  lemma Mul2MbaCounterexample(w: nat)
    requires w >= 3
    ensures Mul2Mba(w, 1) == 5 && Add(w, 1, 1) == 2
  {
    var p := Pow2(w);
    Pow2AtLeast8(w);
    assert Pow2(1) == 2;
    DivModUnique(2, 0, 2, p);
    assert Shl(w, 1, 1) == 2;
    XorOneTwo(w);
    DivModUnique(5, 0, 5, p);
  }

  // ---------------------------------------------------------------------
  // Helpers.
  // ---------------------------------------------------------------------

  lemma {:induction false} ShlOneIsDouble(w: nat, x: nat)
    ensures Shl(w, x, 1) == (2 * x) % Pow2(w)
  {
    assert Pow2(1) == 2;
  }

  lemma {:induction false} NegWraps(p: nat, x: int)
    requires 2 <= p && 0 <= x < p
    ensures (p - 1 - x + 1) % p == (0 - x) % p
  {
    if x == 0 {
      DivModUnique(p, 1, 0, p);
      DivModUnique(0, 0, 0, p);
    } else {
      DivModUnique(p - x, 0, p - x, p);
      DivModUnique(0 - x, -1, p - x, p);
    }
  }

  lemma {:induction false} Pow2AtLeast8(w: nat)
    requires w >= 3
    ensures Pow2(w) >= 8
  {
    if w > 3 { Pow2AtLeast8(w - 1); } else { assert Pow2(3) == 8; }
  }

  lemma {:induction false} XorOneTwo(w: nat)
    requires w >= 2
    ensures Xor(w, 1, 2) == 3
  {
    XorSelf(w - 2, 0);
    assert Xor(w - 1, 0, 1) == 1 + 2 * Xor(w - 2, 0, 0);
  }
}
