/** Masks on numbers: what `&`, `& ~` and `^` with a power of two minus one amount to. */
module Binary {
  import opened CTypes

  function Pow2(n: nat): (p: nat)
    ensures p > 0
  {
    if n == 0 then 1 else 2 * Pow2(n - 1)
  }

  /** x & y, bit by bit. */
  function And(x: nat, y: nat): nat {
    if x == 0 then 0 else 2 * And(x / 2, y / 2) + (x % 2) * (y % 2)
  }

  /** x & ~y */
  function AndNot(x: nat, y: nat): nat {
    if x == 0 then 0 else 2 * AndNot(x / 2, y / 2) + (if y % 2 == 1 then 0 else x % 2)
  }

  /** x ^ y */
  function Xor(x: nat, y: nat): nat
    decreases x + y
  {
    if x == 0 && y == 0 then 0 else 2 * Xor(x / 2, y / 2) + (if x % 2 == y % 2 then 0 else 1)
  }

  /** What is left of x modulo p. */
  function Low(x: nat, p: nat): (r: nat)
    requires p > 0
    ensures r <= x
  {
    x % p
  }

  /** Keeping the low bits is the remainder, clearing them rounds down to a multiple. */
  lemma {:induction false} WithMask(x: nat, k: nat)
    ensures And(x, Pow2(k) - 1) == Low(x, Pow2(k))
    ensures AndNot(x, Pow2(k) - 1) == x - Low(x, Pow2(k))
    decreases k
  {
    hide Low, And, AndNot;
    if k == 0 || x == 0 {
      AndWithNothing(x); LowOfLittle(x);
      NothingAnd(Pow2(k) - 1, Pow2(k));
    } else {
      WithMask(x / 2, k - 1);
      assert Pow2(k) == 2 * Pow2(k - 1);
      MaskStep(x, Pow2(k - 1));
    }
  }

  lemma LowOfLittle(x: nat)
    ensures Low(x, 1) == 0
  {
  }

  lemma NothingAnd(y: nat, p: nat)
    requires p > 0
    ensures And(0, y) == 0 && AndNot(0, y) == 0 && Low(0, p) == 0
  {
  }

  lemma MaskStep(x: nat, p: nat)
    requires x > 0 && p > 0 && And(x / 2, p - 1) == Low(x / 2, p) && AndNot(x / 2, p - 1) == x / 2 - Low(x / 2, p)
    ensures And(x, 2 * p - 1) == Low(x, 2 * p) && AndNot(x, 2 * p - 1) == x - Low(x, 2 * p)
  {
    hide And, AndNot, Low;
    HalfMask(p);
    HalfMod(x, p);
    OneStep(x, 2 * p - 1);
  }

  lemma OneStep(x: nat, y: nat)
    requires x > 0 && y % 2 == 1
    ensures And(x, y) == 2 * And(x / 2, y / 2) + x % 2
    ensures AndNot(x, y) == 2 * AndNot(x / 2, y / 2)
  {
  }

  lemma {:induction false} AndWithNothing(x: nat)
    ensures And(x, 0) == 0 && AndNot(x, 0) == x
  {
    if x > 0 { AndWithNothing(x / 2); }
  }

  lemma HalfMask(p: nat)
    requires p > 0
    ensures (2 * p - 1) / 2 == p - 1 && (2 * p - 1) % 2 == 1
  {
  }

  lemma HalfMod(x: nat, p: nat)
    requires p > 0
    ensures Low(x, 2 * p) == 2 * Low(x / 2, p) + x % 2
  {
    var h, q := x / 2, x / 2 / p;
    var r := h % p;
    assert h == p * q + r;
    assert x == (2 * p) * q + (2 * r + x % 2) by {
      assert x == 2 * h + x % 2;
      assert 2 * (p * q) == (2 * p) * q;
    }
    Remainder(x, 2 * p, q, 2 * r + x % 2);
  }

  lemma Remainder(x: nat, d: nat, q: nat, r: nat)
    requires r < d && x == d * q + r
    ensures x % d == r && x / d == q
  {
    var q', r' := x / d, x % d;
    assert x == d * q' + r' && r' < d;
    MulStrict(q, q', d);
    MulStrict(q', q, d);
  }

  lemma {:induction false} XorWithNothing(x: nat)
    ensures Xor(x, 0) == x
  {
    if x > 0 { XorWithNothing(x / 2); }
  }

  /** Flipping the lowest bit. */
  lemma XorWithOne(x: nat)
    ensures Xor(x, 1) == if x % 2 == 0 then x + 1 else x - 1
  {
    XorWithNothing(x / 2);
    assert Xor(x, 1) == 2 * Xor(x / 2, 0) + (if x % 2 == 1 then 0 else 1);
  }
}
