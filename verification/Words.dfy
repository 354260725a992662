/** 64-bit words (`unsigned long`) and the bits they are made of.

    Every C operator the bitmap code applies to a word is wrapped in a function here; the
    lemmas say which bits its result has, and the rest of the project only uses those. */
module Words {

  type word = bv64

  function And(a: word, b: word): word { a & b }
  function Or(a: word, b: word): word { a | b }
  function Xor(a: word, b: word): word { a ^ b }
  function Not(a: word): word { !a }
  function Half(a: word): word { a >> 1 as bv7 }
  function Twice(a: word): word { a << 1 as bv7 }
  predicate Odd(a: word) { a & 1 == 1 }

  /** a << n, which is doubling n times in 64 bits; by the width of the word itself the result is 0. */
  function Shl(a: word, n: nat): word
    requires n <= 64
  {
    if n == 0 then a else Twice(Shl(a, n - 1))
  }

  /** a >> n, which is halving n times. */
  function Shr(a: word, n: nat): word
    requires n <= 64
  {
    if n == 0 then a else Shr(Half(a), n - 1)
  }

  /** Bit i of a word is set. */
  predicate Bit(a: word, i: nat)
    requires i < 64
  {
    Odd(Shr(a, i))
  }

  // ----- Shifting by one more, and by everything -----

  lemma ShiftStep(a: word, n: nat)
    requires n < 64
    ensures Shl(a, n + 1) == Twice(Shl(a, n)) && Shr(a, n + 1) == Shr(Half(a), n)
  {
    hide Twice, Half;
  }

  lemma HalfWithin(a: word, b: word)
    requires And(a, b) == a
    ensures And(Half(a), Half(b)) == Half(a) && And(Twice(a), Twice(b)) == Twice(a)
  {
  }

  /** A shifted word has no bits but those of a shifted word of ones. */
  lemma {:induction false} ShiftWithin(a: word, b: word, n: nat)
    requires n <= 64 && And(a, b) == a
    ensures And(Shr(a, n), Shr(b, n)) == Shr(a, n) && And(Shl(a, n), Shl(b, n)) == Shl(a, n)
    decreases n
  {
    hide And, Half, Twice;
    if n > 0 {
      HalfWithin(a, b);
      ShiftWithin(Half(a), Half(b), n - 1);
      ShiftWithin(a, b, n - 1);
      HalfWithin(Shl(a, n - 1), Shl(b, n - 1));
    }
  }

  lemma EightMore(a: word, n: nat)
    requires n <= 56
    ensures Shl(a, n + 8) == Shl(a, n) << 8 as bv7 && Shr(a, n + 8) == Shr(a >> 8 as bv7, n)
  {
    hide Twice, Half;
    EightTimes(Shl(a, n)); EightTimes(a);
    hide Shl, Shr;
    ShiftStep(a, n); ShiftStep(a, n + 1); ShiftStep(a, n + 2); ShiftStep(a, n + 3);
    ShiftStep(a, n + 4); ShiftStep(a, n + 5); ShiftStep(a, n + 6); ShiftStep(a, n + 7);
    var h1, h2, h3 := Half(a), Half(Half(a)), Half(Half(Half(a)));
    var h4, h5 := Half(h3), Half(Half(h3));
    var h6, h7 := Half(h5), Half(Half(h5));
    ShiftStep(h1, n + 6); ShiftStep(h2, n + 5); ShiftStep(h3, n + 4); ShiftStep(h4, n + 3);
    ShiftStep(h5, n + 2); ShiftStep(h6, n + 1); ShiftStep(h7, n);
  }

  lemma EightTimes(a: word)
    ensures Twice(Twice(Twice(Twice(Twice(Twice(Twice(Twice(a)))))))) == a << 8 as bv7
    ensures Half(Half(Half(Half(Half(Half(Half(Half(a)))))))) == a >> 8 as bv7
  {
  }

  lemma NoShift(a: word)
    ensures Shl(a, 0) == a && Shr(a, 0) == a
  {
  }

  lemma ShiftAll()
    ensures Shl(ONES, 64) == ZERO && Shr(ONES, 64) == ZERO
  {
    hide Half, Twice, Shl, Shr;
    NoShift(ONES);
    EightMore(ONES, 0); EightMore(ONES, 8); EightMore(ONES, 16); EightMore(ONES, 24);
    EightMore(ONES, 32); EightMore(ONES, 40); EightMore(ONES, 48); EightMore(ONES, 56);
    assert Shl(ONES, 64) == ZERO;
    EightMore(0xff_ffff_ffff_ffff, 48); EightMore(0xffff_ffff_ffff, 40); EightMore(0xff_ffff_ffff, 32);
    EightMore(0xffff_ffff, 24); EightMore(0xff_ffff, 16); EightMore(0xffff, 8); EightMore(0xff, 0);
    NoShift(ZERO);
  }

  lemma AndZero(a: word)
    ensures And(a, ONES) == a && And(a, ZERO) == ZERO
  {
  }

  lemma ShiftByNothing(a: word)
    ensures Shl(a, 0) == a && Shr(a, 0) == a
    ensures Shl(a, 64) == ZERO && Shr(a, 64) == ZERO
  {
    hide And, Half, Twice;
    AndZero(a); AndZero(Shl(a, 64)); AndZero(Shr(a, 64));
    ShiftWithin(a, ONES, 64);
    ShiftAll();
  }

  // ----- The bits of a result -----

  lemma BitStep(a: word, i: nat)
    requires i < 64
    ensures Bit(a, 0) == Odd(a)
    ensures i > 0 ==> Bit(a, i) == Bit(Half(a), i - 1)
  {
    hide Shr, Half, Odd;
    ShiftByNothing(a);
    if i > 0 { ShiftStep(a, i - 1); }
  }

  lemma HalfAnd(a: word, b: word)
    ensures Half(And(a, b)) == And(Half(a), Half(b)) && Odd(And(a, b)) == (Odd(a) && Odd(b))
  {
  }

  lemma HalfOr(a: word, b: word)
    ensures Half(Or(a, b)) == Or(Half(a), Half(b)) && Odd(Or(a, b)) == (Odd(a) || Odd(b))
  {
  }

  lemma HalfXor(a: word, b: word)
    ensures Half(Xor(a, b)) == Xor(Half(a), Half(b)) && Odd(Xor(a, b)) == (Odd(a) != Odd(b))
  {
  }

  lemma {:induction false} AndBit(a: word, b: word, i: nat)
    requires i < 64
    ensures Bit(And(a, b), i) == (Bit(a, i) && Bit(b, i))
    decreases i
  {
    hide *;
    BitStep(a, i); BitStep(b, i); BitStep(And(a, b), i);
    HalfAnd(a, b);
    if i > 0 { AndBit(Half(a), Half(b), i - 1); }
  }

  lemma {:induction false} OrBit(a: word, b: word, i: nat)
    requires i < 64
    ensures Bit(Or(a, b), i) == (Bit(a, i) || Bit(b, i))
    decreases i
  {
    hide *;
    BitStep(a, i); BitStep(b, i); BitStep(Or(a, b), i);
    HalfOr(a, b);
    if i > 0 { OrBit(Half(a), Half(b), i - 1); }
  }

  lemma {:induction false} XorBit(a: word, b: word, i: nat)
    requires i < 64
    ensures Bit(Xor(a, b), i) == (Bit(a, i) != Bit(b, i))
    decreases i
  {
    hide *;
    BitStep(a, i); BitStep(b, i); BitStep(Xor(a, b), i);
    HalfXor(a, b);
    if i > 0 { XorBit(Half(a), Half(b), i - 1); }
  }

  const ZERO: word := 0
  const ONES: word := 0xffff_ffff_ffff_ffff

  lemma {:induction false} ZeroBit(i: nat)
    requires i < 64
    ensures !Bit(ZERO, i)
  {
    hide Bit, Half, Shr;
    HalfOfNothing();
    BitStep(ZERO, i);
    if i > 0 { ZeroBit(i - 1); }
  }

  lemma HalfOfNothing()
    ensures Half(ZERO) == ZERO && !Odd(ZERO)
  {
  }

  /** Ones at the bottom and nothing above. */
  predicate LowOnes(a: word) { a & (a + 1) == 0 }

  lemma HalfLowOnes(a: word)
    requires LowOnes(a)
    ensures LowOnes(Half(a)) && (a != ZERO ==> Odd(a))
  {
  }

  lemma {:induction false} OnesLeft(n: nat)
    requires n < 64
    ensures LowOnes(Shr(ONES, n)) && Shr(ONES, n) != ZERO
    decreases 64 - n
  {
    hide Shr, Half, LowOnes;
    OnesAreLow(n);
    if n < 63 {
      OnesLeft(n + 1);
      ShrShr(ONES, n);
      HalfOfNothing();
    } else {
      TopOne();
    }
  }

  lemma {:induction false} OnesAreLow(n: nat)
    requires n < 64
    ensures LowOnes(Shr(ONES, n))
  {
    if n > 0 {
      OnesAreLow(n - 1);
      hide Shr, Half;
      ShrShr(ONES, n - 1);
      HalfLowOnes(Shr(ONES, n - 1));
    }
  }

  lemma TopOne()
    ensures Shr(ONES, 63) == ONE
  {
    hide Half, Twice, Shl, Shr;
    EightMore(ONES, 55); EightMore(0xff_ffff_ffff_ffff, 47); EightMore(0xffff_ffff_ffff, 39);
    EightMore(0xff_ffff_ffff, 31); EightMore(0xffff_ffff, 23); EightMore(0xff_ffff, 15); EightMore(0xffff, 7);
    SevenLeft();
  }

  lemma SevenLeft()
    ensures Shr(0xff, 7) == ONE
  {
    assert Shr(0xff, 7) == Shr(0x3f, 5) == Shr(0xf, 3) == Shr(0x3, 1);
  }

  lemma OnesBit(i: nat)
    requires i < 64
    ensures Bit(ONES, i)
  {
    hide Shr, Odd;
    OnesLeft(i);
    HalfLowOnes(Shr(ONES, i));
  }

  lemma NotIsXor(a: word)
    ensures Not(a) == Xor(a, ONES)
  {
  }

  lemma NotBit(a: word, i: nat)
    requires i < 64
    ensures Bit(Not(a), i) == !Bit(a, i)
  {
    hide *;
    NotIsXor(a); XorBit(a, ONES, i); OnesBit(i);
  }

  lemma HalfBit(a: word, i: nat)
    requires i < 64
    ensures Bit(Half(a), i) == (i + 1 < 64 && Bit(a, i + 1))
  {
    hide Shr, Half;
    if i + 1 < 64 { BitStep(a, i + 1); } else { ShiftStep(a, 63); ShiftByNothing(a); }
  }

  lemma HalfOfTwice(a: word)
    ensures Half(Twice(a)) == And(a, Half(ONES)) && !Odd(Twice(a))
  {
  }

  lemma TwiceBit(a: word, i: nat)
    requires i < 64
    ensures Bit(Twice(a), i) == (i > 0 && Bit(a, i - 1))
  {
    hide *;
    BitStep(Twice(a), i); HalfOfTwice(a);
    if i > 0 { AndBit(a, Half(ONES), i - 1); HalfBit(ONES, i - 1); OnesBit(i); }
  }

  lemma {:induction false} ShrBit(a: word, n: nat, i: nat)
    requires n <= 64 && i < 64
    ensures Bit(Shr(a, n), i) == (n + i < 64 && Bit(a, n + i))
    decreases n
  {
    hide *;
    ShiftByNothing(a);
    if n > 0 {
      ShiftStep(a, n - 1);
      ShrBit(Half(a), n - 1, i);
      if n - 1 + i < 64 { HalfBit(a, n - 1 + i); }
    }
  }

  lemma {:induction false} ShlBit(a: word, n: nat, i: nat)
    requires n <= 64 && i < 64
    ensures Bit(Shl(a, n), i) == (n <= i && Bit(a, i - n))
    decreases n
  {
    hide *;
    ShiftByNothing(a);
    if n > 0 {
      ShiftStep(a, n - 1);
      TwiceBit(Shl(a, n - 1), i);
      if i > 0 { ShlBit(a, n - 1, i - 1); }
    }
  }

  // ----- Masks -----

  const ONE: word := 1

  function Minus(a: word, b: word): word { a - b }

  /** (1UL << n) - 1 */
  function Mask(n: nat): word
    requires n <= 64
  {
    Minus(Shl(ONE, n), ONE)
  }

  lemma OneBit(i: nat)
    requires i < 64
    ensures Bit(ONE, i) <==> i == 0
  {
    hide *;
    BitStep(ONE, i); HalfOfOne();
    if i > 0 { ZeroBit(i - 1); }
  }

  lemma HalfOfOne()
    ensures Half(ONE) == ZERO && Odd(ONE) && Minus(ONE, ONE) == ZERO
  {
  }

  lemma MinusTwice(a: word)
    ensures Minus(Twice(a), ONE) == Or(Twice(Minus(a, ONE)), ONE)
  {
  }

  lemma {:induction false} MaskBit(n: nat, i: nat)
    requires n <= 64 && i < 64
    ensures Bit(Mask(n), i) <==> i < n
    decreases n
  {
    hide Shl, Minus, Twice, Or, Bit, Half, Odd;
    ShiftByNothing(ONE); HalfOfOne();
    if n == 0 {
      ZeroBit(i);
    } else {
      ShiftStep(ONE, n - 1); MinusTwice(Shl(ONE, n - 1));
      OrBit(Twice(Mask(n - 1)), ONE, i); OneBit(i); TwiceBit(Mask(n - 1), i);
      if i > 0 { MaskBit(n - 1, i - 1); }
    }
  }

  /** A word with no bit set from i on is 0 after a shift by i. */
  lemma {:induction false} NoBits(a: word, i: nat)
    requires i <= 64 && forall j :: i <= j < 64 ==> !Bit(a, j)
    ensures Shr(a, i) == ZERO
    decreases 64 - i
  {
    hide *;
    ShiftByNothing(a);
    if i < 64 {
      NoBits(a, i + 1);
      ShrShr(a, i);
      BitIsOdd(a, i);
      EvenIsTwice(Shr(a, i));
    }
  }

  lemma BitIsOdd(a: word, i: nat)
    requires i < 64
    ensures Bit(a, i) == Odd(Shr(a, i))
  {
  }

  lemma {:induction false} ShrShr(a: word, n: nat)
    requires n < 64
    ensures Half(Shr(a, n)) == Shr(a, n + 1)
    decreases n
  {
    hide *;
    ShiftStep(a, n);
    if n == 0 {
      ShiftByNothing(a); ShiftByNothing(Half(a));
    } else {
      ShiftStep(a, n - 1);
      ShrShr(Half(a), n - 1);
    }
  }

  lemma EvenIsTwice(a: word)
    requires !Odd(a) && Half(a) == ZERO
    ensures a == ZERO
  {
  }

  /** A word is determined by its bits; 0 is the word without any. */
  lemma SameBits(a: word, b: word)
    requires forall i :: 0 <= i < 64 ==> Bit(a, i) == Bit(b, i)
    ensures a == b
  {
    hide Bit, Xor, Shr;
    forall i | 0 <= i < 64 ensures !Bit(Xor(a, b), i) { XorBit(a, b, i); }
    NoBits(Xor(a, b), 0);
    ShiftByNothing(Xor(a, b));
    XorIsZero(a, b);
  }

  lemma XorBack(a: word, b: word)
    ensures Xor(Xor(a, b), b) == a
  {
  }

  lemma XorNothing(a: word)
    ensures Xor(ZERO, a) == a && Xor(a, a) == ZERO
  {
  }

  lemma XorIsZero(a: word, b: word)
    ensures Xor(a, b) == ZERO <==> a == b
  {
    hide Xor;
    XorBack(a, b);
    XorNothing(b);
  }

  // ----- Masking -----

  /** Masks from bit n upwards and below bit n, used to keep (&) or to set (|) bits. */
  lemma MaskedBits(a: word, n: nat)
    requires n <= 64
    ensures forall k :: 0 <= k < 64 ==> Bit(And(a, Shl(ONES, n)), k) == (k >= n && Bit(a, k))
    ensures forall k :: 0 <= k < 64 ==> Bit(And(a, Shr(ONES, 64 - n)), k) == (k < n && Bit(a, k))
    ensures forall k :: 0 <= k < 64 ==> Bit(And(a, Mask(n)), k) == (k < n && Bit(a, k))
    ensures forall k :: 0 <= k < 64 ==> Bit(Or(a, Shl(ONES, n)), k) == (k >= n || Bit(a, k))
    ensures forall k :: 0 <= k < 64 ==> Bit(Or(a, Shr(ONES, 64 - n)), k) == (k < n || Bit(a, k))
  {
    hide *;
    forall k | 0 <= k < 64
      ensures Bit(And(a, Shl(ONES, n)), k) == (k >= n && Bit(a, k))
      ensures Bit(Or(a, Shl(ONES, n)), k) == (k >= n || Bit(a, k))
      ensures Bit(And(a, Shr(ONES, 64 - n)), k) == (k < n && Bit(a, k))
      ensures Bit(Or(a, Shr(ONES, 64 - n)), k) == (k < n || Bit(a, k))
      ensures Bit(And(a, Mask(n)), k) == (k < n && Bit(a, k))
    {
      ShlBit(ONES, n, k); ShrBit(ONES, 64 - n, k); MaskBit(n, k);
      if k >= n { OnesBit(k - n); }
      if k < n { OnesBit(64 - n + k); }
      AndBit(a, Shl(ONES, n), k); OrBit(a, Shl(ONES, n), k);
      AndBit(a, Shr(ONES, 64 - n), k); OrBit(a, Shr(ONES, 64 - n), k);
      AndBit(a, Mask(n), k);
    }
  }

  // ----- Searching and counting in a word -----

  /** The lowest set bit of a from bit i on, 64 if there is none. */
  function LowestFrom(a: word, i: nat): (r: nat)
    requires i <= 64
    ensures i <= r <= 64 && (forall j :: i <= j < r ==> !Bit(a, j)) && (r < 64 ==> Bit(a, r))
    decreases 64 - i
  {
    if i < 64 && !Bit(a, i) then LowestFrom(a, i + 1) else i
  }

  /** `__ffs`: the lowest set bit; undefined for 0. */
  function Ffs(a: word): (r: nat)
    requires a != ZERO
    ensures r < 64 && Bit(a, r) && forall j :: 0 <= j < r ==> !Bit(a, j)
  {
    hide Bit;
    var r := LowestFrom(a, 0);
    assert r < 64 by { if r == 64 { NoBits(a, 0); ShiftByNothing(a); } }
    r
  }

  /** `ffz`: the lowest clear bit; undefined for ~0. */
  function Ffz(a: word): (r: nat)
    requires a != ONES
    ensures r < 64 && !Bit(a, r) && forall j :: 0 <= j < r ==> Bit(a, j)
  {
    hide Bit;
    NotOnes(a);
    var r := Ffs(Not(a));
    NotBit(a, r);
    assert forall j :: 0 <= j < r ==> Bit(a, j) by {
      forall j | 0 <= j < r ensures Bit(a, j) { NotBit(a, j); }
    }
    r
  }

  lemma NotOnes(a: word)
    ensures Not(a) == ZERO <==> a == ONES
  {
  }

  /** The number of set bits among the n lowest. */
  function Weight(a: word, n: nat): (w: nat)
    requires n <= 64
    ensures w <= n
  {
    if n == 0 then 0 else Weight(a, n - 1) + if Bit(a, n - 1) then 1 else 0
  }
}
