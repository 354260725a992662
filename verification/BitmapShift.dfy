/** `__bitmap_shift_right` and `__bitmap_shift_left` of stack_and_service/lib/bitmap.c. */
module BitmapShift {
  import opened Words
  import opened Bitmaps

  /** Word j with the unused bits of the last word cleared. */
  function Trim(w: word, bits: nat, j: nat): word {
    if bits % 64 != 0 && j == Longs(bits) - 1 then And(w, Mask(bits % 64)) else w
  }

  lemma LastWord(bits: nat, j: nat)
    requires j < Longs(bits)
    ensures if bits % 64 != 0 && j == Longs(bits) - 1 then bits == 64 * j + bits % 64 else 64 * j + 64 <= bits
  {
  }

  lemma TrimBits(w: word, bits: nat, j: nat, b: nat)
    requires j < Longs(bits) && b < 64
    ensures Bit(Trim(w, bits, j), b) == (64 * j + b < bits && Bit(w, b))
  {
    hide Bit, And, Mask, Longs;
    LastWord(bits, j);
    MaskedBits(w, bits % 64);
  }

  /** Two neighbouring words, `upper` above `lower`, moved down by `rem` bits. */
  lemma FunnelRight(upper: word, lower: word, rem: nat, b: nat)
    requires rem < 64 && b < 64
    ensures Bit(Or(Shl(upper, 64 - rem), Shr(lower, rem)), b)
            == if b + rem < 64 then Bit(lower, b + rem) else Bit(upper, b + rem - 64)
  {
    hide *;
    OrBit(Shl(upper, 64 - rem), Shr(lower, rem), b);
    ShlBit(upper, 64 - rem, b); ShrBit(lower, rem, b);
  }

  /** Two neighbouring words, `upper` above `lower`, moved up by `rem` bits. */
  lemma FunnelLeft(upper: word, lower: word, rem: nat, b: nat)
    requires rem < 64 && b < 64
    ensures Bit(Or(Shr(lower, 64 - rem), Shl(upper, rem)), b)
            == if b >= rem then Bit(upper, b - rem) else Bit(lower, 64 - rem + b)
  {
    hide *;
    OrBit(Shr(lower, 64 - rem), Shl(upper, rem), b);
    ShrBit(lower, 64 - rem, b); ShlBit(upper, rem, b);
  }

  // ----- Right -----

  /** Word k of the result of a right shift, as the loop computes it. */
  function RightWord(m: seq<word>, shift: nat, bits: nat, k: nat): word
    requires Longs(bits) <= |m| && k + shift / 64 < Longs(bits)
  {
    var off, rem := shift / 64, shift % 64;
    var upper := if rem == 0 || off + k + 1 >= Longs(bits) then ZERO else Trim(m[off + k + 1], bits, off + k + 1);
    Trim(Or(Shl(upper, 64 - rem), Shr(Trim(m[off + k], bits, off + k), rem)), bits, k)
  }

  lemma RightWordBits(m: seq<word>, shift: nat, bits: nat, k: nat, b: nat)
    requires Longs(bits) <= |m| && k + shift / 64 < Longs(bits) && b < 64
    ensures Bit(RightWord(m, shift, bits, k), b)
            == (64 * k + b + shift < bits && Has(m, 64 * k + b + shift))
  {
    hide Bit, Trim, Or, Shl, Shr, Longs;
    var off, rem := shift / 64, shift % 64;
    var upper := if rem == 0 || off + k + 1 >= Longs(bits) then ZERO else Trim(m[off + k + 1], bits, off + k + 1);
    var lower := Trim(m[off + k], bits, off + k);
    TrimBits(Or(Shl(upper, 64 - rem), Shr(lower, rem)), bits, k, b);
    FunnelRight(upper, lower, rem, b);
    var i := 64 * k + b + shift;
    if b + rem < 64 {
      TrimBits(m[off + k], bits, off + k, b + rem);
      assert i / 64 == off + k && i % 64 == b + rem;
    } else {
      assert i / 64 == off + k + 1 && i % 64 == b + rem - 64;
      if off + k + 1 < Longs(bits) { TrimBits(m[off + k + 1], bits, off + k + 1, b + rem - 64); } else { ZeroBit(b + rem - 64); }
    }
  }

  /** Moves every bit down by `shift`; garbage above `bits` in the source is ignored, no bit above
      `bits` is set in the result, and the source may be the destination. */
  method ShiftRight(dst: array<word>, src: array<word>, shift: nat, bits: nat)
    requires Longs(bits) <= dst.Length && Longs(bits) <= src.Length && shift / 64 <= Longs(bits)
    modifies dst
    ensures forall i :: 0 <= i < 64 * Longs(bits) ==>
              Has(dst[..], i) == (i + shift < bits && old(Has(src[..], i + shift)))
    ensures dst[Longs(bits)..] == old(dst[Longs(bits)..])
  {
    hide Bit, Has, RightWord, Trim, And, Or, Shl, Shr, Mask;
    var lim, left := Longs(bits), bits % 64;
    var off, rem := shift / 64, shift % 64;
    ghost var m := src[..];
    var k := 0;
    while off + k < lim
      invariant 0 <= k <= lim - off
      invariant forall j :: 0 <= j < k ==> dst[j] == RightWord(m, shift, bits, j)
      invariant forall j :: k <= j < src.Length ==> src[j] == m[j]
      invariant dst[lim..] == old(dst[lim..])
    {
      var upper := ZERO;
      if rem != 0 && off + k + 1 < lim {
        upper := src[off + k + 1];
        if off + k + 1 == lim - 1 && left != 0 { upper := And(upper, Mask(left)); }
      }
      var lower := src[off + k];
      if left != 0 && off + k == lim - 1 { lower := And(lower, Mask(left)); }
      RightWordIs(m, shift, bits, k, upper, lower);
      dst[k] := Or(Shl(upper, 64 - rem), Shr(lower, rem));
      if left != 0 && k == lim - 1 { dst[k] := And(dst[k], Mask(left)); }
      k := k + 1;
    }
    forall j | lim - off <= j < lim { dst[j] := ZERO; }
    RightBits(m, shift, bits, dst[..]);
  }

  lemma RightWordIs(m: seq<word>, shift: nat, bits: nat, k: nat, upper: word, lower: word)
    requires Longs(bits) <= |m| && k + shift / 64 < Longs(bits)
    requires var j, lim, left := k + shift / 64, Longs(bits), bits % 64;
             && upper == (if shift % 64 == 0 || j + 1 >= lim then ZERO
                          else if j + 1 == lim - 1 && left != 0 then And(m[j + 1], Mask(left)) else m[j + 1])
             && lower == (if left != 0 && j == lim - 1 then And(m[j], Mask(left)) else m[j])
    ensures var w := Or(Shl(upper, 64 - shift % 64), Shr(lower, shift % 64));
            RightWord(m, shift, bits, k) == if bits % 64 != 0 && k == Longs(bits) - 1 then And(w, Mask(bits % 64)) else w
  {
    hide And, Or, Shl, Shr, Mask;
  }

  lemma RightBits(m: seq<word>, shift: nat, bits: nat, r: seq<word>)
    requires Longs(bits) <= |m| && Longs(bits) <= |r| && shift / 64 <= Longs(bits)
    requires forall j :: 0 <= j < Longs(bits) - shift / 64 ==> r[j] == RightWord(m, shift, bits, j)
    requires forall j :: Longs(bits) - shift / 64 <= j < Longs(bits) ==> r[j] == ZERO
    ensures forall i :: 0 <= i < 64 * Longs(bits) ==> Has(r, i) == (i + shift < bits && Has(m, i + shift))
  {
    hide Bit, RightWord;
    forall i | 0 <= i < 64 * Longs(bits) ensures Has(r, i) == (i + shift < bits && Has(m, i + shift)) {
      if i / 64 < Longs(bits) - shift / 64 {
        RightWordBits(m, shift, bits, i / 64, i % 64);
      } else {
        ZeroBit(i % 64);
      }
    }
  }

  // ----- Left -----

  /** Word k + shift / 64 of the result of a left shift, as the loop computes it. */
  function LeftWord(m: seq<word>, shift: nat, bits: nat, k: nat): word
    requires Longs(bits) <= |m| && k + shift / 64 < Longs(bits)
  {
    var off, rem := shift / 64, shift % 64;
    var lower := if rem != 0 && k > 0 then m[k - 1] else ZERO;
    Trim(Or(Shr(lower, 64 - rem), Shl(Trim(m[k], bits, k), rem)), bits, k + off)
  }

  lemma LeftWordBits(m: seq<word>, shift: nat, bits: nat, k: nat, b: nat)
    requires Longs(bits) <= |m| && k + shift / 64 < Longs(bits) && b < 64
    ensures var i := 64 * (k + shift / 64) + b;
            Bit(LeftWord(m, shift, bits, k), b) == (i < bits && shift <= i && Has(m, i - shift))
  {
    hide Bit, Trim, Or, Shl, Shr, Longs;
    var off, rem := shift / 64, shift % 64;
    var lower := if rem != 0 && k > 0 then m[k - 1] else ZERO;
    var upper := Trim(m[k], bits, k);
    TrimBits(Or(Shr(lower, 64 - rem), Shl(upper, rem)), bits, k + off, b);
    FunnelLeft(upper, lower, rem, b);
    var i := 64 * (k + off) + b;
    assert i - shift == 64 * k + b - rem;
    if b >= rem {
      TrimBits(m[k], bits, k, b - rem);
      assert (i - shift) / 64 == k && (i - shift) % 64 == b - rem;
    } else if k > 0 {
      assert (i - shift) / 64 == k - 1 && (i - shift) % 64 == 64 - rem + b;
    } else {
      ZeroBit(64 - rem + b);
    }
  }

  /** Moves every bit up by `shift`, with the same guarantees as `ShiftRight`. */
  method ShiftLeft(dst: array<word>, src: array<word>, shift: nat, bits: nat)
    requires Longs(bits) <= dst.Length && Longs(bits) <= src.Length && shift / 64 <= Longs(bits)
    modifies dst
    ensures forall i :: 0 <= i < 64 * Longs(bits) ==>
              Has(dst[..], i) == (i < bits && shift <= i && old(Has(src[..], i - shift)))
    ensures dst[Longs(bits)..] == old(dst[Longs(bits)..])
  {
    hide Bit, Has, LeftWord, Trim, And, Or, Shl, Shr, Mask;
    var lim, left := Longs(bits), bits % 64;
    var off, rem := shift / 64, shift % 64;
    ghost var m := src[..];
    var k := lim - off - 1;
    while k >= 0
      invariant -1 <= k < lim - off
      invariant forall j :: k < j < lim - off ==> dst[j + off] == LeftWord(m, shift, bits, j)
      invariant forall j :: 0 <= j <= k ==> src[j] == m[j]
      invariant dst[lim..] == old(dst[lim..])
      decreases k
    {
      var lower := ZERO;
      if rem != 0 && k > 0 { lower := src[k - 1]; }
      var upper := src[k];
      if left != 0 && k == lim - 1 { upper := And(upper, Mask(left)); }
      LeftWordIs(m, shift, bits, k, upper, lower);
      dst[k + off] := Or(Shr(lower, 64 - rem), Shl(upper, rem));
      if left != 0 && k + off == lim - 1 { dst[k + off] := And(dst[k + off], Mask(left)); }
      k := k - 1;
    }
    forall j | 0 <= j < off { dst[j] := ZERO; }
    LeftBits(m, shift, bits, dst[..]);
  }

  lemma LeftWordIs(m: seq<word>, shift: nat, bits: nat, k: nat, upper: word, lower: word)
    requires Longs(bits) <= |m| && k + shift / 64 < Longs(bits)
    requires lower == (if shift % 64 != 0 && k > 0 then m[k - 1] else ZERO)
    requires upper == (if bits % 64 != 0 && k == Longs(bits) - 1 then And(m[k], Mask(bits % 64)) else m[k])
    ensures var w, j := Or(Shr(lower, 64 - shift % 64), Shl(upper, shift % 64)), k + shift / 64;
            LeftWord(m, shift, bits, k) == if bits % 64 != 0 && j == Longs(bits) - 1 then And(w, Mask(bits % 64)) else w
  {
    hide And, Or, Shl, Shr, Mask;
  }

  lemma LeftBits(m: seq<word>, shift: nat, bits: nat, r: seq<word>)
    requires Longs(bits) <= |m| && Longs(bits) <= |r| && shift / 64 <= Longs(bits)
    requires forall j :: 0 <= j < Longs(bits) - shift / 64 ==> r[j + shift / 64] == LeftWord(m, shift, bits, j)
    requires forall j :: 0 <= j < shift / 64 ==> r[j] == ZERO
    ensures forall i :: 0 <= i < 64 * Longs(bits) ==> Has(r, i) == (i < bits && shift <= i && Has(m, i - shift))
  {
    hide Bit, LeftWord;
    forall i | 0 <= i < 64 * Longs(bits) ensures Has(r, i) == (i < bits && shift <= i && Has(m, i - shift)) {
      var off := shift / 64;
      if i / 64 < off {
        ZeroBit(i % 64);
      } else {
        var j := i / 64 - off;
        assert r[j + off] == LeftWord(m, shift, bits, j);
        LeftWordBits(m, shift, bits, j, i % 64);
      }
    }
  }

  /** Shifting down and back up by the same amount only loses the bits that fell off. */
  lemma RightThenLeft(m: seq<word>, r: seq<word>, l: seq<word>, shift: nat, bits: nat)
    requires Longs(bits) <= |m| && Longs(bits) <= |r| && Longs(bits) <= |l|
    requires forall i :: 0 <= i < 64 * Longs(bits) ==> Has(r, i) == (i + shift < bits && Has(m, i + shift))
    requires forall i :: 0 <= i < 64 * Longs(bits) ==> Has(l, i) == (i < bits && shift <= i && Has(r, i - shift))
    ensures forall i :: 0 <= i < 64 * Longs(bits) ==> Has(l, i) == (shift <= i < bits && Has(m, i))
  {
    hide Has;
    forall i | 0 <= i < 64 * Longs(bits) ensures Has(l, i) == (shift <= i < bits && Has(m, i)) {
      if shift <= i < bits { assert Has(r, i - shift) == (i < bits && Has(m, i - shift + shift)); }
    }
  }
}
