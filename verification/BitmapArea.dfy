/** `bitmap_set`, `bitmap_clear` and `bitmap_find_next_zero_area` of
    stack_and_service/lib/bitmap.c. */
module BitmapArea {
  import opened CTypes
  import Binary
  import opened Words
  import opened Bitmaps
  import opened FindBit

  /** The positions from lo to hi have been given the value v, nothing else has changed. */
  ghost predicate Painted(m: seq<word>, lo: nat, hi: nat, v: bool, m': seq<word>) {
    |m'| == |m| && forall i :: 0 <= i < 64 * |m| ==> Has(m', i) == if lo <= i < hi then v else Has(m, i)
  }

  /** Bits lo to hi of a word, and no others, are set. */
  ghost predicate Covers(mask: word, lo: nat, hi: nat) {
    forall k :: 0 <= k < 64 ==> Bit(mask, k) == (lo <= k < hi)
  }

  lemma PaintWord(m: seq<word>, lo: nat, cur: nat, v: bool, m': seq<word>, p: nat, mask: word, n: nat)
    requires Painted(m, lo, cur, v, m') && lo <= cur && p == cur / 64 < |m| && cur % 64 + n <= 64
    requires Covers(mask, cur % 64, cur % 64 + n)
    ensures Painted(m, lo, cur + n, v, m'[p := if v then Or(m'[p], mask) else And(m'[p], Not(mask))])
  {
    hide Bit, Or, And, Not;
    var w := if v then Or(m'[p], mask) else And(m'[p], Not(mask));
    var m'' := m'[p := w];
    forall i | 0 <= i < 64 * |m| ensures Has(m'', i) == if lo <= i < cur + n then v else Has(m, i) {
      if i / 64 == p {
        var k := i % 64;
        OrBit(m'[p], mask, k); AndBit(m'[p], Not(mask), k); NotBit(mask, k);
        assert Has(m', i) == Bit(m'[p], k);
        assert lo <= cur ==> (Bit(mask, k) <==> cur <= i < cur + n);
      } else {
        assert Has(m'', i) == Has(m', i);
      }
    }
  }

  lemma MaskFrom(lo: nat)
    requires lo < 64
    ensures Covers(Shl(ONES, lo), lo, 64)
    ensures Covers(ONES, 0, 64)
  {
    hide Bit, Shl;
    forall k | 0 <= k < 64 ensures Bit(Shl(ONES, lo), k) == (lo <= k) && Bit(ONES, k) {
      ShlBit(ONES, lo, k); OnesBit(k);
      if lo <= k { OnesBit(k - lo); }
    }
  }

  lemma MaskBetween(mask: word, lo: nat, hi: nat)
    requires hi <= 64 && Covers(mask, lo, 64)
    ensures Covers(And(mask, Mask(hi)), lo, hi)
  {
    hide Bit, And, Mask;
    MaskedBits(mask, hi);
  }

  /** BITMAP_LAST_WORD_MASK */
  function LastWordMask(bits: nat): word {
    if bits % 64 != 0 then Mask(bits % 64) else ONES
  }

  /** `bitmap_set` and `bitmap_clear`: the loop is the same, v says whether *p |= mask or
      *p &= ~mask is done. */
  method Paint(bitmap: array<word>, start: nat, nr0: nat, v: bool)
    requires start + nr0 <= 64 * bitmap.Length
    modifies bitmap
    ensures Painted(old(bitmap[..]), start, start + nr0, v, bitmap[..])
  {
    hide Painted, Covers, Bit, Or, And, Not, Shl, Mask;
    var p, size, nr := start / 64, start + nr0, nr0;
    var bits, mask := 64 - start % 64, Shl(ONES, start % 64);
    ghost var m, cur := bitmap[..], start;
    MaskFrom(start % 64); NothingPainted(m, start, v);
    while nr >= bits
      invariant cur + nr == size && p == cur / 64 && bits == 64 - cur % 64 && start <= cur
      invariant Covers(mask, cur % 64, 64) && Painted(m, start, cur, v, bitmap[..])
      invariant 0 <= nr && bitmap.Length == |m|
    {
      PaintWord(m, start, cur, v, bitmap[..], p, mask, bits);
      if v { bitmap[p] := Or(bitmap[p], mask); } else { bitmap[p] := And(bitmap[p], Not(mask)); }
      cur, nr := cur + bits, nr - bits;
      MaskFrom(0);
      bits, mask, p := 64, ONES, p + 1;
    }
    if nr != 0 {
      MaskBetween(mask, cur % 64, cur % 64 + nr);
      assert size % 64 == cur % 64 + nr;
      mask := And(mask, LastWordMask(size));
      PaintWord(m, start, cur, v, bitmap[..], p, mask, nr);
      if v { bitmap[p] := Or(bitmap[p], mask); } else { bitmap[p] := And(bitmap[p], Not(mask)); }
    }
  }

  lemma NothingPainted(m: seq<word>, at: nat, v: bool)
    ensures Painted(m, at, at, v, m)
  {
  }

  method BitmapSet(bitmap: array<word>, start: nat, nr: nat)
    requires start + nr <= 64 * bitmap.Length
    modifies bitmap
    ensures Painted(old(bitmap[..]), start, start + nr, true, bitmap[..])
  {
    Paint(bitmap, start, nr, true);
  }

  method BitmapClear(bitmap: array<word>, start: nat, nr: nat)
    requires start + nr <= 64 * bitmap.Length
    modifies bitmap
    ensures Painted(old(bitmap[..]), start, start + nr, false, bitmap[..])
  {
    Paint(bitmap, start, nr, false);
  }

  // ----- Searching for a free area -----

  /** x is a multiple of the alignment, and the nr positions from x on fit and are clear. */
  ghost predicate Suitable(m: seq<word>, size: nat, nr: nat, align: nat, x: nat)
    requires size <= 64 * |m| && align > 0
  {
    x % align == 0 && x + nr <= size && forall i :: x <= i < x + nr ==> !Has(m, i)
  }

  /** Rounding up to a multiple; for a power of two this is __ALIGN_MASK(x, align - 1). */
  function AlignUp(x: nat, align: nat): (r: nat)
    requires align > 0
    ensures x <= r < x + align
  {
    MulBounds(x + align - 1, align);
    (x + align - 1) / align * align
  }

  lemma MulBounds(x: nat, a: nat)
    requires a > 0
    ensures x / a * a <= x < x / a * a + a && x == x / a * a + x % a
  {
  }

  /** (x + mask) & ~mask */
  lemma AlignUpIsMask(x: nat, order: nat)
    ensures var mask := Binary.Pow2(order) - 1;
            AlignUp(x, mask + 1) == Binary.AndNot(x + mask, mask)
  {
    var p := Binary.Pow2(order);
    Binary.WithMask(x + p - 1, order);
    MulBounds(x + p - 1, p);
  }

  lemma NoMultipleBelow(x: nat, align: nat, y: nat)
    requires align > 0 && x <= y < AlignUp(x, align)
    ensures y % align != 0
  {
    var q, k := (x + align - 1) / align, y / align;
    MulBounds(x + align - 1, align); MulBounds(y, align);
    MulStrict(k, q, align); MulStrict(q, k, align);
  }

  lemma AlignUpIsMultiple(x: nat, align: nat)
    requires align > 0
    ensures AlignUp(x, align) % align == 0
  {
    var q := (x + align - 1) / align;
    var q' := q * align / align;
    MulBounds(q * align, align);
    MulStrict(q, q', align); MulStrict(q', q, align);
  }

  /** The least suitable position from `start` on, or a value above `size` if there is none. */
  method FindNextZeroArea(bitmap: array<word>, size: nat, start0: nat, nr: nat, align: nat) returns (r: nat)
    requires size <= 64 * bitmap.Length && nr > 0 && align > 0
    ensures r <= size ==> start0 <= r && Suitable(bitmap[..], size, nr, align, r)
    ensures r <= size ==> forall x :: start0 <= x < r ==> !Suitable(bitmap[..], size, nr, align, x)
    ensures r > size ==> forall x :: start0 <= x ==> !Suitable(bitmap[..], size, nr, align, x)
  {
    hide Has, AlignUp, Suitable;
    var start := start0;
    ghost var m := bitmap[..];
    while true
      invariant start0 <= start
      invariant forall x :: start0 <= x < start ==> !Suitable(m, size, nr, align, x)
      decreases size - start
    {
      var zero := FindNextZeroBit(bitmap, size, start);
      var index := AlignUp(zero, align);
      SkipToAligned(m, size, nr, align, start, zero);
      var end := index + nr;
      if end > size {
        TooFar(m, size, nr, align, index);
        return end;
      }
      var i := FindNextBit(bitmap, end, index);
      if i >= end {
        AreaFound(m, size, nr, align, zero, i);
        return index;
      }
      SkipPast(m, size, nr, align, index, i);
      start := i + 1;
    }
  }

  lemma SkipToAligned(m: seq<word>, size: nat, nr: nat, align: nat, start: nat, zero: nat)
    requires size <= 64 * |m| && nr > 0 && align > 0 && IsFirst(m, size, start, false, zero)
    ensures forall x :: start <= x < AlignUp(zero, align) ==> !Suitable(m, size, nr, align, x)
  {
    hide Has, AlignUp;
    forall x | start <= x < AlignUp(zero, align) ensures !Suitable(m, size, nr, align, x) {
      if x >= zero { NoMultipleBelow(zero, align, x); } else { assert Has(m, x); }
    }
  }

  lemma TooFar(m: seq<word>, size: nat, nr: nat, align: nat, index: nat)
    requires size <= 64 * |m| && align > 0 && index + nr > size
    ensures forall x :: index <= x ==> !Suitable(m, size, nr, align, x)
  {
  }

  lemma AreaFound(m: seq<word>, size: nat, nr: nat, align: nat, zero: nat, i: nat)
    requires size <= 64 * |m| && align > 0
    requires var index := AlignUp(zero, align);
             index + nr <= size && IsFirst(m, index + nr, index, true, i) && i >= index + nr
    ensures Suitable(m, size, nr, align, AlignUp(zero, align))
  {
    AlignUpIsMultiple(zero, align);
  }

  lemma SkipPast(m: seq<word>, size: nat, nr: nat, align: nat, index: nat, i: nat)
    requires size <= 64 * |m| && align > 0 && index + nr <= size && i < index + nr && IsFirst(m, index + nr, index, true, i)
    ensures index <= i && forall x :: index <= x <= i ==> !Suitable(m, size, nr, align, x)
  {
  }
}
