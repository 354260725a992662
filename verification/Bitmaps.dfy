/** Bitmaps as arrays of 64-bit words, and the sets of positions they stand for. */
module Bitmaps {
  import opened Words

  /** Position i is set in the bitmap. */
  predicate Has(m: seq<word>, i: nat)
    requires i < 64 * |m|
  {
    Bit(m[i / 64], i % 64)
  }

  /** BITS_TO_LONGS */
  function Longs(bits: nat): (n: nat)
    ensures bits <= 64 * n < bits + 64
  {
    (bits + 63) / 64
  }

  /** r is the first position from `offset` on, below `size`, whose bit equals `wanted`;
      it is `size` if there is none. */
  ghost predicate IsFirst(m: seq<word>, size: nat, offset: nat, wanted: bool, r: nat)
    requires size <= 64 * |m|
  {
    && r <= size && (offset < size ==> offset <= r) && (offset >= size ==> r == size)
    && (forall j :: offset <= j < r ==> Has(m, j) != wanted)
    && (r < size ==> Has(m, r) == wanted)
  }

  lemma FirstIsUnique(m: seq<word>, size: nat, offset: nat, wanted: bool, r: nat, r': nat)
    requires size <= 64 * |m|
    requires IsFirst(m, size, offset, wanted, r) && IsFirst(m, size, offset, wanted, r')
    ensures r == r'
  {
  }
}
