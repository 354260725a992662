/** stack_and_service/lib/find_next_bit.c */
module FindBit {
  import opened Words
  import opened Bitmaps

  /** A word of the scan: its set bits are the positions still wanted, from bit lo to bit hi. */
  ghost predicate Window(m: seq<word>, p: nat, lo: nat, hi: nat, wanted: bool, tmp: word)
    requires p < |m|
  {
    forall k :: 0 <= k < 64 ==> (Bit(tmp, k) <==> lo <= k < hi && Bit(m[p], k) == wanted)
  }

  lemma WindowOfBits(m: seq<word>, p: nat, k: nat)
    requires p < |m| && k < 64
    ensures Has(m, 64 * p + k) == Bit(m[p], k)
  {
    hide Bit;
  }

  /** If the window is empty, none of its positions is wanted; otherwise its lowest bit is first. */
  lemma ScanWindow(m: seq<word>, size: nat, offset: nat, wanted: bool, p: nat, lo: nat, hi: nat, tmp: word)
    requires p < |m| && lo <= hi <= 64 && Window(m, p, lo, hi, wanted, tmp)
    requires size <= 64 * |m| && 64 * p + hi <= size && offset < size
    requires offset <= 64 * p + lo && forall j :: offset <= j < 64 * p + lo ==> Has(m, j) != wanted
    ensures tmp == ZERO ==> forall j :: offset <= j < 64 * p + hi ==> Has(m, j) != wanted
    ensures tmp != ZERO ==> IsFirst(m, size, offset, wanted, 64 * p + Ffs(tmp))
  {
    hide Bit, Ffs;
    if tmp == ZERO {
      forall j | offset <= j < 64 * p + hi ensures Has(m, j) != wanted {
        if j >= 64 * p + lo { WindowOfBits(m, p, j - 64 * p); ZeroBit(j - 64 * p); }
      }
    } else {
      var r := Ffs(tmp);
      WindowOfBits(m, p, r);
      forall j | offset <= j < 64 * p + r ensures Has(m, j) != wanted {
        if j >= 64 * p + lo { WindowOfBits(m, p, j - 64 * p); }
      }
    }
  }

  // The windows the scans form: whole words, words cut below bit lo, and words cut from bit hi.

  lemma WholeWindow(m: seq<word>, p: nat)
    requires p < |m|
    ensures Window(m, p, 0, 64, true, m[p]) && Window(m, p, 0, 64, false, Not(m[p]))
  {
    hide Bit;
    NotBits(m[p]);
  }

  lemma WindowFrom(m: seq<word>, p: nat, lo: nat)
    requires p < |m| && lo <= 64
    ensures Window(m, p, lo, 64, true, And(m[p], Shl(ONES, lo)))
    ensures Window(m, p, lo, 64, false, Not(Or(m[p], Shr(ONES, 64 - lo))))
  {
    hide Bit, And, Or, Shl, Shr, Not;
    MaskedBits(m[p], lo); NotBits(Or(m[p], Shr(ONES, 64 - lo)));
  }

  lemma WindowBelow(m: seq<word>, p: nat, lo: nat, hi: nat, tmp: word)
    requires p < |m| && hi <= 64
    ensures Window(m, p, lo, 64, true, tmp) ==> Window(m, p, lo, hi, true, And(tmp, Shr(ONES, 64 - hi)))
    ensures Window(m, p, lo, 64, false, Not(tmp)) ==> Window(m, p, lo, hi, false, Not(Or(tmp, Shl(ONES, hi))))
  {
    hide Bit, And, Or, Shl, Shr, Not;
    var above, below := And(tmp, Shr(ONES, 64 - hi)), Not(Or(tmp, Shl(ONES, hi)));
    forall k | 0 <= k < 64
      ensures Bit(above, k) == (k < hi && Bit(tmp, k)) && Bit(below, k) == (k < hi && Bit(Not(tmp), k))
    {
      MaskedBits(tmp, hi);
      assert Bit(Or(tmp, Shl(ONES, hi)), k) == (k >= hi || Bit(tmp, k));
      NotBit(tmp, k); NotBit(Or(tmp, Shl(ONES, hi)), k);
    }
    CutWindow(m, p, lo, hi, true, tmp, above);
    CutWindow(m, p, lo, hi, false, Not(tmp), below);
  }

  lemma CutWindow(m: seq<word>, p: nat, lo: nat, hi: nat, wanted: bool, tmp: word, cut: word)
    requires p < |m| && hi <= 64 && forall k :: 0 <= k < 64 ==> Bit(cut, k) == (k < hi && Bit(tmp, k))
    ensures Window(m, p, lo, 64, wanted, tmp) ==> Window(m, p, lo, hi, wanted, cut)
  {
    hide Bit, Has;
  }

  /** The end of a scan: label `found_first`, for the last and partly used word. */
  method FoundFirst(bitmap: array<word>, ghost size0: nat, ghost offset: nat, p: nat, ghost lo: nat, tmp0: word, size: nat, result: nat)
    returns (r: nat)
    requires p < bitmap.Length && result == 64 * p && lo <= size < 64 && size0 == result + size && offset < size0
    requires Window(bitmap[..], p, lo, 64, true, tmp0) && offset <= result + lo
    requires forall j :: offset <= j < result + lo ==> !Has(bitmap[..], j)
    ensures IsFirst(bitmap[..], size0, offset, true, r)
  {
    hide Bit, Ffs, Window, And, Shr;
    var tmp := And(tmp0, Shr(ONES, 64 - size));
    WindowBelow(bitmap[..], p, lo, size, tmp0);
    ScanWindow(bitmap[..], size0, offset, true, p, lo, size, tmp);
    if tmp == ZERO { return result + size; }
    return result + Ffs(tmp);
  }

  /** `find_next_bit` */
  method FindNextBit(bitmap: array<word>, size0: nat, offset0: nat) returns (r: nat)
    requires size0 <= 64 * bitmap.Length
    ensures IsFirst(bitmap[..], size0, offset0, true, r)
  {
    hide Bit, Ffs, Has, Window, And, Shl, Shr;
    var p, result := offset0 / 64, offset0 - offset0 % 64;
    if offset0 >= size0 { return size0; }
    var size, offset := size0 - result, offset0 % 64;
    ghost var m := bitmap[..];
    if offset != 0 {
      var tmp := And(bitmap[p], Shl(ONES, offset));
      WindowFrom(m, p, offset);
      if size < 64 {
        r := FoundFirst(bitmap, size0, offset0, p, offset, tmp, size, result);
        return;
      }
      ScanWindow(m, size0, offset0, true, p, offset, 64, tmp);
      if tmp != ZERO { return result + Ffs(tmp); }
      p, size, result := p + 1, size - 64, result + 64;
    }
    while size >= 64
      invariant result == 64 * p && 0 <= size && size0 == result + size && offset0 <= result
      invariant forall j :: offset0 <= j < result ==> !Has(m, j)
    {
      var tmp := bitmap[p];
      WholeWindow(m, p);
      ScanWindow(m, size0, offset0, true, p, 0, 64, tmp);
      if tmp != ZERO { return result + Ffs(tmp); }
      p, size, result := p + 1, size - 64, result + 64;
    }
    if size == 0 { return result; }
    WholeWindow(m, p);
    r := FoundFirst(bitmap, size0, offset0, p, 0, bitmap[p], size, result);
  }

  /** `found_first` of the search for a clear bit. */
  method FoundFirstZero(bitmap: array<word>, ghost size0: nat, ghost offset: nat, p: nat, ghost lo: nat, tmp0: word, size: nat, result: nat)
    returns (r: nat)
    requires p < bitmap.Length && result == 64 * p && lo <= size < 64 && size0 == result + size && offset < size0
    requires Window(bitmap[..], p, lo, 64, false, Not(tmp0)) && offset <= result + lo
    requires forall j :: offset <= j < result + lo ==> Has(bitmap[..], j)
    ensures IsFirst(bitmap[..], size0, offset, false, r)
  {
    hide Bit, Ffs, Ffz, Window, Not, Or, Shl;
    var tmp := Or(tmp0, Shl(ONES, size));
    WindowBelow(bitmap[..], p, lo, size, tmp0); NotOnes(tmp);
    ScanWindow(bitmap[..], size0, offset, false, p, lo, size, Not(tmp));
    if tmp == ONES { return result + size; }
    FfzIsFfs(tmp);
    return result + Ffz(tmp);
  }

  /** `find_next_zero_bit` */
  method FindNextZeroBit(bitmap: array<word>, size0: nat, offset0: nat) returns (r: nat)
    requires size0 <= 64 * bitmap.Length
    ensures IsFirst(bitmap[..], size0, offset0, false, r)
  {
    hide Bit, Ffs, Ffz, Has, Window, And, Or, Not, Shl, Shr;
    var p, result := offset0 / 64, offset0 - offset0 % 64;
    if offset0 >= size0 { return size0; }
    var size, offset := size0 - result, offset0 % 64;
    ghost var m := bitmap[..];
    if offset != 0 {
      var tmp := Or(bitmap[p], Shr(ONES, 64 - offset));
      WindowFrom(m, p, offset); NotOnes(tmp);
      if size < 64 {
        r := FoundFirstZero(bitmap, size0, offset0, p, offset, tmp, size, result);
        return;
      }
      ScanWindow(m, size0, offset0, false, p, offset, 64, Not(tmp));
      if tmp != ONES { FfzIsFfs(tmp); return result + Ffz(tmp); }
      p, size, result := p + 1, size - 64, result + 64;
    }
    while size >= 64
      invariant result == 64 * p && 0 <= size && size0 == result + size && offset0 <= result
      invariant forall j :: offset0 <= j < result ==> Has(m, j)
    {
      var tmp := bitmap[p];
      WholeWindow(m, p); NotOnes(tmp);
      ScanWindow(m, size0, offset0, false, p, 0, 64, Not(tmp));
      if tmp != ONES { FfzIsFfs(tmp); return result + Ffz(tmp); }
      p, size, result := p + 1, size - 64, result + 64;
    }
    if size == 0 { return result; }
    WholeWindow(m, p);
    r := FoundFirstZero(bitmap, size0, offset0, p, 0, bitmap[p], size, result);
  }

  lemma NotBits(a: word)
    ensures forall k :: 0 <= k < 64 ==> Bit(Not(a), k) == !Bit(a, k)
  {
    hide *;
    forall k | 0 <= k < 64 ensures Bit(Not(a), k) == !Bit(a, k) { NotBit(a, k); }
  }

  lemma FfzIsFfs(a: word)
    requires a != ONES
    ensures Not(a) != ZERO && Ffz(a) == Ffs(Not(a))
  {
    hide Ffs, Bit, Not;
    NotOnes(a);
  }

  /** `find_first_bit` scans whole words from the start. */
  method FindFirstBit(bitmap: array<word>, size0: nat) returns (r: nat)
    requires size0 <= 64 * bitmap.Length
    ensures IsFirst(bitmap[..], size0, 0, true, r)
  {
    hide Bit, Ffs, Has, Window, And, Shl, Shr;
    var p, result, size := 0, 0, size0;
    ghost var m := bitmap[..];
    while size >= 64
      invariant result == 64 * p && 0 <= size && size0 == result + size
      invariant forall j :: 0 <= j < result ==> !Has(m, j)
    {
      var tmp := bitmap[p];
      WholeWindow(m, p);
      ScanWindow(m, size0, 0, true, p, 0, 64, tmp);
      if tmp != ZERO { return result + Ffs(tmp); }
      p, size, result := p + 1, size - 64, result + 64;
    }
    if size == 0 { return result; }
    WholeWindow(m, p);
    r := FoundFirst(bitmap, size0, 0, p, 0, bitmap[p], size, result);
  }

  /** `find_first_zero_bit` */
  method FindFirstZeroBit(bitmap: array<word>, size0: nat) returns (r: nat)
    requires size0 <= 64 * bitmap.Length
    ensures IsFirst(bitmap[..], size0, 0, false, r)
  {
    hide Bit, Ffs, Ffz, Has, Window, And, Shl, Shr, Not;
    var p, result, size := 0, 0, size0;
    ghost var m := bitmap[..];
    while size >= 64
      invariant result == 64 * p && 0 <= size && size0 == result + size
      invariant forall j :: 0 <= j < result ==> Has(m, j)
    {
      var tmp := bitmap[p];
      WholeWindow(m, p); NotOnes(tmp);
      ScanWindow(m, size0, 0, false, p, 0, 64, Not(tmp));
      if Not(tmp) != ZERO { FfzIsFfs(tmp); return result + Ffz(tmp); }
      p, size, result := p + 1, size - 64, result + 64;
    }
    if size == 0 { return result; }
    WholeWindow(m, p);
    r := FoundFirstZero(bitmap, size0, 0, p, 0, bitmap[p], size, result);
  }
}
