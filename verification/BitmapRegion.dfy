/** The power-of-two region allocator of stack_and_service/lib/bitmap.c: `__reg_op`,
    `bitmap_find_free_region`, `bitmap_allocate_region` and `bitmap_release_region`. */
module BitmapRegion {
  import opened CTypes
  import Binary
  import opened Words
  import opened Bitmaps
  import opened BitmapArea

  /** A region: 1 << order positions from pos on, aligned to their number. */
  datatype Region = Region(pos: nat, order: nat) {
    function Size(): (n: nat)
      ensures n > 0
    {
      Binary.Pow2(order)
    }
    function End(): nat { pos + Size() }
    predicate Aligned() { pos % Size() == 0 }
  }

  datatype Op = IsFree | Alloc | Release

  // ----- Layout of a region in words -----

  lemma {:induction false} Pow2Values(n: nat)
    ensures n < 6 ==> Binary.Pow2(n) <= 32 && 64 % Binary.Pow2(n) == 0
    ensures n >= 6 ==> Binary.Pow2(n) % 64 == 0 && Binary.Pow2(n) >= 64
  {
    if n > 6 { Pow2Values(n - 1); }
    else if n == 6 { assert Binary.Pow2(6) == 2 * Binary.Pow2(5) == 64; }
    else { SmallPowers(n); }
  }

  lemma SmallPowers(n: nat)
    requires n < 6
    ensures Binary.Pow2(n) == 1 || Binary.Pow2(n) == 2 || Binary.Pow2(n) == 4 || Binary.Pow2(n) == 8 || Binary.Pow2(n) == 16 || Binary.Pow2(n) == 32
  {
  }

  /** Either the region lies within one word, or it consists of whole words. */
  lemma RegionLayout(r: Region)
    requires r.Aligned()
    ensures r.Size() < 64 ==> r.pos % 64 + r.Size() <= 64 && Longs(r.Size()) == 1
    ensures r.Size() >= 64 ==> r.pos % 64 == 0 && 64 * Longs(r.Size()) == r.Size()
  {
    Pow2Values(r.order);
    hide Binary.Pow2;
    if r.order < 6 {
      SmallPowers(r.order);
      WithinWord(r.pos, r.Size());
    } else {
      MultipleOf64(r.pos, r.Size());
    }
  }

  lemma WithinWord(x: nat, n: nat)
    requires n == 1 || n == 2 || n == 4 || n == 8 || n == 16 || n == 32
    requires x % n == 0
    ensures x % 64 + n <= 64 && Longs(n) == 1
  {
    StillMultiple(x, n);
    RoomForOne(x % 64, n);
  }

  lemma StillMultiple(x: nat, n: nat)
    requires n == 1 || n == 2 || n == 4 || n == 8 || n == 16 || n == 32
    requires x % n == 0
    ensures x % 64 % n == 0
  {
    var q, z := x / n, x / 64;
    assert x % 64 == x - 64 * z;
    assert n == 32 ==> x - 64 * z == 32 * (q - 2 * z);
    assert n == 16 ==> x - 64 * z == 16 * (q - 4 * z);
    assert n == 8 ==> x - 64 * z == 8 * (q - 8 * z);
    assert n == 4 ==> x - 64 * z == 4 * (q - 16 * z);
    assert n == 2 ==> x - 64 * z == 2 * (q - 32 * z);
  }

  lemma RoomForOne(y: nat, n: nat)
    requires n == 1 || n == 2 || n == 4 || n == 8 || n == 16 || n == 32
    requires y < 64 && y % n == 0
    ensures y + n <= 64
  {
  }

  lemma MultipleOf64(x: nat, n: nat)
    requires n > 0 && x % n == 0 && n % 64 == 0
    ensures x % 64 == 0
  {
    var q, k := x / n, n / 64;
    assert x == q * n && n == 64 * k;
    assert q * n == 64 * (q * k);
  }

  /** mask = 1UL << (n - 1); mask += mask - 1; mask <<= offset; */
  function RegionMask(n: nat, offset: nat): word
    requires 0 < n <= 64 && offset < 64
  {
    var mask := Shl(ONE, n - 1);
    Shl(Plus(mask, Minus(mask, ONE)), offset)
  }

  function Plus(a: word, b: word): word { a + b }

  lemma PlusMinus(a: word)
    ensures Plus(a, Minus(a, ONE)) == Minus(Twice(a), ONE)
  {
  }

  lemma RegionMaskCovers(n: nat, offset: nat)
    requires 0 < n && offset + n <= 64
    ensures Covers(RegionMask(n, offset), offset, offset + n)
  {
    hide Bit, Shl, Minus, Plus;
    PlusMinus(Shl(ONE, n - 1));
    ShiftStep(ONE, n - 1);
    forall k | 0 <= k < 64 ensures Bit(RegionMask(n, offset), k) == (offset <= k < offset + n) {
      ShlBit(Mask(n), offset, k);
      if offset <= k { MaskBit(n, k - offset); }
    }
  }

  // ----- __reg_op -----

  ghost predicate AllClear(m: seq<word>, lo: nat, hi: nat) {
    hi <= 64 * |m| && forall i :: lo <= i < hi ==> !Has(m, i)
  }

  lemma MaskedIsZero(m: seq<word>, p: nat, mask: word, lo: nat, hi: nat)
    requires p < |m| && lo <= hi <= 64 && Covers(mask, lo, hi)
    ensures And(m[p], mask) == ZERO <==> AllClear(m, 64 * p + lo, 64 * p + hi)
  {
    hide Bit, And;
    if And(m[p], mask) == ZERO {
      forall i | 64 * p + lo <= i < 64 * p + hi ensures !Has(m, i) {
        AndBit(m[p], mask, i % 64); ZeroBit(i % 64);
      }
    }
    if AllClear(m, 64 * p + lo, 64 * p + hi) {
      forall k | 0 <= k < 64 ensures Bit(And(m[p], mask), k) == Bit(ZERO, k) {
        AndBit(m[p], mask, k); ZeroBit(k);
        if lo <= k < hi { assert !Has(m, 64 * p + k); }
      }
      SameBits(And(m[p], mask), ZERO);
    }
  }

  /** Where word i of a region begins. */
  function WordStart(r: Region, i: nat): nat {
    64 * (r.pos / 64 + i) + r.pos % 64
  }

  lemma WordsOfRegion(r: Region, i: nat)
    requires r.Aligned() && i < Longs(r.Size())
    ensures var n := Min(r.Size(), 64);
            && r.pos % 64 + n <= 64 && WordStart(r, i) + n <= r.End()
            && (if i + 1 < Longs(r.Size()) then WordStart(r, i + 1) == WordStart(r, i) + n else r.End() == WordStart(r, i) + n)
    ensures WordStart(r, 0) == r.pos
  {
    hide Region.Aligned, Region.Size;
    RegionLayout(r);
  }

  /** `__reg_op`: tests, sets or clears a whole region; 1 only for a region found free. */
  method RegOp(bitmap: array<word>, r: Region, op: Op) returns (ret: bool)
    requires r.Aligned() && r.End() <= 64 * bitmap.Length
    modifies bitmap
    ensures op == IsFree ==> bitmap[..] == old(bitmap[..]) && (ret <==> AllClear(bitmap[..], r.pos, r.End()))
    ensures op == Alloc ==> !ret && Painted(old(bitmap[..]), r.pos, r.End(), true, bitmap[..])
    ensures op == Release ==> !ret && Painted(old(bitmap[..]), r.pos, r.End(), false, bitmap[..])
  {
    hide Painted, AllClear, RegionMask, Covers;
    EndOfRegion(r); WordsOfRegion(r, 0);
    var n := Min(r.Size(), 64);
    var mask := RegionMask(n, r.pos % 64);
    RegionMaskCovers(n, r.pos % 64);
    ret := false;
    match op {
      case IsFree => ret := RegionIsFree(bitmap, r, mask);
      case Alloc => RegionPaint(bitmap, r, mask, true);
      case Release => RegionPaint(bitmap, r, mask, false);
    }
  }

  method RegionIsFree(bitmap: array<word>, r: Region, mask: word) returns (ret: bool)
    requires r.Aligned() && r.End() <= 64 * bitmap.Length
    requires Covers(mask, r.pos % 64, r.pos % 64 + Min(r.Size(), 64))
    ensures ret <==> AllClear(bitmap[..], r.pos, r.End())
  {
    hide Painted, Covers, AllClear, And, Region.Aligned, Region.Size, Longs, Region.End;
    ghost var m, at, n := bitmap[..], r.pos, Min(r.Size(), 64);
    EndOfRegion(r);
    NothingIsClear(m, r.pos);
    for i := 0 to Longs(r.Size())
      invariant if i < Longs(r.Size()) then at == WordStart(r, i) else at == r.End()
      invariant r.pos <= at && AllClear(m, r.pos, at)
    {
      WordsOfRegion(r, i);
      MaskedIsZero(m, r.pos / 64 + i, mask, r.pos % 64, r.pos % 64 + n);
      JoinClear(m, r.pos, at, at + n, r.End());
      if And(bitmap[r.pos / 64 + i], mask) != ZERO { return false; }
      at := at + n;
    }
    return true;
  }

  method RegionPaint(bitmap: array<word>, r: Region, mask: word, v: bool)
    requires r.Aligned() && r.End() <= 64 * bitmap.Length
    requires Covers(mask, r.pos % 64, r.pos % 64 + Min(r.Size(), 64))
    modifies bitmap
    ensures Painted(old(bitmap[..]), r.pos, r.End(), v, bitmap[..])
  {
    hide Painted, Covers, And, Or, Not, Region.Aligned, Region.Size, Longs, Region.End;
    ghost var m, at, n := bitmap[..], r.pos, Min(r.Size(), 64);
    EndOfRegion(r);
    NothingPainted(m, r.pos, v);
    for i := 0 to Longs(r.Size())
      invariant if i < Longs(r.Size()) then at == WordStart(r, i) else at == r.End()
      invariant r.pos <= at && bitmap.Length == |m| && Painted(m, r.pos, at, v, bitmap[..])
    {
      WordsOfRegion(r, i);
      PaintWord(m, r.pos, at, v, bitmap[..], r.pos / 64 + i, mask, n);
      if v { bitmap[r.pos / 64 + i] := Or(bitmap[r.pos / 64 + i], mask); }
      else { bitmap[r.pos / 64 + i] := And(bitmap[r.pos / 64 + i], Not(mask)); }
      at := at + n;
    }
  }

  lemma EndOfRegion(r: Region)
    ensures r.End() == r.pos + r.Size() && Longs(r.Size()) > 0 && WordStart(r, 0) == r.pos
  {
  }

  lemma NothingIsClear(m: seq<word>, at: nat)
    requires at <= 64 * |m|
    ensures AllClear(m, at, at)
  {
  }

  lemma JoinClear(m: seq<word>, lo: nat, mid: nat, hi: nat, end: nat)
    requires lo <= mid <= hi <= end
    ensures AllClear(m, lo, mid) && AllClear(m, mid, hi) ==> AllClear(m, lo, hi)
    ensures AllClear(m, lo, end) ==> AllClear(m, mid, hi)
  {
  }

  // ----- The three region functions -----

  ghost predicate Free(m: seq<word>, r: Region) {
    AllClear(m, r.pos, r.End())
  }

  lemma NoAlignedBetween(pos: nat, size: nat, x: nat)
    requires size > 0 && pos % size == 0 && pos < x < pos + size
    ensures x % size != 0
  {
    MulBounds(pos, size); MulBounds(x, size);
    MulStrict(pos / size, x / size, size); MulStrict(x / size, pos / size, size);
  }

  lemma NextAligned(pos: nat, size: nat)
    requires size > 0 && pos % size == 0
    ensures (pos + size) % size == 0
  {
    MulBounds(pos, size); MulBounds(pos + size, size);
    var q, q' := pos / size, (pos + size) / size;
    assert (q + 1) * size == q * size + size;
    MulStrict(q + 1, q', size); MulStrict(q', q + 1, size);
  }

  datatype Found = Some(pos: nat) | ENOMEM

  /** `bitmap_find_free_region`: the lowest free aligned region, which it allocates. */
  method FindFreeRegion(bitmap: array<word>, bits: nat, order: nat) returns (found: Found)
    requires bits <= 64 * bitmap.Length
    modifies bitmap
    ensures found.Some? ==>
              var r := Region(found.pos, order);
              && r.Aligned() && r.End() <= bits && old(Free(bitmap[..], r))
              && (forall x :: 0 <= x < r.pos && Region(x, order).Aligned() ==> !old(Free(bitmap[..], Region(x, order))))
              && Painted(old(bitmap[..]), r.pos, r.End(), true, bitmap[..])
    ensures found.ENOMEM? ==>
              && bitmap[..] == old(bitmap[..])
              && forall x :: 0 <= x && Region(x, order).Aligned() && Region(x, order).End() <= bits ==> !Free(bitmap[..], Region(x, order))
  {
    hide Painted, AllClear, Binary.Pow2;
    ghost var m := bitmap[..];
    var pos := 0;
    while pos + Binary.Pow2(order) <= bits
      invariant bitmap[..] == m && Region(pos, order).Aligned()
      invariant forall x :: 0 <= x < pos && Region(x, order).Aligned() ==> !Free(m, Region(x, order))
      decreases bits - pos
    {
      var r := Region(pos, order);
      var free := RegOp(bitmap, r, IsFree);
      if free {
        var _ := RegOp(bitmap, r, Alloc);
        return Some(pos);
      }
      NextAligned(pos, r.Size());
      forall x | 0 <= x < pos + r.Size() && Region(x, order).Aligned() ensures !Free(m, Region(x, order)) {
        if x > pos { NoAlignedBetween(pos, r.Size(), x); }
      }
      pos := pos + Binary.Pow2(order);
    }
    return ENOMEM;
  }

  /** `bitmap_allocate_region`: -EBUSY exactly if some position of the region is set. */
  method AllocateRegion(bitmap: array<word>, r: Region) returns (busy: bool)
    requires r.Aligned() && r.End() <= 64 * bitmap.Length
    modifies bitmap
    ensures busy <==> !old(Free(bitmap[..], r))
    ensures busy ==> bitmap[..] == old(bitmap[..])
    ensures !busy ==> Painted(old(bitmap[..]), r.pos, r.End(), true, bitmap[..])
  {
    hide Painted, AllClear;
    var free := RegOp(bitmap, r, IsFree);
    if !free { return true; }
    var _ := RegOp(bitmap, r, Alloc);
    return false;
  }

  /** `bitmap_release_region` */
  method ReleaseRegion(bitmap: array<word>, r: Region)
    requires r.Aligned() && r.End() <= 64 * bitmap.Length
    modifies bitmap
    ensures Painted(old(bitmap[..]), r.pos, r.End(), false, bitmap[..])
  {
    var _ := RegOp(bitmap, r, Release);
  }

  // ----- Every run -----

  predicate Disjoint(r: Region, s: Region) { r.End() <= s.pos || s.End() <= r.pos }

  ghost predicate Within(live: set<Region>, i: nat) {
    exists r :: r in live && r.pos <= i < r.End()
  }

  /** The live regions are aligned, pairwise disjoint, and their union is what is set. */
  ghost predicate Live(m: seq<word>, bits: nat, live: set<Region>) {
    && (forall r :: r in live ==> r.Aligned() && r.End() <= bits)
    && (forall r, s :: r in live && s in live && r != s ==> Disjoint(r, s))
    && (forall i :: 0 <= i < 64 * |m| ==> Has(m, i) == Within(live, i))
  }

  lemma AllocationKeepsLive(m: seq<word>, bits: nat, live: set<Region>, r: Region, m': seq<word>)
    requires bits <= 64 * |m| && Live(m, bits, live) && r.Aligned() && r.End() <= bits
    requires Free(m, r) && Painted(m, r.pos, r.End(), true, m')
    ensures Live(m', bits, live + {r}) && r !in live
  {
    hide Has, Region.Size, Region.Aligned;
    forall s | s in live ensures Disjoint(r, s) {
      var i := Max(r.pos, s.pos);
      if i < s.End() { assert Within(live, i); }
    }
    forall i | 0 <= i < 64 * |m| ensures Has(m', i) == Within(live + {r}, i) {
      assert Has(m', i) == (r.pos <= i < r.End() || Has(m, i));
      if r.pos <= i < r.End() { assert r in live + {r}; }
      if Within(live, i) {
        var s :| s in live && s.pos <= i < s.End();
        assert s in live + {r};
      }
    }
  }

  lemma ReleaseKeepsLive(m: seq<word>, bits: nat, live: set<Region>, r: Region, m': seq<word>)
    requires bits <= 64 * |m| && Live(m, bits, live) && r in live && Painted(m, r.pos, r.End(), false, m')
    ensures Live(m', bits, live - {r})
  {
    hide Has, Region.Size, Region.Aligned;
    forall i | 0 <= i < 64 * |m| ensures Has(m', i) == Within(live - {r}, i) {
      assert Has(m', i) == (!(r.pos <= i < r.End()) && Has(m, i));
      if Has(m', i) {
        var s :| s in live && s.pos <= i < s.End();
        assert s in live - {r};
      }
      if Within(live - {r}, i) {
        var s :| s in live - {r} && s.pos <= i < s.End();
        assert s in live && Disjoint(s, r) && Within(live, i);
      }
    }
  }

  /** What a client may ask; it releases only regions it holds. */
  datatype Request = Find(order: nat) | Allocate(region: Region) | GiveBack(region: Region)

  /** A region overlaps none of the live ones. */
  predicate Unused(live: set<Region>, r: Region) {
    forall s :: s in live ==> Disjoint(r, s)
  }

  /** What a request does to the set of live regions: a search adds the lowest aligned region of its
      size that is unused and fits, if there is one; a region asked for by its place is added exactly
      if it is aligned, fits and is unused; a region that is live is given back. */
  ghost predicate Granted(bits: nat, live: set<Region>, q: Request, live': set<Region>) {
    match q
    case Find(order) =>
      || (exists r: Region ::
            && r.order == order && r.Aligned() && r.End() <= bits && Unused(live, r) && live' == live + {r}
            && forall x :: 0 <= x < r.pos && Region(x, order).Aligned() ==> !Unused(live, Region(x, order)))
      || (live' == live
            && forall x :: 0 <= x && Region(x, order).Aligned() && Region(x, order).End() <= bits ==> !Unused(live, Region(x, order)))
    case Allocate(r) => live' == if r.Aligned() && r.End() <= bits && Unused(live, r) then live + {r} else live
    case GiveBack(r) => live' == live - {r}
  }

  /** The live regions before each request and after the last one. */
  ghost predicate History(bits: nat, requests: seq<Request>, states: seq<set<Region>>) {
    && |states| == |requests| + 1 && states[0] == {}
    && forall k :: 0 <= k < |requests| ==> Granted(bits, states[k], requests[k], states[k + 1])
  }

  /** On the bitmap, a region is free exactly if it is unused. */
  lemma FreeIsUnused(m: seq<word>, bits: nat, live: set<Region>, r: Region)
    requires bits <= 64 * |m| && Live(m, bits, live) && r.End() <= bits
    ensures Free(m, r) <==> Unused(live, r)
  {
    hide Has, Region.Size, Region.Aligned;
    if !Unused(live, r) {
      var s :| s in live && !Disjoint(r, s);
      assert Within(live, Max(r.pos, s.pos));
      assert Has(m, Max(r.pos, s.pos));
    }
    if !Free(m, r) {
      var i :| r.pos <= i < r.End() && Has(m, i);
      assert Within(live, i);
      var s :| s in live && s.pos <= i < s.End();
      assert !Disjoint(r, s);
    }
  }

  /** The outcome of a search, in terms of the live regions. */
  lemma FoundIsGranted(m: seq<word>, bits: nat, live: set<Region>, order: nat, found: Found)
    requires bits <= 64 * |m| && Live(m, bits, live)
    requires found.Some? ==>
               var r := Region(found.pos, order);
               && r.Aligned() && r.End() <= bits && Free(m, r)
               && (forall x :: 0 <= x < r.pos && Region(x, order).Aligned() ==> !Free(m, Region(x, order)))
    requires found.ENOMEM? ==>
               forall x :: 0 <= x && Region(x, order).Aligned() && Region(x, order).End() <= bits ==> !Free(m, Region(x, order))
    ensures Granted(bits, live, Find(order), if found.Some? then live + {Region(found.pos, order)} else live)
  {
    hide Live, Free, Unused, Region.Aligned, Binary.Pow2;
    if found.Some? {
      var r := Region(found.pos, order);
      FreeIsUnused(m, bits, live, r);
      forall x | 0 <= x < r.pos && Region(x, order).Aligned() ensures !Unused(live, Region(x, order)) {
        FreeIsUnused(m, bits, live, Region(x, order));
      }
    } else {
      forall x | 0 <= x && Region(x, order).Aligned() && Region(x, order).End() <= bits ensures !Unused(live, Region(x, order)) {
        FreeIsUnused(m, bits, live, Region(x, order));
      }
    }
  }

  /** Any sequence of requests on an empty bitmap, served by the functions above: what is live is what
      the requests ask for, one after the other, and the set positions are its union. */
  method Serve(bitmap: array<word>, bits: nat, requests: seq<Request>) returns (live: set<Region>, ghost states: seq<set<Region>>)
    requires bits <= 64 * bitmap.Length
    requires forall i :: 0 <= i < 64 * bitmap.Length ==> !Has(bitmap[..], i)
    modifies bitmap
    ensures Live(bitmap[..], bits, live)
    ensures History(bits, requests, states) && live == states[|requests|]
  {
    hide Has, Live, Granted, Free, Unused, Region.Size, Region.Aligned, Painted;
    live, states := {}, [{}];
    EmptyIsLive(bitmap[..], bits);
    for k := 0 to |requests|
      invariant Live(bitmap[..], bits, live)
      invariant History(bits, requests[..k], states) && live == states[k]
    {
      ghost var before := states;
      live := ServeOne(bitmap, bits, requests[k], live);
      states := before + [live];
      assert requests[..k + 1] == requests[..k] + [requests[k]];
      Extended(bits, requests[..k], requests[k], before, live);
    }
    assert requests[..|requests|] == requests;
  }

  lemma Extended(bits: nat, requests: seq<Request>, q: Request, states: seq<set<Region>>, live': set<Region>)
    requires History(bits, requests, states) && Granted(bits, states[|requests|], q, live')
    ensures History(bits, requests + [q], states + [live'])
  {
    hide Granted;
  }

  method ServeOne(bitmap: array<word>, bits: nat, q: Request, live: set<Region>) returns (live': set<Region>)
    requires bits <= 64 * bitmap.Length && Live(bitmap[..], bits, live)
    modifies bitmap
    ensures Live(bitmap[..], bits, live') && Granted(bits, live, q, live')
  {
    hide Has, Painted, Live, Free, Unused, Region.Size, Region.Aligned;
    ghost var m := bitmap[..];
    live' := live;
    match q {
      case Find(order) =>
        hide Granted;
        var found := FindFreeRegion(bitmap, bits, order);
        FoundIsGranted(m, bits, live, order, found);
        if found.Some? {
          AllocationKeepsLive(m, bits, live, Region(found.pos, order), bitmap[..]);
          live' := live + {Region(found.pos, order)};
        }
      case Allocate(r) =>
        if r.Aligned() && r.End() <= bits {
          FreeIsUnused(m, bits, live, r);
          var busy := AllocateRegion(bitmap, r);
          if !busy {
            AllocationKeepsLive(m, bits, live, r, bitmap[..]);
            live' := live + {r};
          }
        }
      case GiveBack(r) =>
        if r in live {
          HeldIsAligned(m, bits, live);
          ReleaseRegion(bitmap, r);
          ReleaseKeepsLive(m, bits, live, r, bitmap[..]);
          live' := live - {r};
        }
    }
  }

  lemma EmptyIsLive(m: seq<word>, bits: nat)
    requires forall i :: 0 <= i < 64 * |m| ==> !Has(m, i)
    ensures Live(m, bits, {})
  {
  }

  lemma HeldIsAligned(m: seq<word>, bits: nat, live: set<Region>)
    requires Live(m, bits, live)
    ensures forall r :: r in live ==> r.Aligned() && r.End() <= bits
  {
  }
}
