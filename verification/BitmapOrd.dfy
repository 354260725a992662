/** Ordinals of set bits and the maps built on them: `__bitmap_weight`, `bitmap_pos_to_ord`,
    `bitmap_ord_to_pos`, `bitmap_remap`, `bitmap_bitremap`, `bitmap_onto` and `bitmap_fold` of
    stack_and_service/lib/bitmap.c. */
module BitmapOrd {
  import opened CTypes
  import opened Words
  import opened Bitmaps
  import opened FindBit
  import opened BitmapArea

  // ----- Counting -----

  /** The number of set positions below i. */
  function Rank(m: seq<word>, i: nat): (r: nat)
    requires i <= 64 * |m|
    ensures r <= i
  {
    if i == 0 then 0 else Rank(m, i - 1) + if Has(m, i - 1) then 1 else 0
  }

  /** The position below `bits` with ordinal `ord`, 0 if there is none. */
  function Select(m: seq<word>, bits: nat, ord: nat): (p: nat)
    requires bits <= 64 * |m|
    ensures p < bits || p == 0
  {
    if bits == 0 then 0
    else if Has(m, bits - 1) && Rank(m, bits - 1) == ord then bits - 1
    else Select(m, bits - 1, ord)
  }

  lemma {:induction false} RankMonotone(m: seq<word>, i: nat, j: nat)
    requires i <= j <= 64 * |m|
    ensures Rank(m, i) <= Rank(m, j)
    ensures i < j && Has(m, i) ==> Rank(m, i) < Rank(m, j)
    decreases j
  {
    hide Has;
    if i + 1 < j { RankMonotone(m, i, j - 1); }
  }

  lemma {:induction false} RankOfClear(m: seq<word>, i: nat, j: nat)
    requires i <= j <= 64 * |m| && forall k :: i <= k < j ==> !Has(m, k)
    ensures Rank(m, i) == Rank(m, j)
    decreases j
  {
    hide Has;
    if i < j { RankOfClear(m, i, j - 1); }
  }

  /** Every ordinal below the weight belongs to exactly one set position. */
  lemma {:induction false} SelectRank(m: seq<word>, bits: nat, ord: nat)
    requires bits <= 64 * |m|
    ensures ord < Rank(m, bits) ==>
              var p := Select(m, bits, ord); p < bits && Has(m, p) && Rank(m, p) == ord
    ensures ord >= Rank(m, bits) ==> Select(m, bits, ord) == 0
  {
    hide Has;
    if bits > 0 {
      SelectRank(m, bits - 1, ord);
    }
  }

  /** Position to ordinal and back. */
  lemma RankSelect(m: seq<word>, bits: nat, p: nat)
    requires p < bits <= 64 * |m| && Has(m, p)
    ensures Rank(m, p) < Rank(m, bits) && Select(m, bits, Rank(m, p)) == p
  {
    hide Has;
    RankMonotone(m, p, bits);
    SelectRank(m, bits, Rank(m, p));
    var q := Select(m, bits, Rank(m, p));
    RankMonotone(m, Min(p, q), Max(p, q));
  }

  lemma {:induction false} RankInWord(m: seq<word>, p: nat, n: nat)
    requires p < |m| && n <= 64
    ensures Rank(m, 64 * p + n) == Rank(m, 64 * p) + Weight(m[p], n)
    decreases n
  {
    hide Bit;
    if n > 0 { RankInWord(m, p, n - 1); WindowOfBits(m, p, n - 1); }
  }

  lemma {:induction false} WeightOfMasked(w: word, n: nat, k: nat)
    requires n <= 64 && k <= 64
    ensures Weight(And(w, Mask(n)), k) == Weight(w, Min(n, k))
    decreases k
  {
    hide Bit, And, Mask;
    MaskedBits(w, n);
    if k > 0 { WeightOfMasked(w, n, k - 1); }
  }

  /** `__bitmap_weight`, with `hweight_long` counting the set bits of a word. */
  method BitmapWeight(bitmap: array<word>, bits: nat) returns (w: nat)
    requires bits <= 64 * bitmap.Length
    ensures w == Rank(bitmap[..], bits)
  {
    hide Rank, Weight, Bit;
    ghost var m := bitmap[..];
    var lim := bits / 64;
    w := 0;
    assert Rank(m, 0) == 0 by { RankOfNothing(m); }
    for k := 0 to lim
      invariant w == Rank(m, 64 * k)
    {
      RankInWord(m, k, 64);
      w := w + Weight(bitmap[k], 64);
    }
    if bits % 64 != 0 {
      RankInWord(m, lim, bits % 64);
      WeightOfMasked(bitmap[lim], bits % 64, 64);
      w := w + Weight(And(bitmap[lim], LastWordMask(bits)), 64);
    }
  }

  lemma RankOfNothing(m: seq<word>)
    ensures Rank(m, 0) == 0
  {
  }

  // ----- Positions and ordinals -----

  /** What `bitmap_pos_to_ord` returns. */
  function Ordinal(m: seq<word>, pos: int, bits: nat): int
    requires bits <= 64 * |m|
  {
    if pos < 0 || pos >= bits || !Has(m, pos) then -1 else Rank(m, pos)
  }

  lemma NextSet(m: seq<word>, bits: nat, i: nat, r: nat)
    requires i < bits <= 64 * |m| && Has(m, i) && IsFirst(m, bits, i + 1, true, r)
    ensures i < r && Rank(m, r) == Rank(m, i) + 1
  {
    hide Has;
    RankOfClear(m, i + 1, r);
  }

  /** `bitmap_pos_to_ord`: the BUG_ON after the loop can not fire. */
  method PosToOrd(bitmap: array<word>, pos: int, bits: nat) returns (ord: int)
    requires bits <= 64 * bitmap.Length
    ensures ord == Ordinal(bitmap[..], pos, bits)
    ensures if 0 <= pos < bits && Has(bitmap[..], pos) then ord == Rank(bitmap[..], pos) else ord == -1
  {
    hide Has, Rank;
    ghost var m := bitmap[..];
    if pos < 0 || pos >= bits { return -1; }
    var isSet := TestBit(bitmap, pos);
    if !isSet { return -1; }
    var i := FindFirstBit(bitmap, bits);
    assert i <= pos;
    ord := 0;
    RankOfClear(m, 0, i); RankOfNothing(m);
    while i < pos
      invariant 0 <= i <= pos && Has(m, i) && ord == Rank(m, i)
    {
      var next := FindNextBit(bitmap, bits, i + 1);
      NextSet(m, bits, i, next);
      assert next <= pos;
      i, ord := next, ord + 1;
    }
    assert i == pos; // BUG_ON(i != pos)
  }

  /** `bitmap_ord_to_pos` */
  method OrdToPos(bitmap: array<word>, ord0: int, bits: nat) returns (pos: nat)
    requires bits <= 64 * bitmap.Length
    ensures pos == if ord0 >= 0 then Select(bitmap[..], bits, ord0) else 0
    ensures if 0 <= ord0 < Rank(bitmap[..], bits) then pos < bits && Has(bitmap[..], pos) && Rank(bitmap[..], pos) == ord0 else pos == 0
  {
    if ord0 >= 0 { SelectRank(bitmap[..], bits, ord0); }
    hide Has, Rank, Select;
    ghost var m := bitmap[..];
    pos := 0;
    if 0 <= ord0 < bits {
      var ord, i := ord0, 0;
      i := FindFirstBit(bitmap, bits);
      RankOfClear(m, 0, i); RankOfNothing(m);
      while i < bits && ord > 0
        invariant 0 <= i <= bits && (i < bits ==> Has(m, i))
        invariant 0 <= ord && ord + Rank(m, i) == ord0
      {
        var next := FindNextBit(bitmap, bits, i + 1);
        NextSet(m, bits, i, next);
        i, ord := next, ord - 1;
      }
      if i < bits && ord == 0 {
        RankSelect(m, bits, i);
        pos := i;
      } else {
        SelectRank(m, bits, ord0);
      }
    } else if ord0 >= bits {
      SelectRank(m, bits, ord0);
      RankAtMost(m, bits);
    }
  }

  lemma RankAtMost(m: seq<word>, bits: nat)
    requires bits <= 64 * |m|
    ensures Rank(m, bits) <= bits
  {
  }

  /** `test_bit` */
  method TestBit(bitmap: array<word>, nr: nat) returns (b: bool)
    requires nr < 64 * bitmap.Length
    ensures b == Has(bitmap[..], nr)
  {
    b := Odd(Shr(bitmap[nr / 64], nr % 64));
  }

  /** `set_bit` */
  method SetBit(bitmap: array<word>, nr: nat)
    requires nr < 64 * bitmap.Length
    modifies bitmap
    ensures Painted(old(bitmap[..]), nr, nr + 1, true, bitmap[..])
  {
    hide Bit, Or, Shl, Painted, Covers;
    NothingPainted(bitmap[..], nr, true);
    SingleBit(nr % 64);
    PaintWord(bitmap[..], nr, nr, true, bitmap[..], nr / 64, Shl(ONE, nr % 64), 1);
    bitmap[nr / 64] := Or(bitmap[nr / 64], Shl(ONE, nr % 64));
  }

  lemma SingleBit(n: nat)
    requires n < 64
    ensures Covers(Shl(ONE, n), n, n + 1)
  {
    hide Bit, Shl;
    forall k | 0 <= k < 64 ensures Bit(Shl(ONE, n), k) == (n <= k < n + 1) {
      ShlBit(ONE, n, k);
      if n <= k { OneBit(k - n); }
    }
  }

  // ----- Remapping -----

  /** `bitmap_bitremap` on values: the n-th set bit of `old` goes to the (n mod w)-th of `new`,
      where w is the weight of `new`; other bits, and all bits if w is 0, stay. */
  function Remapped(bit: nat, old_: seq<word>, new_: seq<word>, bits: nat): nat
    requires bits <= 64 * |old_| && bits <= 64 * |new_|
  {
    var w, n := Rank(new_, bits), Ordinal(old_, bit, bits);
    if n < 0 || w == 0 then bit else Select(new_, bits, n % w)
  }

  lemma RemappedBelow(bit: nat, old_: seq<word>, new_: seq<word>, bits: nat)
    requires bits <= 64 * |old_| && bits <= 64 * |new_| && bit < bits
    ensures Remapped(bit, old_, new_, bits) < bits
  {
  }

  /** The map in words of ordinals: the n-th set position of `old` goes to the set position of `new`
      whose ordinal is congruent to n modulo the weight of `new`; every other position stays, and all
      do if `new` is empty. */
  lemma RemappedTo(bit: nat, old_: seq<word>, new_: seq<word>, bits: nat)
    requires bits <= 64 * |old_| && bits <= 64 * |new_|
    ensures var r, w := Remapped(bit, old_, new_, bits), Rank(new_, bits);
            if bit < bits && Has(old_, bit) && w > 0 then
              r < bits && Has(new_, r) && Rank(new_, r) == Rank(old_, bit) % w
            else r == bit
  {
    hide Has, Rank, Select;
    var w := Rank(new_, bits);
    if bit < bits && Has(old_, bit) && w > 0 {
      var n := Rank(old_, bit);
      SelectRank(new_, bits, n % w);
    }
  }

  /** The map of positions `bitmap_remap` applies. */
  ghost function Remapper(old_: seq<word>, new_: seq<word>, bits: nat): nat -> nat
    requires bits <= 64 * |old_| && bits <= 64 * |new_|
  {
    (i: nat) => Remapped(i, old_, new_, bits)
  }

  /** `bitmap_bitremap` */
  method BitRemap(bit: nat, old_: array<word>, new_: array<word>, bits: nat) returns (r: nat)
    requires bits <= 64 * old_.Length && bits <= 64 * new_.Length
    ensures r == Remapped(bit, old_[..], new_[..], bits)
  {
    var w := BitmapWeight(new_, bits);
    var n := PosToOrd(old_, bit, bits);
    if n < 0 || w == 0 { return bit; }
    r := OrdToPos(new_, n % w, bits);
  }

  /** The image of the set positions below `limit` under a map of positions. */
  ghost predicate InImage(m: seq<word>, limit: nat, f: nat -> nat, j: nat)
    requires limit <= 64 * |m|
  {
    exists i :: 0 <= i < limit && Has(m, i) && f(i) == j
  }

  ghost predicate IsImage(m: seq<word>, limit: nat, f: nat -> nat, r: seq<word>, longs: nat)
    requires limit <= 64 * |m| && longs <= |r|
  {
    forall j :: 0 <= j < 64 * longs ==> Has(r, j) == InImage(m, limit, f, j)
  }

  /** One more set position: its image is added. */
  lemma ImageStep(m: seq<word>, bits: nat, i: nat, next: nat, f: nat -> nat, r: seq<word>, r': seq<word>, longs: nat)
    requires i < bits <= 64 * |m| && Has(m, i) && IsFirst(m, bits, i + 1, true, next)
    requires longs <= |r| && IsImage(m, i, f, r, longs) && f(i) < 64 * longs && Painted(r, f(i), f(i) + 1, true, r')
    ensures i < next <= bits && IsImage(m, next, f, r', longs)
  {
    hide Has;
    forall j | 0 <= j < 64 * longs ensures Has(r', j) == InImage(m, next, f, j) {
      if k :| 0 <= k < next && Has(m, k) && f(k) == j { assert k <= i; }
      if InImage(m, i, f, j) {}
    }
  }

  lemma ImageOfNothing(m: seq<word>, bits: nat, first: nat, f: nat -> nat, r: seq<word>, longs: nat)
    requires bits <= 64 * |m| && IsFirst(m, bits, 0, true, first)
    requires longs <= |r| && forall j :: 0 <= j < longs ==> r[j] == ZERO
    ensures IsImage(m, first, f, r, longs)
  {
    hide Bit;
    forall j | 0 <= j < 64 * longs ensures !Has(r, j) { ZeroBit(j % 64); }
  }

  /** bitmap_zero */
  method BitmapZero(dst: array<word>, bits: nat)
    requires Longs(bits) <= dst.Length
    modifies dst
    ensures forall j :: 0 <= j < Longs(bits) ==> dst[j] == ZERO
    ensures dst[Longs(bits)..] == old(dst[Longs(bits)..])
  {
    forall j | 0 <= j < Longs(bits) { dst[j] := ZERO; }
  }

  ghost function Identity(): nat -> nat {
    (i: nat) => i
  }

  lemma NoneSet(r: seq<word>, longs: nat)
    requires longs <= |r| && forall j :: 0 <= j < longs ==> r[j] == ZERO
    ensures forall i :: 0 <= i < 64 * longs ==> !Has(r, i)
  {
    hide Bit;
    forall i | 0 <= i < 64 * longs ensures !Has(r, i) { ZeroBit(i % 64); }
  }

  lemma NoWeight(r: seq<word>, bits: nat)
    requires Longs(bits) <= |r| && forall j :: 0 <= j < Longs(bits) ==> r[j] == ZERO
    ensures Rank(r, bits) == 0
  {
    hide Has, Rank;
    NoneSet(r, Longs(bits));
    RankOfClear(r, 0, bits); RankOfNothing(r);
  }

  /** A position that has not been dealt with is not set in a partial copy. */
  lemma NotYet(m: seq<word>, bits: nat, i: nat, r: seq<word>, longs: nat)
    requires i < bits <= 64 * |m| && bits <= 64 * longs && longs <= |r| && IsImage(m, i, Identity(), r, longs)
    ensures Ordinal(r, i, bits) == -1
  {
    hide Rank;
    assert !InImage(m, i, Identity(), i);
  }

  /** `bitmap_remap`: the pointwise image under `bitmap_bitremap`; in place it does nothing.  Where the
      destination is one of the two maps it has been cleared before it is read, so that every
      position stays: the result is a copy. */
  method Remap(dst: array<word>, src: array<word>, old_: array<word>, new_: array<word>, bits: nat)
    requires Longs(bits) <= dst.Length && Longs(bits) <= src.Length
    requires Longs(bits) <= old_.Length && Longs(bits) <= new_.Length
    modifies dst
    ensures dst == src ==> dst[..] == old(dst[..])
    ensures dst != src && dst != old_ && dst != new_ ==>
              IsImage(src[..], bits, Remapper(old_[..], new_[..], bits), dst[..], Longs(bits))
    ensures dst != src && (dst == old_ || dst == new_) ==>
              forall i :: 0 <= i < 64 * Longs(bits) ==> Has(dst[..], i) == (i < bits && Has(src[..], i))
  {
    hide Has, Rank, Remapped, InImage, IsImage, Painted, Select, Ordinal, Longs, Remapper, Identity;
    if dst == src { return; }
    BitmapZero(dst, bits);
    NoWeight(dst[..], bits);
    ghost var m, o, n := src[..], old_[..], new_[..];
    ghost var f := if dst == old_ || dst == new_ then Identity() else Remapper(o, n, bits);
    var w := BitmapWeight(new_, bits);
    var oldbit := FindFirstBit(src, bits);
    ImageOfNothing(m, bits, oldbit, f, dst[..], Longs(bits));
    while oldbit < bits
      invariant 0 <= oldbit <= bits && (oldbit < bits ==> Has(m, oldbit))
      invariant IsImage(m, oldbit, f, dst[..], Longs(bits))
    {
      ghost var before := dst[..];
      var target := RemapOne(old_, new_, bits, oldbit, w);
      TargetIs(m, bits, oldbit, old_[..], new_[..], w, target, f, dst == old_ || dst == new_, Longs(bits));
      SetBit(dst, target);
      var next := FindNextBit(src, bits, oldbit + 1);
      ImageStep(m, bits, oldbit, next, f, before, dst[..], Longs(bits));
      oldbit := next;
    }
    if dst == old_ || dst == new_ { CopyIs(m, bits, dst[..], Longs(bits)); }
  }

  lemma TargetIs(m: seq<word>, bits: nat, i: nat, old_: seq<word>, new_: seq<word>, w: nat, target: nat,
                 f: nat -> nat, copied: bool, longs: nat)
    requires i < bits <= 64 * |m| && bits <= 64 * |old_| && bits <= 64 * |new_| && bits <= 64 * longs
    requires var ord := Ordinal(old_, i, bits); target == if ord < 0 || w == 0 then i else Select(new_, bits, ord % w)
    requires copied ==> f == Identity() && (w == 0 || (longs <= |old_| && IsImage(m, i, Identity(), old_, longs)))
    requires !copied ==> f == Remapper(old_, new_, bits) && w == Rank(new_, bits)
    ensures target == f(i) && target < bits
  {
    hide Ordinal, Rank, Select, IsImage;
    if copied {
      if w > 0 { NotYet(m, bits, i, old_, longs); }
    } else {
      RemappedIs(i, old_, new_, bits, Ordinal(old_, i, bits), w, target);
      RemappedBelow(i, old_, new_, bits);
    }
  }

  /** Where one set position goes; the weight has been computed before the loop. */
  method RemapOne(old_: array<word>, new_: array<word>, bits: nat, oldbit: nat, w: nat) returns (target: nat)
    requires bits <= 64 * old_.Length && bits <= 64 * new_.Length
    ensures var ord := Ordinal(old_[..], oldbit, bits);
            target == if ord < 0 || w == 0 then oldbit else Select(new_[..], bits, ord % w)
  {
    hide Ordinal, Select;
    var ord := PosToOrd(old_, oldbit, bits);
    target := oldbit;
    if !(ord < 0 || w == 0) { target := OrdToPos(new_, ord % w, bits); }
  }

  lemma CopyIs(m: seq<word>, bits: nat, r: seq<word>, longs: nat)
    requires bits <= 64 * |m| && longs <= |r| && IsImage(m, bits, Identity(), r, longs)
    ensures forall i :: 0 <= i < 64 * longs ==> Has(r, i) == (i < bits && Has(m, i))
  {
    hide Has;
    forall i | 0 <= i < 64 * longs ensures Has(r, i) == (i < bits && Has(m, i)) {
      if i < bits && Has(m, i) { assert Identity()(i) == i; }
    }
  }

  lemma RemappedIs(bit: nat, old_: seq<word>, new_: seq<word>, bits: nat, ord: int, w: nat, target: nat)
    requires bits <= 64 * |old_| && bits <= 64 * |new_|
    requires ord == Ordinal(old_, bit, bits) && w == Rank(new_, bits)
    requires target == if ord < 0 || w == 0 then bit else Select(new_, bits, ord % w)
    ensures target == Remapped(bit, old_, new_, bits)
  {
  }

  lemma RemappedSet(bit: nat, old_: seq<word>, new_: seq<word>, bits: nat)
    requires bits <= 64 * |old_| && bits <= 64 * |new_| && bit < bits && Has(old_, bit)
    requires Rank(old_, bit) < Rank(new_, bits)
    ensures Remapped(bit, old_, new_, bits) == Select(new_, bits, Rank(old_, bit))
  {
    hide Has, Rank, Select;
    SmallMod(Rank(old_, bit), Rank(new_, bits));
  }

  lemma SmallMod(n: nat, w: nat)
    requires n < w
    ensures n % w == n
  {
  }

  /** Remapping bits of `old` to a `new` of the same weight and back again changes nothing: the two
      maps are inverse to each other on the set bits. */
  lemma RemapRoundTrip(bit: nat, old_: seq<word>, new_: seq<word>, bits: nat)
    requires bits <= 64 * |old_| && bits <= 64 * |new_| && Rank(old_, bits) == Rank(new_, bits)
    requires bit < bits && Has(old_, bit)
    ensures var image := Remapped(bit, old_, new_, bits);
            image < bits && Has(new_, image) && Remapped(image, new_, old_, bits) == bit
  {
    hide Has, Rank, Select, Remapped;
    var n := Rank(old_, bit);
    RankSelect(old_, bits, bit);
    SelectRank(new_, bits, n);
    RemappedSet(bit, old_, new_, bits);
    RemappedSet(Select(new_, bits, n), new_, old_, bits);
  }

  /** The same for whole bitmaps: a subset of `old` survives the trip. */
  lemma RemapThereAndBack(src: seq<word>, old_: seq<word>, new_: seq<word>, bits: nat, mid: seq<word>, back: seq<word>)
    requires Longs(bits) <= |src| && Longs(bits) <= |old_| && Longs(bits) <= |new_| && Longs(bits) <= |mid| && Longs(bits) <= |back|
    requires Rank(old_, bits) == Rank(new_, bits)
    requires forall i :: 0 <= i < bits && Has(src, i) ==> Has(old_, i)
    requires IsImage(src, bits, Remapper(old_, new_, bits), mid, Longs(bits))
    requires IsImage(mid, bits, Remapper(new_, old_, bits), back, Longs(bits))
    ensures forall i :: 0 <= i < bits ==> Has(back, i) == Has(src, i)
  {
    hide Has, Rank, Remapped, Longs;
    var f, g := Remapper(old_, new_, bits), Remapper(new_, old_, bits);
    forall i | 0 <= i < bits ensures Has(back, i) == Has(src, i) {
      if Has(src, i) {
        RemapRoundTrip(i, old_, new_, bits);
        var j := f(i);
        assert InImage(src, bits, f, j) && Has(mid, j) && g(j) == i;
        assert InImage(mid, bits, g, i);
      }
      if Has(back, i) {
        assert InImage(mid, bits, g, i);
        var j :| 0 <= j < bits && Has(mid, j) && g(j) == i;
        assert InImage(src, bits, f, j);
        var k :| 0 <= k < bits && Has(src, k) && f(k) == j;
        RemapRoundTrip(k, old_, new_, bits);
        assert k == i;
      }
    }
  }

  // ----- Onto and fold -----

  /** `bitmap_onto`: position n is set iff n is set in relmap and orig has its ordinal.  Where the
      destination is relmap it has been cleared before it is read, and nothing is set. */
  method Onto(dst: array<word>, orig: array<word>, relmap: array<word>, bits: nat)
    requires Longs(bits) <= dst.Length && Longs(bits) <= orig.Length && Longs(bits) <= relmap.Length
    modifies dst
    ensures dst == orig ==> dst[..] == old(dst[..])
    ensures dst != orig && dst != relmap ==> IsOnto(orig[..], relmap[..], bits, bits, dst[..])
    ensures dst != orig && dst == relmap ==> forall i :: 0 <= i < 64 * Longs(bits) ==> !Has(dst[..], i)
  {
    hide Has, Rank, IsOnto, Painted;
    if dst == orig { return; }
    BitmapZero(dst, bits);
    NoneSet(dst[..], Longs(bits));
    ghost var o, rel := orig[..], relmap[..];
    var n, m := 0, 0;
    n := FindFirstBit(relmap, bits);
    RankOfClear(rel, 0, n); RankOfNothing(rel);
    OntoNothing(o, rel, bits, n, dst[..]);
    while n < bits
      invariant 0 <= n <= bits && (n < bits ==> Has(rel, n)) && m == Rank(rel, n) && relmap[..] == rel
      invariant IsOnto(o, rel, bits, n, dst[..])
    {
      ghost var before := dst[..];
      RankMonotone(rel, n, bits); RankAtMost(rel, n);
      var present := TestBit(orig, m);
      if present { SetBit(dst, n); }
      var next := FindNextBit(relmap, bits, n + 1);
      NextSet(rel, bits, n, next);
      OntoStep(o, rel, bits, n, next, before, dst[..]);
      n, m := next, m + 1;
    }
  }

  /** The result of `bitmap_onto` as far as positions below `limit` of relmap are concerned. */
  ghost predicate IsOnto(orig: seq<word>, relmap: seq<word>, bits: nat, limit: nat, r: seq<word>) {
    limit <= bits && bits <= 64 * |orig| && bits <= 64 * |relmap| && Longs(bits) <= |r|
    && forall n :: 0 <= n < 64 * Longs(bits) ==>
         Has(r, n) == (n < limit && Has(relmap, n) && Has(orig, Rank(relmap, n)))
  }

  lemma OntoNothing(orig: seq<word>, relmap: seq<word>, bits: nat, first: nat, r: seq<word>)
    requires Longs(bits) <= |orig| && Longs(bits) <= |relmap| && Longs(bits) <= |r|
    requires IsFirst(relmap, bits, 0, true, first) && forall j :: 0 <= j < Longs(bits) ==> r[j] == ZERO
    ensures IsOnto(orig, relmap, bits, first, r)
  {
    hide Bit, Rank;
    forall n | 0 <= n < 64 * Longs(bits) ensures !Has(r, n) { ZeroBit(n % 64); }
  }

  lemma OntoStep(orig: seq<word>, relmap: seq<word>, bits: nat, n: nat, next: nat, r: seq<word>, r': seq<word>)
    requires IsOnto(orig, relmap, bits, n, r) && n < bits && Has(relmap, n)
    requires IsFirst(relmap, bits, n + 1, true, next)
    requires if Has(orig, Rank(relmap, n)) then Painted(r, n, n + 1, true, r') else r' == r
    ensures IsOnto(orig, relmap, bits, next, r')
  {
    hide Has, Rank, Longs;
  }

  ghost function Folder(sz: nat): nat -> nat
    requires sz > 0
  {
    (i: nat) => i % sz
  }

  /** `bitmap_fold`: the image under i -> i mod sz. */
  method Fold(dst: array<word>, orig: array<word>, sz: nat, bits: nat)
    requires Longs(bits) <= dst.Length && Longs(bits) <= orig.Length && sz > 0
    modifies dst
    ensures dst == orig ==> dst[..] == old(dst[..])
    ensures dst != orig ==> IsImage(orig[..], bits, Folder(sz), dst[..], Longs(bits))
  {
    hide Has, InImage, IsImage, Painted;
    if dst == orig { return; }
    BitmapZero(dst, bits);
    ghost var m, f := orig[..], Folder(sz);
    var oldbit := FindFirstBit(orig, bits);
    ImageOfNothing(m, bits, oldbit, f, dst[..], Longs(bits));
    while oldbit < bits
      invariant 0 <= oldbit <= bits && (oldbit < bits ==> Has(m, oldbit))
      invariant IsImage(m, oldbit, f, dst[..], Longs(bits))
    {
      ghost var before := dst[..];
      assert oldbit % sz <= oldbit by { ModAtMost(oldbit, sz); }
      SetBit(dst, oldbit % sz);
      var next := FindNextBit(orig, bits, oldbit + 1);
      ImageStep(m, bits, oldbit, next, f, before, dst[..], Longs(bits));
      oldbit := next;
    }
  }

  lemma ModAtMost(x: nat, m: nat)
    requires m > 0
    ensures x % m <= x && x % m < m
  {
  }

  /** Folding by the weight of relmap and then translating onto relmap: n is set iff relmap has n
      and some position of orig is, modulo the weight, the ordinal of n. */
  lemma FoldThenOnto(orig: seq<word>, folded: seq<word>, relmap: seq<word>, bits: nat, r: seq<word>, n: nat)
    requires Longs(bits) <= |orig| && Longs(bits) <= |folded| && Longs(bits) <= |relmap|
    requires Rank(relmap, bits) > 0
    requires IsImage(orig, bits, Folder(Rank(relmap, bits)), folded, Longs(bits))
    requires IsOnto(folded, relmap, bits, bits, r) && n < bits
    ensures var w := Rank(relmap, bits);
            Has(r, n) <==> Has(relmap, n) && exists m :: 0 <= m < bits && Has(orig, m) && m % w == Rank(relmap, n)
  {
    hide Has, Longs, Rank;
    var w, f := Rank(relmap, bits), Folder(Rank(relmap, bits));
    if Has(relmap, n) {
      RankAtMost(relmap, n);
      var k := Rank(relmap, n);
      assert Has(r, n) == Has(folded, k) == InImage(orig, bits, f, k);
      if m :| 0 <= m < bits && Has(orig, m) && m % w == k { assert f(m) == k; }
      if Has(r, n) {
        var m :| 0 <= m < bits && Has(orig, m) && f(m) == k;
        assert m % w == k;
      }
    }
  }
}
