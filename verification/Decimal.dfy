/** Decimal conversion without division: stack_and_service/lib/vsprintf.c, `put_dec*`.

    Digits are produced least significant first.  `Dec` and `Fixed` say what those digits
    are; the methods below write them into a buffer by reciprocal multiplication. */
module Decimal {
  import opened CTypes

  function Digit(d: nat): char
    requires d < 10
  {
    '0' + d as char
  }

  /** The decimal digits of n, least significant first, without a superfluous zero. */
  function Dec(n: nat): (s: string)
    ensures |s| > 0
  {
    if n < 10 then [Digit(n)] else [Digit(n % 10)] + Dec(n / 10)
  }

  /** The k lowest decimal digits of n, least significant first. */
  function Fixed(n: nat, k: nat): (s: string)
    ensures |s| == k
    decreases k, n
  {
    if k == 0 then "" else [Digit(n % 10)] + Fixed(n / 10, k - 1)
  }

  function Pow10(k: nat): (p: nat)
    ensures p > 0
  {
    if k == 0 then 1 else 10 * Pow10(k - 1)
  }

  /** n without its k lowest digits. */
  function Drop(n: nat, k: nat): nat
    decreases k
  {
    if k == 0 then n else Drop(n / 10, k - 1)
  }

  // ----- The digits of a number and of its parts -----

  lemma {:induction false} DecSplit(n: nat, k: nat)
    requires n >= Pow10(k)
    ensures Dec(n) == Fixed(n, k) + Dec(Drop(n, k))
  {
    if k == 0 {
      assert Fixed(n, 0) + Dec(n) == Dec(n);
    } else {
      DecSplit(n / 10, k - 1);
      assert Fixed(n, k) + Dec(Drop(n, k)) == [Digit(n % 10)] + (Fixed(n / 10, k - 1) + Dec(Drop(n, k)));
    }
  }

  lemma {:induction false} DropDrop(n: nat, j: nat, k: nat)
    ensures Drop(Drop(n, j), k) == Drop(n, j + k)
    decreases j
  {
    if j > 0 { DropDrop(n / 10, j - 1, k); }
  }

  lemma DropFour(n: nat)
    ensures Drop(n, 4) == n / 10_000
    ensures Drop(n, 1) == n / 10
  {
    assert Drop(n, 4) == n / 10 / 10 / 10 / 10;
  }

  lemma DropGroups(n: nat)
    ensures Drop(n, 4) == n / 10_000 && Drop(n / 10_000, 4) == n / 100_000_000 == Drop(n, 8)
    ensures Drop(n, 9) == n / 1_000_000_000 && Drop(n, 12) == n / 1_000_000_000_000
  {
    hide Drop;
    DropFour(n); DropFour(n / 10_000); DropFour(n / 100_000_000);
    DropDrop(n, 4, 4); DropDrop(n, 8, 4); DropDrop(n, 8, 1);
  }

  /** The low k digits only depend on n modulo 10^k. */
  lemma {:induction false} FixedMod(n: nat, m: nat, k: nat)
    ensures Fixed(n + m * Pow10(k), k) == Fixed(n, k)
    decreases k
  {
    if k > 0 {
      FixedMod(n / 10, m, k - 1);
      Pow10Step(k);
      hide Pow10, Fixed, Digit;
      TenTimes(m, Pow10(k - 1));
      TensOff(n, m * Pow10(k - 1));
      FixedHead(n + m * Pow10(k), k); FixedHead(n, k);
    }
  }

  lemma Pow10Step(k: nat)
    requires k > 0
    ensures Pow10(k) == 10 * Pow10(k - 1)
  {
  }

  lemma TenTimes(m: nat, p: nat)
    ensures m * (10 * p) == 10 * (m * p)
  {
  }

  lemma TensOff(n: nat, x: nat)
    ensures (n + 10 * x) / 10 == n / 10 + x && (n + 10 * x) % 10 == n % 10
  {
  }

  // ----- Reciprocal multiplications -----

  // Each "multiply and shift" divides by ten exactly on the range it is used on; the
  // intermediate product fits the width the source multiplies in.

  /** (x * (uint64_t)0x1999999a) >> 32 */
  function Tenth32(x: uint32): (r: uint32)
    requires x < 1073741829
    ensures 10 * r <= x < 10 * r + 10
  {
    var product: uint64 := x * 0x1999_999a;
    product / 0x1_0000_0000
  }

  /** (x * 0x199a) >> 16 */
  function Tenth16(x: uint32): (r: uint32)
    requires x < 16389
    ensures 10 * r <= x < 10 * r + 10
  {
    var product: uint32 := x * 0x199a;
    product / 0x1_0000
  }

  /** (x * 0xccd) >> 15 */
  function Tenth15(x: uint32): (r: uint32)
    requires x < 16389
    ensures 10 * r <= x < 10 * r + 10
  {
    var product: uint32 := x * 0xccd;
    product / 0x8000
  }

  /** (x * 0xcd) >> 11 */
  function Tenth11(x: uint32): (r: uint32)
    requires x < 1029
    ensures 10 * r <= x < 10 * r + 10
  {
    var product: uint32 := x * 0xcd;
    product / 0x800
  }

  /** (x * (uint64_t)0x346DC5D7) >> 43, the division by 10000 of `put_dec_helper4`. */
  function TenThousandth(x: uint32): (r: uint32)
    requires x < 1_128_869_999
    ensures r == x / 10000
  {
    var product: uint64 := x * 0x346D_C5D7;
    product / 0x800_0000_0000
  }

  /** The last inputs of those ranges cannot be extended: one past each, the result is wrong. */
  lemma ReciprocalsAreTight()
    ensures 1073741829 * 0x1999_999a / 0x1_0000_0000 != 1073741829 / 10
    ensures 16389 * 0xccd / 0x8000 != 16389 / 10
    ensures 16389 * 0x199a / 0x1_0000 != 16389 / 10
    ensures 1029 * 0xcd / 0x800 != 1029 / 10
  {
  }

  // ----- Digit emitters -----

  /** b' is b with the text t written over it at p. */
  ghost predicate Spliced(b: seq<char>, p: nat, t: string, b': seq<char>) {
    p + |t| <= |b| && b' == b[..p] + t + b[p + |t|..]
  }

  lemma SplicedNothing(b: seq<char>, p: nat)
    requires p <= |b|
    ensures Spliced(b, p, "", b)
  {
    assert b == b[..p] + "" + b[p..];
  }

  lemma SplicedFront(b: seq<char>, t: string, b': seq<char>)
    requires Spliced(b, 0, t, b')
    ensures |t| <= |b'| && b'[..|t|] == t
  {
  }

  /** Writing t right after s is writing s + t. */
  lemma SplicedMore(b: seq<char>, p: nat, s: string, b': seq<char>, t: string, b'': seq<char>)
    requires Spliced(b, p, s, b') && Spliced(b', p + |s|, t, b'')
    ensures Spliced(b, p, s + t, b'')
  {
    assert b'[..p + |s|] == b[..p] + s;
    assert b'[p + |s| + |t|..] == b[p + |s| + |t|..];
    assert b[..p] + s + t == b[..p] + (s + t);
  }

  lemma NothingPrinted(q: nat, k: nat)
    ensures "" + Fixed(q, k) == Fixed(q, k) && "" + Dec(q) == Dec(q)
  {
  }

  lemma AllPrinted(t: string, all: string, q: nat)
    requires t + Fixed(q, 0) == all
    ensures t == all
  {
    assert t + Fixed(q, 0) == t;
  }

  /** `*buf++ = (q - 10 * r) + '0'`, where r has just been set to q / 10: one digit moves from
      what is still to be printed (the k lowest digits of q) to what has been printed. */
  method EmitDigit(buf: array<char>, p: nat, q: uint32, r: uint32,
                   ghost b: seq<char>, ghost start: nat, ghost done: string, ghost k: nat)
    returns (p': nat, ghost done': string)
    requires p < buf.Length && 10 * r <= q < 10 * r + 10 && k > 0
    requires Spliced(b, start, done, buf[..]) && p == start + |done|
    modifies buf
    ensures p' == p + 1 == start + |done'| && Spliced(b, start, done', buf[..])
    ensures done' + Fixed(r, k - 1) == done + Fixed(q, k)
    ensures done' == done + [Digit(q % 10)]
  {
    buf[p] := '0' + (q - 10 * r) as char;
    p' := p + 1;
    done' := done + [Digit(q % 10)];
    assert Fixed(q, k) == [Digit(q % 10)] + Fixed(r, k - 1);
    assert done' + Fixed(r, k - 1) == done + ([Digit(q % 10)] + Fixed(r, k - 1));
  }

  /** `EmitDigit` for a number printed without leading zeros. */
  method EmitLeading(buf: array<char>, p: nat, q: uint32, r: uint32,
                     ghost b: seq<char>, ghost start: nat, ghost done: string)
    returns (p': nat, ghost done': string)
    requires p < buf.Length && 10 * r <= q < 10 * r + 10
    requires Spliced(b, start, done, buf[..]) && p == start + |done|
    modifies buf
    ensures p' == p + 1 == start + |done'| && Spliced(b, start, done', buf[..])
    ensures if r == 0 then done' == done + Dec(q) else done' + Dec(r) == done + Dec(q)
  {
    p', done' := EmitDigit(buf, p, q, r, b, start, done, 1);
    assert r > 0 ==> done' + Dec(r) == done + ([Digit(q % 10)] + Dec(q / 10));
  }

  /** `put_dec_full9`: prints exactly nine digits, leading zeros included. */
  method PutDecFull9(buf: array<char>, p: nat, q0: uint32) returns (p': nat)
    requires p + 9 <= buf.Length && q0 < 1_000_000_000
    modifies buf
    ensures p' == p + 9 && Spliced(old(buf[..]), p, Fixed(q0, 9), buf[..])
  {
    hide *;
    ghost var b := buf[..];
    var r: uint32;
    ghost var t;
    p', r, t := PutDecHighFive(buf, p, q0);
    // now the value is under 10000
    var q: uint32 := Tenth16(r);
    assert q < 1000 && p' + 4 <= buf.Length;
    p', t := EmitDigit(buf, p', r, q, b, p, t, 4);
    r := Tenth11(q);
    p', t := EmitDigit(buf, p', q, r, b, p, t, 3);
    q := Tenth11(r);
    p', t := EmitDigit(buf, p', r, q, b, p, t, 2);
    p', t := EmitDigit(buf, p', q, 0, b, p, t, 1);
    AllPrinted(t, Fixed(q0, 9), 0);
  }

  /** The five digits of `put_dec_full9` that need a 64-bit multiplication each. */
  method PutDecHighFive(buf: array<char>, p: nat, q0: uint32) returns (p': nat, r: uint32, ghost t: string)
    requires p + 5 <= buf.Length && q0 < 1_000_000_000
    modifies buf
    ensures p' == p + 5 == p + |t| && Spliced(old(buf[..]), p, t, buf[..])
    ensures r < 10_000 && t + Fixed(r, 4) == Fixed(q0, 9)
  {
    hide *;
    var q: uint32 := q0;
    ghost var b := buf[..];
    p', t := p, "";
    SplicedNothing(b, p); NothingPrinted(q, 9);
    r := Tenth32(q);
    assert r < 100_000_000;
    p', t := EmitDigit(buf, p', q, r, b, p, t, 9);
    q := Tenth32(r);
    assert q < 10_000_000;
    p', t := EmitDigit(buf, p', r, q, b, p, t, 8);
    r := Tenth32(q);
    assert r < 1_000_000;
    p', t := EmitDigit(buf, p', q, r, b, p, t, 7);
    q := Tenth32(r);
    assert q < 100_000;
    p', t := EmitDigit(buf, p', r, q, b, p, t, 6);
    r := Tenth32(q);
    assert r < 10_000;
    p', t := EmitDigit(buf, p', q, r, b, p, t, 5);
  }

  /** `put_dec_full4`: prints exactly four digits at p, leading zeros included. */
  method PutDecFull4(buf: array<char>, p: nat, q0: uint32)
    requires p + 4 <= buf.Length && q0 < 10_000
    modifies buf
    ensures Spliced(old(buf[..]), p, Fixed(q0, 4), buf[..])
  {
    hide *;
    var q: uint32, r: uint32 := q0, 0;
    ghost var b, t, p' := buf[..], "", p;
    SplicedNothing(b, p); NothingPrinted(q, 4);
    r := Tenth15(q);
    p', t := EmitDigit(buf, p, q, r, b, p, t, 4);
    q := Tenth11(r);
    p', t := EmitDigit(buf, p + 1, r, q, b, p, t, 3);
    r := Tenth11(q);
    p', t := EmitDigit(buf, p + 2, q, r, b, p, t, 2);
    p', t := EmitDigit(buf, p + 3, r, 0, b, p, t, 1);
    AllPrinted(t, Fixed(q0, 4), 0);
  }

  /** `put_dec_trunc8`: prints the digits of r without leading zeros. */
  method PutDecTrunc8(buf: array<char>, p: nat, r0: uint32) returns (p': nat)
    requires r0 < 100_000_000 && p + |Dec(r0)| <= buf.Length
    modifies buf
    ensures p' == p + |Dec(r0)| && Spliced(old(buf[..]), p, Dec(r0), buf[..])
  {
    hide *;
    var q: uint32, r: uint32 := 0, r0;
    ghost var b, t := buf[..], "";
    p' := p;
    SplicedNothing(b, p); NothingPrinted(r0, 0);
    while r >= 10000
      invariant r < 100_000_000 && p' == p + |t| && Spliced(b, p, t, buf[..])
      invariant t + Dec(r) == Dec(r0)
    {
      q := r;
      r := Tenth32(r);
      p', t := EmitLeading(buf, p', q, r, b, p, t);
    }
    q := Tenth16(r);
    p', t := EmitLeading(buf, p', r, q, b, p, t);
    if q == 0 { return; }
    r := Tenth11(q);
    p', t := EmitLeading(buf, p', q, r, b, p, t);
    if r == 0 { return; }
    q := Tenth11(r);
    p', t := EmitLeading(buf, p', r, q, b, p, t);
    if q == 0 { return; }
    p', t := EmitLeading(buf, p', q, 0, b, p, t);
  }

  // ----- Whole numbers -----

  lemma {:induction false} FixedSplit(n: nat, j: nat, k: nat)
    ensures Fixed(n, j + k) == Fixed(n, j) + Fixed(Drop(n, j), k)
    decreases j
  {
    if j == 0 {
      assert Fixed(n, 0) + Fixed(n, k) == Fixed(n, k);
    } else {
      FixedSplit(n / 10, j - 1, k);
      FixedHead(n, j + k); FixedHead(n, j);
      hide Fixed, Digit;
      Associate([Digit(n % 10)], Fixed(n / 10, j - 1), Fixed(Drop(n, j), k));
    }
  }

  lemma FixedHead(n: nat, k: nat)
    requires k > 0
    ensures Fixed(n, k) == [Digit(n % 10)] + Fixed(n / 10, k - 1)
  {
  }

  lemma Associate(a: string, b: string, c: string)
    ensures (a + b) + c == a + (b + c)
  {
  }

  lemma SmallPowers()
    ensures Pow10(4) == 10_000 && Pow10(8) == 100_000_000
    ensures Pow10(9) == 1_000_000_000 && Pow10(12) == 1_000_000_000_000
  {
    assert Pow10(4) == 10_000;
    assert Pow10(8) == 100_000_000;
  }

  /** Printing n modulo 10^9 prints the nine lowest digits of n, and what is left of n has the rest. */
  lemma NineMore(n: nat)
    requires n >= 1_000_000_000
    ensures Fixed(n % 1_000_000_000, 9) + Dec(n / 1_000_000_000) == Dec(n)
  {
    hide *;
    SmallPowers();
    DropGroups(n);
    DecSplit(n, 9);
    FixedMod(n % 1_000_000_000, n / 1_000_000_000, 9);
  }

  lemma SingleDigit(d: nat)
    requires d < 10
    ensures Fixed(d, 1) == Dec(d)
  {
    assert Fixed(d, 1) == [Digit(d)] + Fixed(0, 0);
  }

  lemma NineExactly(n: nat)
    requires 100_000_000 <= n < 1_000_000_000
    ensures Fixed(n, 9) == Dec(n)
  {
    hide *;
    SmallPowers();
    DropGroups(n);
    DecSplit(n, 8);
    FixedSplit(n, 8, 1);
    SingleDigit(Drop(n, 8));
  }

  /** The first `put_dec`: groups of nine digits, by a 64-bit division. */
  method PutDecGeneric(buf: array<char>, p: nat, n0: uint64) returns (p': nat)
    requires p + |Dec(n0)| <= buf.Length
    modifies buf
    ensures p' == p + |Dec(n0)| && Spliced(old(buf[..]), p, Dec(n0), buf[..])
  {
    hide *;
    var n := n0;
    ghost var b, t := buf[..], "";
    p' := p;
    SplicedNothing(b, p); NothingPrinted(n, 0);
    if n >= 100_000_000 {
      while n >= 1_000_000_000
        invariant p' == p + |t| && Spliced(b, p, t, buf[..]) && t + Dec(n) == Dec(n0)
      {
        NineMore(n);
        ghost var d, b' := Fixed(n % 1_000_000_000, 9), buf[..];
        p' := PutDecFull9(buf, p', n % 1_000_000_000);
        SplicedMore(b, p, t, b', d, buf[..]);
        assert t + d + Dec(n / 1_000_000_000) == t + (d + Dec(n / 1_000_000_000));
        n, t := n / 1_000_000_000, t + d;
      }
      if n >= 100_000_000 {
        NineExactly(n);
        ghost var b' := buf[..];
        p' := PutDecFull9(buf, p', n);
        SplicedMore(b, p, t, b', Dec(n), buf[..]);
        return;
      }
    }
    ghost var b' := buf[..];
    p' := PutDecTrunc8(buf, p', n);
    SplicedMore(b, p, t, b', Dec(n), buf[..]);
  }

  /** `put_dec_helper4`: prints the four lowest digits of x and returns the rest. */
  method PutDecHelper4(buf: array<char>, p: nat, x: uint32) returns (q: uint32)
    requires p + 4 <= buf.Length && x < 1_128_869_999
    modifies buf
    ensures q == x / 10_000 && Spliced(old(buf[..]), p, Fixed(x, 4), buf[..])
  {
    q := TenThousandth(x);
    LowFour(x);
    PutDecFull4(buf, p, x - q * 10_000);
  }

  lemma LowFour(x: nat)
    ensures Fixed(x % 10_000, 4) == Fixed(x, 4)
  {
    hide Fixed, Pow10;
    SmallPowers();
    FixedMod(x % 10_000, x / 10_000, 4);
  }

  /** The 16-bit chunks of a 64-bit number and the group sums `put_dec` forms from them. */
  datatype Chunks = Chunks(d3: nat, d2: nat, d1: nat, d0: nat) {
    ghost predicate Of(n: nat) {
      d3 < 0x1_0000 && d2 < 0x1_0000 && d1 < 0x1_0000 && d0 < 0x1_0000
      && n == 0x1_0000_0000_0000 * d3 + 0x1_0000_0000 * d2 + 0x1_0000 * d1 + d0
    }
    function X0(): nat { 656 * d3 + 7296 * d2 + 5536 * d1 + d0 }
    function X1(): nat { X0() / 10_000 + 7671 * d3 + 9496 * d2 + 6 * d1 }
    function X2(): nat { X1() / 10_000 + 4749 * d3 + 42 * d2 }
    function X3(): nat { X2() / 10_000 + 281 * d3 }
  }

  /** No group sum exceeds the bound documented for `put_dec_helper4`, and all-ones reaches it. */
  lemma GroupBounds(c: Chunks, n: nat)
    requires c.Of(n)
    ensures c.X0() <= 1_125_520_955 && c.X1() <= 1_125_520_955 && c.X2() <= 1_125_520_955
    ensures c.X3() < 100_000_000
    ensures n == TWO64 - 1 ==> c.X1() == 1_125_520_955
  {
  }

  /** The group sums carry the decimal value of n. */
  lemma GroupValues(c: Chunks, n: nat)
    requires c.Of(n)
    ensures n % 10_000 == c.X0() % 10_000
    ensures n / 10_000 % 10_000 == c.X1() % 10_000
    ensures n / 100_000_000 % 10_000 == c.X2() % 10_000
    ensures n / 1_000_000_000_000 == c.X3()
  {
    var r3 := 281 * c.d3;
    var r2 := 4749 * c.d3 + 42 * c.d2 + 10_000 * r3;
    var r1 := 7671 * c.d3 + 9496 * c.d2 + 6 * c.d1 + 10_000 * r2;
    Carry(n, c.X0(), r1);
    Carry(n / 10_000, c.X1(), r2);
    Carry(n / 10_000 / 10_000, c.X2(), r3);
    assert n / 10_000 / 10_000 == n / 100_000_000 && n / 100_000_000 / 10_000 == n / 1_000_000_000_000;
  }

  lemma Carry(n: nat, x: nat, r: nat)
    requires n == x + 10_000 * r
    ensures n % 10_000 == x % 10_000 && n / 10_000 == x / 10_000 + r
  {
  }

  /** The three groups of four and the remaining number are the digits of n. */
  lemma GroupDigits(c: Chunks, n: nat)
    requires c.Of(n)
    ensures Fixed(n, 12) == Fixed(c.X0(), 4) + Fixed(c.X1(), 4) + Fixed(c.X2(), 4)
    ensures Drop(n, 12) == c.X3()
  {
    hide Fixed;
    DropGroups(n);
    FixedSplit(n, 4, 8);
    FixedSplit(n / 10_000, 4, 4);
    GroupValues(c, n);
    SameLowFour(n, c.X0());
    SameLowFour(n / 10_000, c.X1());
    SameLowFour(n / 100_000_000, c.X2());
    assert Fixed(c.X0(), 4) + (Fixed(c.X1(), 4) + Fixed(c.X2(), 4)) == Fixed(c.X0(), 4) + Fixed(c.X1(), 4) + Fixed(c.X2(), 4);
  }

  lemma SameLowFour(x: nat, y: nat)
    requires x % 10_000 == y % 10_000
    ensures Fixed(x, 4) == Fixed(y, 4)
  {
    LowFour(x);
    LowFour(y);
  }

  /** The highest of the k low digits of a number that has no more than k. */
  lemma {:induction false} TopDigit(n: nat, k: nat)
    requires k > 0 && n < Pow10(k)
    ensures Drop(n, k - 1) < 10
    ensures Fixed(n, k) == Fixed(n, k - 1) + [Digit(Drop(n, k - 1))]
    ensures Drop(n, k - 1) == 0 <==> n < Pow10(k - 1)
    ensures Drop(n, k - 1) != 0 ==> Fixed(n, k) == Dec(n)
    ensures n > 0 && k == 1 ==> Drop(n, k - 1) != 0
  {
    if k == 1 {
      assert Fixed(n, 1) == [Digit(n % 10)] + Fixed(n / 10, 0);
    } else {
      TopDigit(n / 10, k - 1);
      assert [Digit(n % 10)] + (Fixed(n / 10, k - 2) + [Digit(Drop(n, k - 1))]) == Fixed(n, k - 1) + [Digit(Drop(n, k - 1))];
      assert Pow10(k - 1) >= 10;
    }
  }

  /** The second `put_dec`: 16-bit chunks and groups of four digits, no 64-bit division. */
  method PutDecChunked(buf: array<char>, p: nat, n: uint64) returns (p': nat)
    requires p + 20 <= buf.Length
    modifies buf
    ensures p' == p + |Dec(n)| <= p + 20
    ensures buf[..p] == old(buf[..p]) && buf[p..p'] == Dec(n) && buf[p + 20..] == old(buf[p + 20..])
  {
    hide Fixed, Dec, Chunks.Of, Chunks.X0, Chunks.X1, Chunks.X2, Chunks.X3, Pow10, Drop, Spliced;
    SmallPowers();
    ghost var b := buf[..];
    if n < 100_000_000 {
      ShortDec(n, 8);
      p' := PutDecTrunc8(buf, p, n);
      SplicedParts(b, p, Dec(n), buf[..], 20);
      return;
    }
    var low, h := n % 0x1_0000_0000, n / 0x1_0000_0000;
    var c := Chunks(h / 0x1_0000, h % 0x1_0000, low / 0x1_0000, low % 0x1_0000);
    ChunksOf(n);
    var q := PutDecGroups(buf, p, c, n);
    GroupDigits(c, n); GroupBounds(c, n); DropGroups(n);
    p' := p + 12;
    if q != 0 {
      ghost var b' := buf[..];
      DecSplit(n, 12);
      ShortDec(q, 8);
      p' := PutDecTrunc8(buf, p', q);
      SplicedMore(b, p, Fixed(n, 12), b', Dec(q), buf[..]);
      SplicedParts(b, p, Dec(n), buf[..], 20);
    } else {
      SplicedParts(b, p, Fixed(n, 12), buf[..], 20);
      p' := DropTrailingZeros(buf, p, n, p');
    }
  }

  lemma ChunksOf(n: uint64)
    ensures var low, h := n % 0x1_0000_0000, n / 0x1_0000_0000;
            Chunks(h / 0x1_0000, h % 0x1_0000, low / 0x1_0000, low % 0x1_0000).Of(n)
  {
  }

  lemma SplicedParts(b: seq<char>, p: nat, t: string, b': seq<char>, room: nat)
    requires Spliced(b, p, t, b') && |t| <= room && p + room <= |b|
    ensures |b'| == |b| && b'[..p] == b[..p] && b'[p..p + |t|] == t && b'[p + room..] == b[p + room..]
  {
  }

  lemma GroupSums(c: Chunks)
    ensures 656 * c.d3 + 7296 * c.d2 + 5536 * c.d1 + c.d0 == c.X0()
    ensures c.X0() / 10_000 + (7671 * c.d3 + 9496 * c.d2 + 6 * c.d1) == c.X1()
    ensures c.X1() / 10_000 + (4749 * c.d3 + 42 * c.d2) == c.X2()
    ensures c.X2() / 10_000 + 281 * c.d3 == c.X3()
  {
  }

  /** The straight-line part of the chunked `put_dec`: twelve digits, the rest is returned. */
  method PutDecGroups(buf: array<char>, p: nat, c: Chunks, ghost n: uint64) returns (q: uint32)
    requires p + 12 <= buf.Length && c.Of(n)
    modifies buf
    ensures q == c.X3() && Spliced(old(buf[..]), p, Fixed(n, 12), buf[..])
  {
    hide *;
    GroupSums(c); GroupBounds(c, n); GroupDigits(c, n);
    ghost var b := buf[..];
    var d3, d2, d1 := c.d3, c.d2, c.d1;
    q := 656 * d3 + 7296 * d2 + 5536 * d1 + c.d0;
    q := PutDecHelper4(buf, p, q);
    ghost var t, b' := Fixed(c.X0(), 4), buf[..];
    q := q + (7671 * d3 + 9496 * d2 + 6 * d1);
    q := PutDecHelper4(buf, p + 4, q);
    SplicedMore(b, p, t, b', Fixed(c.X1(), 4), buf[..]);
    t, b' := t + Fixed(c.X1(), 4), buf[..];
    q := q + (4749 * d3 + 42 * d2);
    q := PutDecHelper4(buf, p + 8, q);
    SplicedMore(b, p, t, b', Fixed(c.X2(), 4), buf[..]);
    q := q + 281 * d3;
  }

  /** `while (buf[-1] == '0') --buf;` on the twelve digits at p. */
  method DropTrailingZeros(buf: array<char>, ghost p: nat, ghost n: nat, q: nat) returns (p': nat)
    requires p + 12 == q <= buf.Length && 0 < n < Pow10(12) && buf[p..q] == Fixed(n, 12)
    ensures p' == p + |Dec(n)| <= q && buf[p..p'] == Dec(n)
  {
    hide Fixed, Dec, Pow10, Drop;
    p' := q;
    ghost var k := 12;
    TopDigit(n, k);
    while buf[p' - 1] == '0'
      invariant 0 < k && p' == p + k <= p + 12 && n < Pow10(k) && buf[p..p'] == Fixed(n, k)
      decreases k
    {
      TopDigit(n, k);
      assert buf[p..p' - 1] == buf[p..p'][..k - 1];
      p', k := p' - 1, k - 1;
    }
    TopDigit(n, k);
  }

  lemma {:induction false} ShortDec(n: nat, k: nat)
    requires k > 0 && n < Pow10(k)
    ensures |Dec(n)| <= k
  {
    if n >= 10 { ShortDec(n / 10, k - 1); }
  }
}
