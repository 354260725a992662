/** Reading numbers back: stack_and_service/lib/kstrtox.c. */
module Kstrtox {
  import opened CTypes
  import opened Format

  const KSTRTOX_OVERFLOW: uint32 := 0x8000_0000

  datatype Error = ERANGE | EINVAL
  datatype Result = Ok(value: int) | Err(error: Error)

  // ----- Digits and their value -----

  /** The value of a digit character, 16 for any other character. */
  function DigitValue(c: char): (v: nat)
    requires c < 256 as char
    ensures v <= 16
  {
    if IsDigit(c) then (c - '0') as nat
    else if 'a' <= ToLower(c) <= 'f' then (ToLower(c) - 'a') as nat + 10
    else 16
  }

  /** Every character is a digit of the base. */
  ghost predicate AllDigits(s: cstring, base: nat) {
    forall i :: 0 <= i < |s| ==> DigitValue(s[i]) < base
  }

  /** Positional value, most significant digit first. */
  function Value(s: cstring, base: nat): nat {
    if s == "" then 0 else Value(s[..|s| - 1], base) * base + DigitValue(s[|s| - 1])
  }

  /** Where the digits of the base that start at i end. */
  function RunEnd(s: cstring, i: nat, base: nat): (j: nat)
    requires i <= |s|
    ensures i <= j <= |s| && AllDigits(s[i..j], base)
    ensures j < |s| ==> DigitValue(s[j]) >= base
    decreases |s| - i
  {
    if i < |s| && DigitValue(s[i]) < base then
      var j := RunEnd(s, i + 1, base);
      assert s[i..j] == [s[i]] + s[i + 1..j];
      j
    else
      i
  }

  // ----- _parse_integer -----

  /** `_parse_integer`: the count of digits, the overflow bit, and the value modulo 2^64. */
  method ParseInteger(s: cstring, start: nat, base: uint32) returns (rv: uint32, res: uint64)
    requires start <= |s| && 2 <= base <= 16
    requires RunEnd(s, start, base) - start < 0x8000_0000
    ensures var n := RunEnd(s, start, base) - start;
            var v := Value(s[start..start + n], base);
            && rv == (if v >= TWO64 then n + KSTRTOX_OVERFLOW else n)
            && res == v % TWO64
  {
    hide Value, Overflows, DigitValue, AllDigits;
    var i, overflow := start, false;
    res, rv := 0, 0;
    ghost var v := 0;
    EmptyValue(s[start..start], base);
    while i < |s|
      invariant start <= i <= |s| && RunEnd(s, i, base) == RunEnd(s, start, base) && rv == i - start
      invariant v == Value(s[start..i], base) && res == v % TWO64 && (overflow <==> v >= TWO64)
    {
      var val := DigitValue(s[i]);
      if val >= base { break; }
      if Overflows(res, val, base) { overflow := true; }
      LazyCheck(v, res, val, base);
      ValueStep(s, start, i, base);
      v := Value(s[start..i + 1], base);
      res := Accumulate(res, val, base);
      rv, i := rv + 1, i + 1;
    }
    if overflow { rv := rv + KSTRTOX_OVERFLOW; }
  }

  /** The overflow check: only within reach of it, "in the max base we support (16)". */
  predicate Overflows(res: uint64, val: nat, base: nat)
    requires 2 <= base <= 16 && val < base
  {
    res >= 0x1000_0000_0000_0000 && res > (TWO64 - 1 - val) / base
  }

  /** res * base + val, in 64 bits. */
  function Accumulate(res: uint64, val: nat, base: nat): uint64 {
    ToUint64(res * base + val)
  }

  lemma EmptyValue(s: cstring, base: nat)
    requires s == ""
    ensures Value(s, base) == 0
  {
  }

  lemma ValueStep(s: cstring, start: nat, i: nat, base: nat)
    requires start <= i < |s|
    ensures Value(s[start..i + 1], base) == Value(s[start..i], base) * base + DigitValue(s[i])
  {
    assert s[start..i + 1][..i - start] == s[start..i];
  }

  /** One digit more: the check finds the first overflow although it only looks at accumulators
      of at least 2^60, and the wrapped accumulator stays congruent to the value. */
  lemma LazyCheck(v: nat, res: uint64, val: nat, base: nat)
    requires 2 <= base <= 16 && val < base && res == v % TWO64
    ensures v < TWO64 ==>
              (v * base + val >= TWO64 <==> Overflows(res, val, base))
    ensures v >= TWO64 ==> v * base + val >= TWO64
    ensures Accumulate(res, val, base) == (v * base + val) % TWO64
  {
    hide Overflows;
    CheckIsExact(res, val, base);
    MulMono(1, base, v);
    var m := v / TWO64;
    Distribute(m, TWO64, res, base);
    AddMultiple(res * base + val, m * base);
  }

  lemma Distribute(m: nat, t: nat, r: nat, base: nat)
    ensures (m * t + r) * base == (m * base) * t + r * base
  {
    assert m * t * base == (m * base) * t;
  }

  lemma AddMultiple(x: nat, k: nat)
    ensures (k * TWO64 + x) % TWO64 == x % TWO64
  {
  }

  lemma CheckIsExact(v: uint64, val: nat, base: nat)
    requires 2 <= base <= 16 && val < base
    ensures v * base + val >= TWO64 <==> Overflows(v, val, base)
  {
    var q := (TWO64 - 1 - val) / base;
    assert q * base <= TWO64 - 1 - val < q * base + base;
    if v > q { MulMono(q + 1, v, base); assert (q + 1) * base == q * base + base; }
    else { MulMono(v, q, base); }
    if v < 0x1000_0000_0000_0000 { MulMono(v, 0xfff_ffff_ffff_ffff, base); }
  }

  // ----- kstrtoull and kstrtoll -----

  /** `_parse_integer_fixup_radix`: the radix to use and how many characters of prefix to skip. */
  function FixupRadix(s: cstring, base: nat): (r: (nat, nat))
    ensures r.1 <= |s|
    ensures base == 0 || 2 <= base <= 16 ==> 2 <= r.0 <= 16
  {
    var hex := |s| > 0 && s[0] == '0' && ToLower(CharAt(s, 1)) == 'x';
    var radix :=
      if base != 0 then base
      else if |s| == 0 || s[0] != '0' then 10
      else if hex && DigitValue(CharAt(s, 2)) < 16 then 16
      else 8;
    (radix, if radix == 16 && hex then 2 else 0)
  }

  /** What `_kstrtoull` returns. */
  function Unsigned(s: cstring, base: nat): (r: Result)
    requires base == 0 || 2 <= base <= 16
    ensures r.Ok? ==> 0 <= r.value < TWO64
  {
    var (radix, i) := FixupRadix(s, base);
    var j := RunEnd(s, i, radix);
    var v := Value(s[i..j], radix);
    if v >= TWO64 then Err(ERANGE)
    else if j == i then Err(EINVAL)
    else if j + (if CharAt(s, j) == '\n' then 1 else 0) < |s| then Err(EINVAL)
    else Ok(v)
  }

  function Kstrtoull(s: cstring, base: nat): Result
    requires base == 0 || 2 <= base <= 16
  {
    Unsigned(if CharAt(s, 0) == '+' then s[1..] else s, base)
  }

  function Kstrtoll(s: cstring, base: nat): Result
    requires base == 0 || 2 <= base <= 16
  {
    if CharAt(s, 0) == '-' then
      match Unsigned(s[1..], base)
      case Err(e) => Err(e)
      case Ok(tmp) => if ToInt64(-tmp) >= 0 then Err(ERANGE) else Ok(ToInt64(-tmp))
    else
      match Kstrtoull(s, base)
      case Err(e) => Err(e)
      case Ok(tmp) => if ToInt64(tmp) < 0 then Err(ERANGE) else Ok(tmp)
  }

  /** The run of digits the parser will see is not so long that its count runs into the overflow bit. */
  predicate ShortRun(s: cstring, base: nat)
    requires base == 0 || 2 <= base <= 16
  {
    var (radix, i) := FixupRadix(s, base);
    RunEnd(s, i, radix) - i < 0x8000_0000
  }

  /** `_kstrtoull` */
  method ReadUnsigned(s: cstring, base: uint32) returns (r: Result)
    requires (base == 0 || 2 <= base <= 16) && ShortRun(s, base)
    ensures r == Unsigned(s, base)
  {
    hide Value, RunEnd, AllDigits, FixupRadix;
    var (radix, i) := FixupRadix(s, base);
    var rv, res := ParseInteger(s, i, radix);
    if rv >= KSTRTOX_OVERFLOW { return Err(ERANGE); }
    if rv == 0 { return Err(EINVAL); }
    i := i + rv;
    if CharAt(s, i) == '\n' { i := i + 1; }
    if i < |s| { return Err(EINVAL); }
    return Ok(res);
  }

  /** `kstrtoll` */
  method ReadSigned(s: cstring, base: uint32) returns (r: Result)
    requires base == 0 || 2 <= base <= 16
    requires ShortRun(if CharAt(s, 0) == '-' || CharAt(s, 0) == '+' then s[1..] else s, base)
    ensures r == Kstrtoll(s, base)
  {
    if CharAt(s, 0) == '-' {
      r := ReadUnsigned(s[1..], base);
      if r.Err? { return; }
      if ToInt64(-r.value) >= 0 { return Err(ERANGE); }
      return Ok(ToInt64(-r.value));
    }
    r := ReadUnsigned(if CharAt(s, 0) == '+' then s[1..] else s, base);
    if r.Ok? && ToInt64(r.value) < 0 { return Err(ERANGE); }
  }

  // ----- Which strings are accepted -----

  /** s is a numeral: a prefix, at least one digit, and at most one newline. */
  ghost predicate Numeral(s: cstring, base: nat, prefix: cstring, digits: cstring, newline: cstring, radix: nat) {
    && s == prefix + digits + newline
    && digits != "" && AllDigits(digits, radix) && (newline == "" || newline == "\n")
    && (if base == 0 then
          || (radix == 16 && (prefix == "0x" || prefix == "0X"))
          || (radix == 8 && prefix == "" && digits[0] == '0')
          || (radix == 10 && prefix == "" && digits[0] != '0')
        else if base == 16 then radix == 16 && (prefix == "" || prefix == "0x" || prefix == "0X")
        else radix == base && prefix == "")
  }

  /** A numeral is split by the reader into its prefix and its digits. */
  lemma NumeralIsRead(s: cstring, base: nat, prefix: cstring, digits: cstring, newline: cstring, radix: nat)
    requires base == 0 || 2 <= base <= 16
    requires Numeral(s, base, prefix, digits, newline, radix)
    ensures FixupRadix(s, base) == (radix, |prefix|)
    ensures RunEnd(s, |prefix|, radix) == |prefix| + |digits|
    ensures Unsigned(s, base) == if Value(digits, radix) < TWO64 then Ok(Value(digits, radix)) else Err(ERANGE)
  {
    hide Value;
    var i, j := |prefix|, |prefix| + |digits|;
    assert s[i..j] == digits;
    assert s[j..] == newline;
    assert CharAt(s, j) == '\0' || CharAt(s, j) == '\n';
    assert digits[0] == s[i];
    PrefixIsRead(s, base, prefix, digits, newline, radix);
    RunIsRead(s, i, j, radix);
  }

  lemma PrefixIsRead(s: cstring, base: nat, prefix: cstring, digits: cstring, newline: cstring, radix: nat)
    requires base == 0 || 2 <= base <= 16
    requires Numeral(s, base, prefix, digits, newline, radix)
    ensures FixupRadix(s, base) == (radix, |prefix|)
  {
    if prefix == "" {
      assert s[0] == digits[0];
      assert |digits| > 1 ==> s[1] == digits[1];
    } else {
      assert s[0] == prefix[0] && s[1] == prefix[1] && s[2] == digits[0];
    }
  }

  lemma {:induction false} RunIsRead(s: cstring, i: nat, j: nat, radix: nat)
    requires i <= j <= |s| && AllDigits(s[i..j], radix) && radix <= 16
    requires j == |s| || s[j] == '\n'
    ensures RunEnd(s, i, radix) == j
    decreases j - i
  {
    if i < j {
      assert s[i..j][0] == s[i] && s[i..j][1..] == s[i + 1..j];
      RunIsRead(s, i + 1, j, radix);
    }
  }

  /** What the reader accepts is a numeral, split where it stopped. */
  lemma ReadIsNumeral(s: cstring, base: nat, radix: nat, i: nat, j: nat)
    requires (base == 0 || 2 <= base <= 16) && (radix, i) == FixupRadix(s, base) && i <= |s| && j == RunEnd(s, i, radix)
    requires Unsigned(s, base).Ok?
    ensures i <= j <= |s| && Numeral(s, base, s[..i], s[i..j], s[j..], radix)
    ensures Unsigned(s, base) == Ok(Value(s[i..j], radix)) && Value(s[i..j], radix) < TWO64
  {
    hide Value, AllDigits, Numeral, RunEnd, FixupRadix;
    RestIsNewline(s, j);
    SplitIsNumeral(s, base, radix, i, j);
  }

  lemma RestIsNewline(s: cstring, j: nat)
    requires j <= |s| && j + (if CharAt(s, j) == '\n' then 1 else 0) >= |s|
    ensures s[j..] == "" || s[j..] == "\n"
  {
  }

  lemma SplitIsNumeral(s: cstring, base: nat, radix: nat, i: nat, j: nat)
    requires (base == 0 || 2 <= base <= 16) && (radix, i) == FixupRadix(s, base) && i < j <= |s|
    requires AllDigits(s[i..j], radix) && (s[j..] == "" || s[j..] == "\n")
    ensures Numeral(s, base, s[..i], s[i..j], s[j..], radix)
  {
    hide AllDigits;
    assert s == s[..i] + s[i..j] + s[j..];
    PrefixFound(s, base, radix, i);
    hide FixupRadix;
    assert s[i..j][0] == s[i];
    assert s[..0] == "";
  }

  lemma PrefixFound(s: cstring, base: nat, radix: nat, i: nat)
    requires (base == 0 || 2 <= base <= 16) && (radix, i) == FixupRadix(s, base) && i < |s|
    ensures i == 0 || (i == 2 && radix == 16 && (s[..2] == "0x" || s[..2] == "0X"))
    ensures if base == 0 then radix == (if i == 2 then 16 else if s[0] == '0' then 8 else 10) else radix == base
  {
  }

  /** s is a numeral of value v. */
  ghost predicate IsNumeral(s: cstring, base: nat, v: int) {
    exists p: cstring, d: cstring, n: cstring, radix: nat :: Numeral(s, base, p, d, n, radix) && v == Value(d, radix)
  }

  lemma NumeralHas(s: cstring, base: nat, p: cstring, d: cstring, n: cstring, radix: nat)
    requires Numeral(s, base, p, d, n, radix)
    ensures IsNumeral(s, base, Value(d, radix))
  {
    hide Numeral, Value;
  }

  lemma NumeralValue(s: cstring, base: nat, v: int)
    requires base == 0 || 2 <= base <= 16
    requires IsNumeral(s, base, v)
    ensures Unsigned(s, base) == if v < TWO64 then Ok(v) else Err(ERANGE)
  {
    hide Value, Unsigned, FixupRadix, RunEnd, Numeral;
    var p: cstring, d: cstring, n: cstring, radix: nat :| Numeral(s, base, p, d, n, radix) && v == Value(d, radix);
    NumeralIsRead(s, base, p, d, n, radix);
  }

  /** `_kstrtoull` succeeds exactly on the numerals below 2^64, with their value. */
  lemma AcceptsExactlyNumerals(s: cstring, base: nat, v: int)
    requires base == 0 || 2 <= base <= 16
    ensures Unsigned(s, base) == Ok(v) <==> v < TWO64 && IsNumeral(s, base, v)
  {
    hide Unsigned, IsNumeral, Numeral, FixupRadix, RunEnd, Value, AllDigits;
    if Unsigned(s, base) == Ok(v) {
      var (radix, i) := FixupRadix(s, base);
      var j := RunEnd(s, i, radix);
      ReadIsNumeral(s, base, radix, i, j);
      NumeralHas(s, base, s[..i], s[i..j], s[j..], radix);
    }
    if IsNumeral(s, base, v) {
      NumeralValue(s, base, v);
    }
  }

  const LOWER: string := "0123456789abcdef"
  const UPPER: string := "0123456789ABCDEF"

  /** Which characters are digits, and of which value. */
  lemma DigitsOfNumerals(c: char)
    requires c < 256 as char
    ensures DigitValue(c) < 16 <==> c in LOWER || c in UPPER
    ensures DigitValue(c) < 16 ==> c == LOWER[DigitValue(c)] || c == UPPER[DigitValue(c)]
    ensures forall d :: 0 <= d < 16 ==> LOWER[d] < 256 as char && UPPER[d] < 256 as char
    ensures forall d :: 0 <= d < 16 ==> DigitValue(LOWER[d]) == DigitValue(UPPER[d]) == d
  {
    hide DigitValue;
    forall d | 0 <= d < 16
      ensures LOWER[d] < 256 as char && UPPER[d] < 256 as char && DigitValue(LOWER[d]) == DigitValue(UPPER[d]) == d
    {
      Table(d);
      ValueOfDigit(LOWER[d]); ValueOfDigit(UPPER[d]);
    }
    ValueOfDigit(c);
    if DigitValue(c) < 16 { Table(DigitValue(c)); }
  }

  lemma Table(d: nat)
    requires d < 16
    ensures LOWER[d] == if d < 10 then '0' + d as char else 'a' + (d - 10) as char
    ensures UPPER[d] == if d < 10 then '0' + d as char else 'A' + (d - 10) as char
  {
  }

  lemma ValueOfDigit(c: char)
    requires c < 256 as char
    ensures DigitValue(c) == if '0' <= c <= '9' then (c - '0') as int
                             else if 'a' <= c <= 'f' then (c - 'a') as int + 10
                             else if 'A' <= c <= 'F' then (c - 'A') as int + 10 else 16
  {
  }

  /** s begins with a numeral, whatever follows its digits. */
  ghost predicate BeginsNumeral(s: cstring, base: nat, v: int) {
    exists k :: 0 <= k <= |s| && IsNumeral(s[..k], base, v)
  }

  /** Of the strings that are refused, those that begin with a number that is too large get -ERANGE,
      even if something else follows, and the others -EINVAL. */
  lemma RefusedAsRange(s: cstring, base: nat)
    requires base == 0 || 2 <= base <= 16
    ensures Unsigned(s, base) == Err(ERANGE) <==> exists v :: v >= TWO64 && BeginsNumeral(s, base, v)
  {
    hide Unsigned, FixupRadix, RunEnd, Value, AllDigits, IsNumeral, Numeral;
    var (radix, i) := FixupRadix(s, base);
    var j := RunEnd(s, i, radix);
    if Unsigned(s, base) == Err(ERANGE) {
      RunIsNumeral(s, base);
      assert BeginsNumeral(s, base, Value(s[i..j], radix));
    }
    if v :| v >= TWO64 && BeginsNumeral(s, base, v) {
      var k :| 0 <= k <= |s| && IsNumeral(s[..k], base, v);
      LongerRun(s, k, base, v);
    }
  }

  lemma UnsignedErrors(s: cstring, base: nat)
    requires base == 0 || 2 <= base <= 16
    ensures var (radix, i) := FixupRadix(s, base);
            Unsigned(s, base) == Err(ERANGE) <==> Value(s[i..RunEnd(s, i, radix)], radix) >= TWO64
  {
  }

  lemma RunIsNumeral(s: cstring, base: nat)
    requires (base == 0 || 2 <= base <= 16) && Unsigned(s, base) == Err(ERANGE)
    ensures var (radix, i) := FixupRadix(s, base);
            var j := RunEnd(s, i, radix);
            IsNumeral(s[..j], base, Value(s[i..j], radix)) && Value(s[i..j], radix) >= TWO64
  {
    hide Unsigned, Value, AllDigits, IsNumeral, Numeral;
    UnsignedErrors(s, base);
    var (radix, i) := FixupRadix(s, base);
    var j := RunEnd(s, i, radix);
    hide RunEnd, FixupRadix;
    EmptyValue(s[i..i], radix);
    SplitDigits(s, base, radix, i, j);
    NumeralHas(s[..j], base, s[..i], s[i..j], "", radix);
  }

  lemma SplitDigits(s: cstring, base: nat, radix: nat, i: nat, j: nat)
    requires (base == 0 || 2 <= base <= 16) && (radix, i) == FixupRadix(s, base) && i < j <= |s| && AllDigits(s[i..j], radix)
    ensures Numeral(s[..j], base, s[..i], s[i..j], "", radix)
  {
    hide AllDigits;
    assert s[..j] == s[..i] + s[i..j] + "";
    PrefixFound(s, base, radix, i);
    hide FixupRadix;
    assert s[i..j][0] == s[i];
    assert s[..0] == "";
  }

  /** What follows a numeral can only make its run of digits longer. */
  lemma LongerRun(s: cstring, k: nat, base: nat, v: int)
    requires (base == 0 || 2 <= base <= 16) && k <= |s| && v >= TWO64 && IsNumeral(s[..k], base, v)
    ensures Unsigned(s, base) == Err(ERANGE)
  {
    hide Value, RunEnd, AllDigits, Unsigned, FixupRadix, Numeral;
    var p: cstring, d: cstring, n: cstring, radix: nat :| Numeral(s[..k], base, p, d, n, radix) && v == Value(d, radix);
    var i, j := |p|, |p| + |d|;
    WithoutNewline(s, k, base, p, d, n, radix);
    LongDigits(d, radix, v);
    PrefixStays(s, base, p, d, radix);
    RunReaches(s, i, j, radix);
    ValueGrows(s, i, j, RunEnd(s, i, radix), radix);
    UnsignedErrors(s, base);
  }

  lemma WithoutNewline(s: cstring, k: nat, base: nat, p: cstring, d: cstring, n: cstring, radix: nat)
    requires k <= |s| && Numeral(s[..k], base, p, d, n, radix)
    ensures var j := |p| + |d|;
            j <= k && s[|p|..j] == d && Numeral(s[..j], base, p, d, "", radix) && AllDigits(d, radix)
    ensures (base == 0 || 2 <= base <= 16) ==> 2 <= radix <= 16
  {
    hide AllDigits;
    assert s[|p|..|p| + |d|] == d && s[..|p| + |d|] == p + d by { assert s[..k][|p|..|p| + |d|] == d && s[..k][..|p| + |d|] == p + d; }
    assert p + d == p + d + "";
  }

  /** A value that needs more than 64 bits needs more than two digits. */
  lemma LongDigits(d: cstring, radix: nat, v: int)
    requires AllDigits(d, radix) && radix <= 16 && v == Value(d, radix) >= TWO64
    ensures |d| >= 3
  {
    hide Value, AllDigits;
    if |d| <= 2 { ShortDigits(d, radix); }
  }

  lemma {:induction false} ShortDigits(d: cstring, radix: nat)
    requires AllDigits(d, radix) && radix <= 16 && |d| <= 2
    ensures Value(d, radix) < if d == "" then 1 else if |d| == 1 then 16 else 256
  {
    if d != "" {
      ShortDigits(d[..|d| - 1], radix);
      MulMono(Value(d[..|d| - 1], radix), 15, radix);
    }
  }

  lemma PrefixStays(s: cstring, base: nat, p: cstring, d: cstring, radix: nat)
    requires (base == 0 || 2 <= base <= 16) && |p| + |d| <= |s| && |d| >= 3
    requires Numeral(s[..|p| + |d|], base, p, d, "", radix)
    ensures FixupRadix(s, base) == (radix, |p|)
  {
    var t := s[..|p| + |d|];
    assert t == p + d;
    assert s[0] == t[0] && s[1] == t[1] && s[2] == t[2];
    PrefixIsRead(t, base, p, d, "", radix);
  }

  lemma {:induction false} RunReaches(s: cstring, i: nat, j: nat, radix: nat)
    requires i <= j <= |s| && AllDigits(s[i..j], radix)
    ensures j <= RunEnd(s, i, radix)
    decreases j - i
  {
    if i < j {
      assert s[i..j][0] == s[i] && s[i..j][1..] == s[i + 1..j];
      RunReaches(s, i + 1, j, radix);
    }
  }

  lemma {:induction false} ValueGrows(s: cstring, i: nat, j: nat, k: nat, radix: nat)
    requires i <= j <= k <= |s| && radix > 0
    ensures Value(s[i..j], radix) <= Value(s[i..k], radix)
    decreases k
  {
    hide Value;
    if j < k {
      ValueGrows(s, i, j, k - 1, radix);
      ValueStep(s, i, k - 1, radix);
      MulMono(1, radix, Value(s[i..k - 1], radix));
    }
  }

  /** `kstrtoull`: one plus sign is skipped, a minus sign is not. */
  lemma UnsignedAccepts(s: cstring, base: nat, v: int)
    requires base == 0 || 2 <= base <= 16
    ensures Kstrtoull(s, base) == Ok(v) <==>
              v < TWO64 && (IsNumeral(s, base, v) || (s != "" && s[0] == '+' && IsNumeral(s[1..], base, v)))
  {
    hide Unsigned, IsNumeral;
    AcceptsExactlyNumerals(s, base, v);
    if s != "" {
      AcceptsExactlyNumerals(s[1..], base, v);
      if IsNumeral(s, base, v) { NoSignInNumeral(s, base, v); }
    }
  }

  lemma NoSignInNumeral(s: cstring, base: nat, v: int)
    requires (base == 0 || 2 <= base <= 16) && IsNumeral(s, base, v)
    ensures s != "" && s[0] != '+' && s[0] != '-' && v >= 0
  {
    hide Value;
    var p: cstring, d: cstring, n: cstring, radix: nat :| Numeral(s, base, p, d, n, radix) && v == Value(d, radix);
    assert s[0] == if p == "" then d[0] else p[0];
  }

  /** `kstrtoll` accepts numerals below 2^63, perhaps after a plus sign, and after a minus sign those
      from 1 to 2^63. */
  lemma SignedAccepts(s: cstring, base: nat, v: int)
    requires base == 0 || 2 <= base <= 16
    ensures Kstrtoll(s, base) == Ok(v) <==>
              || (v < 0x8000_0000_0000_0000 && (IsNumeral(s, base, v) || (s != "" && s[0] == '+' && IsNumeral(s[1..], base, v))))
              || (0 < -v <= 0x8000_0000_0000_0000 && s != "" && s[0] == '-' && IsNumeral(s[1..], base, -v))
  {
    hide Unsigned, IsNumeral, Kstrtoull;
    SignedReads(s, base, v);
    UnsignedAccepts(s, base, v);
    if IsNumeral(s, base, v) { NoSignInNumeral(s, base, v); }
    if s != "" {
      AcceptsExactlyNumerals(s[1..], base, -v);
      if IsNumeral(s[1..], base, v) { NoSignInNumeral(s[1..], base, v); }
    }
  }

  lemma SignedReads(s: cstring, base: nat, v: int)
    requires base == 0 || 2 <= base <= 16
    ensures CharAt(s, 0) == '-' ==>
              (Kstrtoll(s, base) == Ok(v) <==> Unsigned(s[1..], base) == Ok(-v) && 0 < -v <= 0x8000_0000_0000_0000)
    ensures CharAt(s, 0) != '-' ==>
              (Kstrtoll(s, base) == Ok(v) <==> Kstrtoull(s, base) == Ok(v) && v < 0x8000_0000_0000_0000)
  {
    hide Value, FixupRadix, RunEnd;
    if CharAt(s, 0) == '-' && Unsigned(s[1..], base).Ok? {
      SignedNegation(Unsigned(s[1..], base).value);
    }
  }

  lemma SignedNegation(m: int)
    requires 0 <= m < TWO64
    ensures ToInt64(-m) < 0 <==> 0 < m <= 0x8000_0000_0000_0000
    ensures 0 < m <= 0x8000_0000_0000_0000 ==> ToInt64(-m) == -m
  {
  }

  lemma MinusZeroIsRejected()
    ensures Kstrtoll("-0", 10) == Err(ERANGE)
    ensures Unsigned("0", 10) == Ok(0)
  {
    hide Unsigned, FixupRadix, RunEnd;
    var d: cstring := "0";
    assert d[..0] == "" && Value("", 10) == 0;
    assert Numeral("0", 10, "", "0", "", 10);
    NumeralIsRead("0", 10, "", "0", "", 10);
    assert "-0"[1..] == "0";
  }

  // ----- The narrow variants -----

  /** kstrtouint, kstrtou16, kstrtou8: `tmp != (unsigned long long)(type)tmp` for a type of
      `limit` values is an overflow. */
  function NarrowUnsigned(s: cstring, base: nat, limit: nat): Result
    requires (base == 0 || 2 <= base <= 16) && limit > 0
  {
    match Kstrtoull(s, base)
    case Err(e) => Err(e)
    case Ok(tmp) => if tmp != tmp % limit then Err(ERANGE) else Ok(tmp)
  }

  /** kstrtoint, kstrtos16, kstrtos8, for a signed type of 2 * half values. */
  function NarrowSigned(s: cstring, base: nat, half: nat): Result
    requires (base == 0 || 2 <= base <= 16) && half > 0
  {
    match Kstrtoll(s, base)
    case Err(e) => Err(e)
    case Ok(tmp) => if tmp != (tmp + half) % (2 * half) - half then Err(ERANGE) else Ok(tmp)
  }

  /** The narrow readers accept the numerals in the range of their type. */
  lemma NarrowAccepts(s: cstring, base: nat, limit: nat, v: int)
    requires (base == 0 || 2 <= base <= 16) && limit > 0
    ensures NarrowUnsigned(s, base, limit) == Ok(v) <==>
              v < Min(limit, TWO64) && (IsNumeral(s, base, v) || (s != "" && s[0] == '+' && IsNumeral(s[1..], base, v)))
    ensures var half := Min(limit, 0x8000_0000_0000_0000);
            NarrowSigned(s, base, limit) == Ok(v) <==>
              || (v < half && (IsNumeral(s, base, v) || (s != "" && s[0] == '+' && IsNumeral(s[1..], base, v))))
              || (0 < -v <= half && s != "" && s[0] == '-' && IsNumeral(s[1..], base, -v))
  {
    hide Unsigned, Kstrtoull, Kstrtoll, IsNumeral;
    NarrowReads(s, base, limit, v);
    UnsignedAccepts(s, base, v);
    SignedAccepts(s, base, v);
    if IsNumeral(s, base, v) { NoSignInNumeral(s, base, v); }
    if s != "" && IsNumeral(s[1..], base, v) { NoSignInNumeral(s[1..], base, v); }
  }

  lemma NarrowReads(s: cstring, base: nat, limit: nat, v: int)
    requires (base == 0 || 2 <= base <= 16) && limit > 0
    ensures NarrowUnsigned(s, base, limit) == Ok(v) <==> Kstrtoull(s, base) == Ok(v) && 0 <= v < limit
    ensures NarrowSigned(s, base, limit) == Ok(v) <==> Kstrtoll(s, base) == Ok(v) && 0 <= v + limit < 2 * limit
  {
    hide Unsigned, Kstrtoull, Kstrtoll;
    if Kstrtoull(s, base).Ok? { ModRange(Kstrtoull(s, base).value, limit); }
    if Kstrtoll(s, base).Ok? { ModRange(Kstrtoll(s, base).value + limit, 2 * limit); }
  }

  lemma ModRange(x: int, m: nat)
    requires m > 0
    ensures x == x % m <==> 0 <= x < m
  {
  }
}
