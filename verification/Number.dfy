/** `number()` and `num_to_str()` of stack_and_service/lib/vsprintf.c.

    `NumberText` is the text `number` produces, whatever the room left in the buffer;
    `Layout` says what that text should be: sign, prefix, zeros and digits, padded to the
    field width on one side. */
module Number {
  import opened CTypes
  import opened Output
  import opened Decimal

  datatype Flags = Flags(zeropad: bool, sign: bool, plus: bool, space: bool, left: bool, small: bool, special: bool)

  /** The part of `struct printf_spec` that `number` and `string` look at. */
  datatype Field = Field(flags: Flags, base: uint8, width: int16, precision: int16) {
    /** "we are called with base 8, 10 or 16, only" */
    predicate Valid() { base == 8 || base == 10 || base == 16 }
  }

  // ----- Digits in any base -----

  /** digits[d] | locase */
  function DigitChar(d: nat, small: bool): (c: char)
    requires d < 16
    ensures '0' <= c <= 'f'
  {
    if d < 10 then '0' + d as char else if small then 'a' + (d - 10) as char else 'A' + (d - 10) as char
  }

  function Quotient(n: nat, base: nat): (q: nat)
    requires 2 <= base <= 16
    ensures n >= base ==> 0 < q < n
    ensures n < base ==> q == 0
  {
    QuotientBounds(n, base);
    n / base
  }

  lemma QuotientBounds(n: nat, base: nat)
    requires 2 <= base <= 16
    ensures n >= base ==> 0 < n / base < n
    ensures n < base ==> n / base == 0
  {
    var q := n / base;
    assert n == base * q + n % base;
    MulMono(2, base, q);
  }

  function Remainder(n: nat, base: nat): (r: nat)
    requires 2 <= base <= 16
    ensures r < base && n == Quotient(n, base) * base + r
  {
    n % base
  }

  /** Positional notation of n, most significant digit first. */
  function Digits(n: nat, base: nat, small: bool): (s: cstring)
    requires 2 <= base <= 16
    ensures |s| > 0
  {
    if n < base then [DigitChar(n, small)]
    else Digits(Quotient(n, base), base, small) + [DigitChar(Remainder(n, base), small)]
  }

  /** The same digits in the order the conversion loops produce them. */
  function Backwards(n: nat, base: nat, small: bool): (s: string)
    requires 2 <= base <= 16
    ensures |s| > 0
  {
    if n < base then [DigitChar(n, small)]
    else [DigitChar(Remainder(n, base), small)] + Backwards(Quotient(n, base), base, small)
  }

  function Reverse(s: string): (r: string)
    ensures |r| == |s| && forall i :: 0 <= i < |s| ==> r[i] == s[|s| - 1 - i]
  {
    if s == "" then "" else Reverse(s[1..]) + [s[0]]
  }

  lemma {:induction false} ReverseBackwards(n: nat, base: nat, small: bool)
    requires 2 <= base <= 16
    ensures Reverse(Backwards(n, base, small)) == Digits(n, base, small)
  {
    hide Quotient, Remainder;
    if n >= base {
      ReverseBackwards(Quotient(n, base), base, small);
      assert Backwards(n, base, small)[1..] == Backwards(Quotient(n, base), base, small);
    }
  }

  lemma {:induction false} DecIsBackwards(n: nat, small: bool)
    ensures Dec(n) == Backwards(n, 10, small)
  {
    if n >= 10 { DecIsBackwards(n / 10, small); }
  }

  function Power8(k: nat): nat {
    if k == 0 then 1 else 8 * Power8(k - 1)
  }

  lemma {:induction false} DigitCount(n: nat, base: nat, small: bool, k: nat)
    requires 8 <= base <= 16 && n < Power8(k)
    ensures |Backwards(n, base, small)| <= Max(k, 1)
  {
    hide Quotient, Remainder, DigitChar;
    if n >= base {
      var q := Quotient(n, base);
      assert n == q * base + Remainder(n, base);
      MulMono(8, base, q);
      DigitCount(q, base, small, k - 1);
    }
  }

  lemma AtMost22(n: uint64, base: nat, small: bool)
    requires 8 <= base <= 16
    ensures |Backwards(n, base, small)| <= 22 && |Digits(n, base, small)| <= 22
  {
    assert Power8(8) == 0x100_0000;
    assert Power8(16) == 0x1_0000_0000_0000;
    assert Power8(22) == 0x4_0000_0000_0000_0000;
    DigitCount(n, base, small, 22);
    ReverseBackwards(n, base, small);
  }

  /** Fills tmp[] with the digits of num in reverse order. */
  method GenerateDigits(tmp: array<char>, num0: uint64, base: uint8, small: bool) returns (i: nat)
    requires tmp.Length >= 66 && (base == 8 || base == 10 || base == 16)
    modifies tmp
    ensures 0 < i <= 22 && tmp[..i] == Backwards(num0, base, small)
  {
    hide *;
    AtMost22(num0, base, small);
    if num0 < base {
      tmp[0] := DigitChar(num0, small);
      OneDigit(num0, base, small);
      assert tmp[..1] == [tmp[0]];
      return 1;
    } else if base != 10 {
      var num: uint64 := num0;
      i := 0;
      assert tmp[..0] + Backwards(num0, base, small) == Backwards(num0, base, small);
      while i == 0 || num != 0
        invariant i <= tmp.Length && (i == 0 ==> num == num0)
        invariant tmp[..i] + (if i > 0 && num == 0 then "" else Backwards(num, base, small)) == Backwards(num0, base, small)
        decreases num
      {
        OneDigit(num, base, small);
        i := StoreDigit(tmp, i, num, base, small);
        num := Quotient(num, base);
      }
      assert tmp[..i] + "" == tmp[..i];
    } else {
      DecIsBackwards(num0, small);
      ghost var b := tmp[..];
      i := PutDecGeneric(tmp, 0, num0);
      SplicedFront(b, Dec(num0), tmp[..]);
    }
  }

  lemma OneDigit(n: nat, base: nat, small: bool)
    requires 2 <= base <= 16
    ensures var rest := if n < base then "" else Backwards(Quotient(n, base), base, small);
            forall s: string :: s + [DigitChar(Remainder(n, base), small)] + rest == s + Backwards(n, base, small)
    ensures n < base ==> Backwards(n, base, small) == [DigitChar(n, small)]
  {
    var rest := if n < base then "" else Backwards(Quotient(n, base), base, small);
    forall s: string ensures s + [DigitChar(Remainder(n, base), small)] + rest == s + Backwards(n, base, small) {
      assert s + [DigitChar(Remainder(n, base), small)] + rest == s + ([DigitChar(Remainder(n, base), small)] + rest);
    }
  }

  /** tmp[i++] = digits[((unsigned char)num) & mask] | locase */
  method StoreDigit(tmp: array<char>, i: nat, num: uint64, base: uint8, small: bool) returns (i': nat)
    requires i < tmp.Length && (base == 8 || base == 16)
    modifies tmp
    ensures i' == i + 1 && tmp[..i'] == old(tmp[..i]) + [DigitChar(Remainder(num, base), small)]
  {
    assert num % 0x100 % base == Remainder(num, base) by { LowByte(num); }
    tmp[i] := DigitChar(num % 0x100 % base, small);
    i' := i + 1;
  }

  lemma LowByte(n: nat)
    ensures n % 0x100 % 8 == n % 8 && n % 0x100 % 16 == n % 16
  {
    var high, low := n / 0x100, n % 0x100;
    assert n == 8 * (32 * high + low / 8) + low % 8;
    assert n == 16 * (16 * high + low / 16) + low % 16;
  }

  // ----- The text of a number -----

  function SignText(num: uint64, f: Flags): (s: cstring)
    ensures |s| <= 1
  {
    if !f.sign then "" else if num >= 0x8000_0000_0000_0000 then "-" else if f.plus then "+" else if f.space then " " else ""
  }

  /** num = -(signed long long)num for negative numbers. */
  function Magnitude(num: uint64, f: Flags): uint64 {
    if f.sign && num >= 0x8000_0000_0000_0000 then TWO64 - num else num
  }

  function Prefix(num: uint64, spec: Field): cstring {
    if spec.flags.special && spec.base == 16 then (if spec.flags.small then "0x" else "0X")
    else if spec.flags.special && spec.base == 8 && num != 0 then "0"
    else ""
  }

  function Body(num: uint64, spec: Field): cstring
    requires spec.Valid()
  {
    Digits(Magnitude(num, spec.flags), spec.base, spec.flags.small)
  }

  function Zeros(num: uint64, spec: Field): nat
    requires spec.Valid()
  {
    Max(spec.precision - |Body(num, spec)|, 0)
  }

  /** What is left of the field width for padding, as an unbounded number. */
  function Room(num: uint64, spec: Field): int
    requires spec.Valid()
  {
    spec.width - |SignText(num, spec.flags)| - |Prefix(num, spec)| - Zeros(num, spec) - |Body(num, spec)|
  }

  /** The text `number` sends, with the 16-bit arithmetic it does on the field width. */
  function NumberText(num: uint64, spec: Field): string
    requires spec.Valid()
  {
    var f := spec.flags;
    var w0 := ToInt16(Room(num, spec));
    var w1 := if f.left || f.zeropad then w0 else PadAfter(w0);
    var w2 := if f.left then w1 else PadAfter(w1);
    (if f.left || f.zeropad then "" else Repeat(' ', PadCount(w0)))
    + SignText(num, f) + Prefix(num, spec)
    + (if f.left then "" else Repeat(if f.zeropad then '0' else ' ', PadCount(w1)))
    + Repeat('0', Zeros(num, spec)) + Body(num, spec)
    + Repeat(' ', PadCount(w2))
  }

  /** What the flags ask for: sign, prefix, zeros up to the precision and digits, filled up to
      the field width by spaces on the left or right or by zeros after the prefix. */
  function Layout(num: uint64, spec: Field): string
    requires spec.Valid()
  {
    var f := spec.flags;
    var fill := Max(Room(num, spec), 0);
    var head := SignText(num, f) + Prefix(num, spec);
    var tail := Repeat('0', Zeros(num, spec)) + Body(num, spec);
    if f.left then head + tail + Repeat(' ', fill)
    else if f.zeropad then head + Repeat('0', fill) + tail
    else Repeat(' ', fill) + head + tail
  }

  /** How many of the three padding loops run. */
  function PadLoops(f: Flags): nat {
    if f.left then 1 else if f.zeropad then 2 else 3
  }

  lemma LayoutLength(num: uint64, spec: Field)
    requires spec.Valid()
    ensures var content := |SignText(num, spec.flags)| + |Prefix(num, spec)| + Max(spec.precision, |Body(num, spec)|);
            |Layout(num, spec)| == Max(spec.width, content)
  {
  }

  /** The room left is so far below the range of `s16` that the counter wraps to a positive value;
      one full turn of it later, it is harmless again. */
  predicate CounterWraps(room: int, f: Flags) {
    -0x1_0000 < room < -0x8000 + PadLoops(f)
  }

  /** The text is the requested layout exactly when the 16-bit counter of the width does not wrap:
      when it does, the field is padded although it is full. */
  lemma NumberTextIsLayout(num: uint64, spec: Field)
    requires spec.Valid()
    ensures NumberText(num, spec) == Layout(num, spec) <==> !CounterWraps(Room(num, spec), spec.flags)
  {
    RoomAtLeast(num, spec);
    var f := spec.flags;
    var room := Room(num, spec);
    hide Body, Digits, SignText, Prefix, Zeros, Room, ToInt16, PadCount, PadAfter, Repeat;
    if CounterWraps(room, f) {
      hide NumberText, Layout;
      NumberTextTooLong(num, spec);
    } else {
      NoPadding(room, f);
      assert Repeat(' ', 0) == "" && Repeat('0', 0) == "";
      var fill := Repeat(if f.zeropad && !f.left then '0' else ' ', Max(room, 0));
      Assembled(fill, SignText(num, f), Prefix(num, spec), Repeat('0', Zeros(num, spec)), Body(num, spec));
    }
  }

  /** The parts of a number with the filling in one of its three places. */
  lemma Assembled(fill: string, sign: string, prefix: string, zeros: string, body: string)
    ensures fill + sign + prefix + "" + zeros + body + "" == fill + (sign + prefix) + (zeros + body)
    ensures "" + sign + prefix + fill + zeros + body + "" == sign + prefix + fill + (zeros + body)
    ensures "" + sign + prefix + "" + zeros + body + fill == sign + prefix + (zeros + body) + fill
  {
    assert fill + sign + prefix + "" + zeros + body + "" == fill + (sign + prefix) + (zeros + body);
    assert "" + sign + prefix + fill + zeros + body + "" == sign + prefix + fill + (zeros + body);
  }

  lemma NoPadding(room: int, f: Flags)
    requires -0x1_0002 <= room <= 0x7fff && !CounterWraps(room, f)
    ensures var w0 := ToInt16(room);
            var w1 := if f.left || f.zeropad then w0 else PadAfter(w0);
            var w2 := if f.left then w1 else PadAfter(w1);
            var fill := Max(room, 0);
            && (!f.left && !f.zeropad ==> PadCount(w0) == fill)
            && (!f.left ==> PadCount(w1) == if f.zeropad then fill else 0)
            && PadCount(w2) == if f.left then fill else 0
  {
    if room < -0x8000 {
      assert ToInt16(room) == room + 0x1_0000;
    } else if room <= 0x7fff {
      assert ToInt16(room) == room;
    }
  }

  /** How many padding characters the loops send in all. */
  function Padding(room: int, f: Flags): nat {
    var w0 := ToInt16(room);
    var w1 := if f.left || f.zeropad then w0 else PadAfter(w0);
    var w2 := if f.left then w1 else PadAfter(w1);
    (if f.left || f.zeropad then 0 else PadCount(w0)) + (if f.left then 0 else PadCount(w1)) + PadCount(w2)
  }

  lemma NumberTextLength(num: uint64, spec: Field)
    requires spec.Valid()
    ensures |NumberText(num, spec)| == Padding(Room(num, spec), spec.flags)
            + |SignText(num, spec.flags)| + |Prefix(num, spec)| + Zeros(num, spec) + |Body(num, spec)|
  {
    hide Body, SignText, Prefix, Zeros, Room, ToInt16, PadCount, PadAfter;
  }

  lemma PaddingWraps(room: int, f: Flags)
    requires CounterWraps(room, f)
    ensures Padding(room, f) > 0
  {
    assert ToInt16(room) == if room < -0x8000 then room + 0x1_0000 else room;
  }

  lemma NumberTextTooLong(num: uint64, spec: Field)
    requires spec.Valid() && CounterWraps(Room(num, spec), spec.flags)
    ensures |NumberText(num, spec)| > |Layout(num, spec)|
  {
    NumberTextLength(num, spec);
    LayoutLength(num, spec);
    PaddingWraps(Room(num, spec), spec.flags);
    hide NumberText, Layout, Padding, Body, SignText, Prefix;
  }

  lemma RoomAtLeast(num: uint64, spec: Field)
    requires spec.Valid()
    ensures -0x1_0002 <= Room(num, spec) <= spec.width <= 0x7fff
  {
    AtMost22(Magnitude(num, spec.flags), spec.base, spec.flags.small);
  }

  /** "%.32767d" of 0: the counter wraps at the longest precision there is. */
  lemma LongestPrecision()
    ensures var spec := Field(Flags(false, true, false, false, false, false, false), 10, -1, 0x7fff);
            NumberText(0, spec) != Layout(0, spec)
  {
    var spec := Field(Flags(false, true, false, false, false, false, false), 10, -1, 0x7fff);
    hide NumberText, Layout;
    assert Digits(0, 10, false) == "0";
    NumberTextIsLayout(0, spec);
  }

  /** The first part of `number()`: splits off the sign and takes sign and prefix off the width. */
  method SplitSign(num0: uint64, spec: Field) returns (num: uint64, sign: string, width: int16)
    requires spec.Valid()
    ensures num == Magnitude(num0, spec.flags) && sign == SignText(num0, spec.flags)
    ensures width == ToInt16(spec.width - |sign| - |Prefix(num0, spec)|)
  {
    hide ToInt16, ToInt64, ToUint64;
    SignedValue(num0);
    var f := spec.flags;
    sign, num, width := "", num0, spec.width;
    SmallWidths(width);
    if f.sign {
      var signed: int := ToInt64(num);
      if signed < 0 {
        sign, num, width := "-", ToUint64(-signed), ToInt16(width - 1);
      } else if f.plus {
        sign, width := "+", ToInt16(width - 1);
      } else if f.space {
        sign, width := " ", ToInt16(width - 1);
      }
    }
    ToInt16Again(spec.width - |sign|, 2); ToInt16Again(spec.width - |sign|, 1);
    if f.special && spec.base != 10 {
      if spec.base == 16 { width := ToInt16(width - 2); }
      else if num0 != 0 { width := ToInt16(width - 1); }
    }
  }

  lemma SignedValue(num: uint64)
    ensures ToInt64(num) < 0 <==> num >= 0x8000_0000_0000_0000
    ensures ToInt64(num) < 0 ==> ToUint64(-(ToInt64(num) as int)) == TWO64 - num
  {
  }

  lemma SmallWidths(w: int16)
    ensures ToInt16(w) == w
  {
  }

  /** Sends tmp[i - 1], ..., tmp[0]. */
  method PutReversed(buf: array<char>, end: nat, str: nat, tmp: array<char>, i0: nat,
                     ghost b: seq<char>, ghost at: nat, ghost done: string) returns (str': nat)
    requires Fits(buf.Length, end, str + i0) && str == at + |done| && Shown(b, end, at, done, buf[..])
    requires tmp != buf && i0 <= tmp.Length
    modifies buf
    ensures str' == str + i0 && Shown(b, end, at, done + Reverse(tmp[..i0]), buf[..])
  {
    hide Shown, Reverse;
    var i := i0 - 1;
    str' := str;
    ghost var t := Reverse(tmp[..i0]);
    assert done + t[..0] == done;
    while i >= 0
      invariant -1 <= i < i0 && str' == str + (i0 - 1 - i)
      invariant Shown(b, end, at, done + t[..i0 - 1 - i], buf[..])
    {
      ghost var k := i0 - 1 - i;
      assert done + t[..k] + [tmp[i]] == done + t[..k + 1];
      str' := Put(buf, end, str', tmp[i], b, at, done + t[..k]);
      i := i - 1;
    }
    assert t[..i0] == t;
  }

  /** Sends the zeros up to the precision: `while (i <= --precision) ...`. */
  method PutZeros(buf: array<char>, end: nat, str: nat, i: nat, precision0: int16,
                  ghost b: seq<char>, ghost at: nat, ghost done: string) returns (str': nat)
    requires 0 < i <= precision0
    requires Fits(buf.Length, end, str + (precision0 - i)) && str == at + |done| && Shown(b, end, at, done, buf[..])
    modifies buf
    ensures str' == str + (precision0 - i)
    ensures Shown(b, end, at, done + Repeat('0', precision0 - i), buf[..])
  {
    hide Shown, Repeat;
    var precision := precision0 - 1;
    ghost var n := 0;
    str' := str;
    assert done + Repeat('0', 0) == done;
    while i <= precision
      invariant i - 1 <= precision && n == precision0 - 1 - precision && str' == str + n
      invariant Shown(b, end, at, done + Repeat('0', n), buf[..])
    {
      str' := Put(buf, end, str', '0', b, at, done + Repeat('0', n));
      RepeatMore(done, '0', n);
      precision, n := precision - 1, n + 1;
    }
  }

  /** `number()`: sends `NumberText` whatever the room in the buffer is. */
  method PutNumber(buf: array<char>, end: nat, str: nat, num0: uint64, spec: Field,
                   ghost b: seq<char>, ghost at: nat, ghost done: string) returns (str': nat)
    requires spec.Valid()
    requires Fits(buf.Length, end, str + |NumberText(num0, spec)|) && str == at + |done| && Shown(b, end, at, done, buf[..])
    modifies buf
    ensures str' == str + |NumberText(num0, spec)|
    ensures Shown(b, end, at, done + NumberText(num0, spec), buf[..])
  {
    hide Digits, Backwards, Reverse, Shown, SignText, Prefix, Magnitude, Repeat, PadCount, PadAfter, ToInt16;
    var f := spec.flags;
    var num, sign, width := SplitSign(num0, spec);
    var tmp := new char[66];
    var i := GenerateDigits(tmp, num, spec.base, f.small);
    ghost var body := Body(num0, spec);
    assert Reverse(tmp[..i]) == body && |body| == i by { ReverseBackwards(num, spec.base, f.small); }
    var precision: int16 := Max(spec.precision, i);
    ToInt16Again(spec.width - |sign| - |Prefix(num0, spec)|, precision);
    width := ToInt16(width - precision);
    assert width == ToInt16(Room(num0, spec));
    NumberTextLength(num0, spec);

    str' := str;
    ghost var lead, mid, tail := "", "", "";
    assert done + lead == done;
    if !f.left && !f.zeropad {
      lead := Repeat(' ', PadCount(width));
      str', width := Pad(buf, end, str', ' ', width, b, at, done);
    }
    ghost var t := done + lead;
    str' := PutText(buf, end, str', sign, b, at, t);
    str' := PutPrefix(buf, end, str', num0, spec, b, at, t + sign);
    t := t + sign + Prefix(num0, spec);
    assert t + mid == t;
    if !f.left {
      var c := if f.zeropad then '0' else ' ';
      mid := Repeat(c, PadCount(width));
      str', width := Pad(buf, end, str', c, width, b, at, t);
    }
    t := t + mid;
    str' := PutZeros(buf, end, str', i, precision, b, at, t);
    t := t + Repeat('0', Zeros(num0, spec));
    str' := PutReversed(buf, end, str', tmp, i, b, at, t);
    tail := Repeat(' ', PadCount(width));
    str', width := Pad(buf, end, str', ' ', width, b, at, t + body);
    assert NumberText(num0, spec) == lead + sign + Prefix(num0, spec) + mid + Repeat('0', Zeros(num0, spec)) + body + tail;
    Regroup(done, lead, sign, Prefix(num0, spec), mid, Repeat('0', Zeros(num0, spec)), body, tail);
  }

  lemma Regroup(s: string, a: string, b: string, c: string, d: string, e: string, f: string, g: string)
    ensures s + (a + b + c + d + e + f + g) == s + a + b + c + d + e + f + g
  {
  }

  /** Sends the sign, if there is one. */
  method PutText(buf: array<char>, end: nat, str: nat, sign: string,
                 ghost b: seq<char>, ghost at: nat, ghost done: string) returns (str': nat)
    requires Fits(buf.Length, end, str + |sign|) && str == at + |done| && Shown(b, end, at, done, buf[..])
    requires |sign| <= 1
    modifies buf
    ensures str' == str + |sign| && Shown(b, end, at, done + sign, buf[..])
  {
    hide Shown;
    str' := str;
    if |sign| == 1 {
      assert sign == [sign[0]];
      str' := Put(buf, end, str', sign[0], b, at, done);
    } else {
      assert done + sign == done;
    }
  }

  /** Sends "0x", "0X" or "0". */
  method PutPrefix(buf: array<char>, end: nat, str: nat, num0: uint64, spec: Field,
                   ghost b: seq<char>, ghost at: nat, ghost done: string) returns (str': nat)
    requires Fits(buf.Length, end, str + |Prefix(num0, spec)|) && str == at + |done| && Shown(b, end, at, done, buf[..])
    requires spec.Valid()
    modifies buf
    ensures str' == str + |Prefix(num0, spec)| && Shown(b, end, at, done + Prefix(num0, spec), buf[..])
  {
    hide Shown;
    str' := str;
    ghost var t := done;
    if spec.flags.special && spec.base != 10 {
      if spec.base == 16 || num0 != 0 {
        str' := Put(buf, end, str', '0', b, at, t);
        t := t + "0";
      }
      if spec.base == 16 {
        var x := if spec.flags.small then 'x' else 'X';
        str' := Put(buf, end, str', x, b, at, t);
        t := t + [x];
      }
    }
    assert t == done + Prefix(num0, spec);
  }

  /** `num_to_str`: all the decimal digits, or nothing when they do not fit. */
  method NumToStr(buf: array<char>, size: int32, num: uint64) returns (len: nat)
    requires size <= buf.Length
    modifies buf
    ensures |Digits(num, 10, false)| > size ==> len == 0 && buf[..] == old(buf[..])
    ensures |Digits(num, 10, false)| <= size ==>
              len == |Digits(num, 10, false)| && buf[..] == Digits(num, 10, false) + old(buf[len..])
  {
    hide Digits, Backwards, Reverse;
    AtMost22(num, 10, false);
    ReverseBackwards(num, 10, false);
    var tmp := new char[24];
    ghost var t := Backwards(num, 10, false);
    if num <= 9 {
      tmp[0], len := '0' + num as char, 1;
      OneDigit(num, 10, false);
    } else {
      DecIsBackwards(num, false);
      len := PutDecGeneric(tmp, 0, num);
    }
    assert tmp[..len] == t;
    if len > size { return 0; }
    CopyReversed(buf, tmp, len);
  }

  /** for (idx = 0; idx < len; ++idx) buf[idx] = tmp[len - idx - 1]; */
  method CopyReversed(buf: array<char>, tmp: array<char>, len: nat)
    requires tmp != buf && len <= tmp.Length && len <= buf.Length
    modifies buf
    ensures buf[..] == Reverse(tmp[..len]) + old(buf[len..])
  {
    hide Reverse;
    for idx := 0 to len
      invariant forall k :: 0 <= k < idx ==> buf[k] == tmp[len - 1 - k]
      invariant buf[idx..] == old(buf[idx..])
    {
      buf[idx] := tmp[len - idx - 1];
    }
  }
}
