/** What each directive of a format prints, in terms of how the directive is written and which
    arguments it takes.  Nothing here uses the decoder's flags, kinds or tables. */
module Directives {
  import opened CTypes
  import opened Output
  import opened Number
  import opened Text
  import opened Format
  import opened Vsnprintf
  import opened Kstrtox
  import opened RoundTrip

  // ----- How a directive is written -----

  /** A width or a precision. */
  datatype Count = Absent | Given(digits: cstring) | Star

  /** A directive up to its conversion. */
  datatype Head = Head(flags: string, width: Count, point: bool, precision: Count, qualifier: string)

  function Spelled(c: Count): string {
    match c
    case Absent => ""
    case Given(digits) => digits
    case Star => "*"
  }

  function Point(h: Head): string {
    if h.point then "." else ""
  }

  function Spell(h: Head): string {
    "%" + h.flags + Spelled(h.width) + Point(h) + Spelled(h.precision) + h.qualifier
  }

  predicate Decimal(c: char) { '0' <= c <= '9' }

  predicate Flag(c: char) { c == '-' || c == '+' || c == ' ' || c == '#' || c == '0' }

  predicate Qualifies(c: char) { c == 'h' || c == 'l' || c == 'L' || c == 'z' || c == 'Z' || c == 't' }

  predicate Integral(c: char) { c == 'd' || c == 'i' || c == 'o' || c == 'u' || c == 'x' || c == 'X' }

  /** The conversions there are. */
  predicate Known(c: char) { Integral(c) || c == 'c' || c == 's' || c == 'p' || c == 'n' || c == '%' }

  predicate AllFlags(s: string) {
    forall k :: 0 <= k < |s| ==> Flag(s[k])
  }

  predicate AllDecimal(s: string) {
    forall k :: 0 <= k < |s| ==> Decimal(s[k])
  }

  predicate IsQualifierText(q: string) {
    q == "" || q == "hh" || q == "h" || q == "l" || q == "ll" || q == "L" || q == "z" || q == "Z" || q == "t"
  }

  predicate Proper(h: Head) {
    && AllFlags(h.flags)
    && (h.width.Given? ==> h.width.digits != "" && AllDecimal(h.width.digits) && h.width.digits[0] != '0')
    && (h.precision.Given? ==> h.precision.digits != "" && AllDecimal(h.precision.digits))
    && (!h.point ==> h.precision.Absent?)
    && IsQualifierText(h.qualifier)
  }

  /** The character after the head, NUL at the end of the format, is not a part of it. */
  predicate Ends(h: Head, next: char) {
    if h.qualifier == "" then
      && !Qualifies(next)
      && (if h.point then
            && (!h.precision.Star? ==> !Decimal(next))
            && (h.precision.Absent? ==> next != '*')
          else
            && next != '.'
            && (h.width.Given? ==> !Decimal(next))
            && (h.width.Absent? ==> !Decimal(next) && !Flag(next) && next != '*'))
    else
      h.qualifier == "h" || h.qualifier == "l" ==> next != h.qualifier[0]
  }

  lemma ConversionsEnd(h: Head, c: char)
    requires Proper(h) && Known(c)
    ensures Ends(h, c)
  {
  }

  // ----- What it takes from the arguments -----

  /** Reading past the arguments yields zeros. */
  function Bits(args: seq<Arg>, k: nat): uint64 {
    if k < |args| then args[k].bits else 0
  }

  function Skip(args: seq<Arg>, k: nat): seq<Arg> {
    if k <= |args| then args[k..] else []
  }

  lemma SkipOne(args: seq<Arg>, k: nat)
    ensures First(Skip(args, k)).bits == Bits(args, k) && Rest(Skip(args, k)) == Skip(args, k + 1) && Skip(args, 0) == args
    ensures First(Skip(args, k)) == if k < |args| then args[k] else Arg(0, "")
  {
  }

  /** v is x cut to 16 bits. */
  predicate Low16(x: int, v: int) {
    -0x8000 <= v < 0x8000 && (x - v) % 0x1_0000 == 0
  }

  lemma Low16Is(x: int, v: int)
    requires Low16(x, v)
    ensures v == ToInt16(x) && v == ToInt16(ToInt32(x))
  {
    TruncatedTwice(x);
    assert (v + 0x8000) % 0x1_0000 == v + 0x8000;
    assert x + 0x8000 == v + 0x8000 + 0x1_0000 * ((x - v) / 0x1_0000);
    SameLow(v + 0x8000, (x - v) / 0x1_0000);
  }

  lemma SameLow(y: int, k: int)
    ensures (y + 0x1_0000 * k) % 0x1_0000 == y % 0x1_0000
  {
  }

  lemma TruncatedTwice(x: int)
    ensures ToInt16(ToInt32(x)) == ToInt16(x)
  {
    var k := (x + 0x8000_0000) / 0x1_0000_0000;
    assert ToInt32(x) == x - 0x1_0000_0000 * k;
    SameLow(x + 0x8000, -0x1_0000 * k);
  }

  /** v is what the width or precision stands for; `bits` is its argument if it is a star. */
  ghost predicate Stands(c: Count, bits: uint64, v: int) {
    match c
    case Absent => v == -1
    case Given(digits) => Low16(Value(digits, 10), v)
    case Star => Low16(bits, v)
  }

  function Used(h: Head): nat {
    (if h.width.Star? then 1 else 0) + (if h.precision.Star? then 1 else 0)
  }

  /** The width and the precision of a head whose arguments are the first of `args`. */
  ghost predicate Measures(h: Head, args: seq<Arg>, w: int, p: int) {
    Stands(h.width, Bits(args, 0), w) && Stands(h.precision, Bits(args, if h.width.Star? then 1 else 0), p)
  }

  predicate Left(h: Head, w: int) {
    '-' in h.flags || (h.width.Star? && w < 0)
  }

  /** A negative width argument counts without its sign, but for the lowest 16-bit one, which has none. */
  function Width(h: Head, w: int): int {
    if h.width.Star? && -0x8000 < w < 0 then -w else w
  }

  /** A negative precision counts as zero. */
  function Precision(h: Head, p: int): int {
    if h.precision.Absent? then -1 else Max(p, 0)
  }

  // ----- Reading the head -----

  /** s stands at position i. */
  ghost predicate At(fmt: cstring, i: nat, s: string) {
    i + |s| <= |fmt| && fmt[i..i + |s|] == s
  }

  lemma AtSplit(fmt: cstring, i: nat, s: string, t: string)
    requires At(fmt, i, s + t)
    ensures At(fmt, i, s) && At(fmt, i + |s|, t)
  {
    assert (s + t)[..|s|] == s && (s + t)[|s|..] == t;
    assert fmt[i..i + |s + t|][..|s|] == fmt[i..i + |s|];
    assert fmt[i..i + |s + t|][|s|..] == fmt[i + |s|..i + |s| + |t|];
  }

  lemma AtParts(fmt: cstring, i: nat, h: Head)
    requires At(fmt, i, Spell(h))
    ensures var f := i + 1;
            var w := f + |h.flags|;
            var q := w + |Spelled(h.width)|;
            var p := q + |Point(h)|;
            var k := p + |Spelled(h.precision)|;
            && i < |fmt| && fmt[i] == '%' && At(fmt, f, h.flags) && At(fmt, w, Spelled(h.width)) && At(fmt, q, Point(h))
            && At(fmt, p, Spelled(h.precision)) && At(fmt, k, h.qualifier) && k + |h.qualifier| == i + |Spell(h)|
  {
    hide At, Spelled, Point;
    var a := "%" + h.flags;
    var b := a + Spelled(h.width);
    var c := b + Point(h);
    var d := c + Spelled(h.precision);
    AtSplit(fmt, i, d, h.qualifier);
    AtSplit(fmt, i, c, Spelled(h.precision));
    AtSplit(fmt, i, b, Point(h));
    AtSplit(fmt, i, a, Spelled(h.width));
    AtSplit(fmt, i, "%", h.flags);
    AtChar(fmt, i, '%');
  }

  lemma AtChar(fmt: cstring, i: nat, c: char)
    requires At(fmt, i, [c])
    ensures i < |fmt| && fmt[i] == c && CharAt(fmt, i) == c
  {
    assert fmt[i..i + 1][0] == fmt[i];
  }

  lemma AtFirst(fmt: cstring, i: nat, s: string)
    requires At(fmt, i, s) && s != ""
    ensures i < |fmt| && CharAt(fmt, i) == s[0] && At(fmt, i + 1, s[1..])
  {
    assert s == [s[0]] + s[1..];
    AtSplit(fmt, i, [s[0]], s[1..]);
    AtChar(fmt, i, s[0]);
  }

  lemma {:induction false} FlagsRead(fmt: cstring, i: nat, s: string, f: Flags)
    requires At(fmt, i, s) && AllFlags(s) && !Flag(CharAt(fmt, i + |s|))
    ensures FlagsEnd(fmt, i) == i + |s|
    ensures FlagsAt(fmt, i, f) == Flags(f.zeropad || '0' in s, f.sign, f.plus || '+' in s, f.space || ' ' in s,
                                        f.left || '-' in s, f.small, f.special || '#' in s)
    decreases |s|
  {
    hide At;
    if s != "" {
      AtFirst(fmt, i, s);
      FlagsRead(fmt, i + 1, s[1..], AddFlag(f, s[0]));
      FlagAdded(f, s);
    }
  }

  lemma FlagAdded(f: Flags, s: string)
    requires s != "" && Flag(s[0])
    ensures IsFlag(s[0]) && forall c :: c in s <==> c == s[0] || c in s[1..]
    ensures AddFlag(f, s[0]) == Flags(f.zeropad || '0' == s[0], f.sign, f.plus || '+' == s[0], f.space || ' ' == s[0],
                                      f.left || '-' == s[0], f.small, f.special || '#' == s[0])
  {
    assert s == [s[0]] + s[1..];
  }

  /** The digits from `at` up to `i` have been read; d is all of them. */
  lemma {:induction false} DigitsAreRead(fmt: cstring, at: nat, i: nat, d: cstring)
    requires at <= i <= at + |d| && At(fmt, at, d) && AllDecimal(d) && !Decimal(CharAt(fmt, at + |d|))
    ensures DigitsEnd(fmt, i) == at + |d|
    ensures ValueAt(fmt, i, Value(d[..i - at], 10)) == Value(d, 10)
    decreases at + |d| - i
  {
    hide At, Value;
    var k := i - at;
    DecimalDigit(CharAt(fmt, at + |d|));
    if k < |d| {
      AtIndex(fmt, at, d, k);
      DecimalDigit(d[k]);
      ValueMore(d, k);
      DigitsAreRead(fmt, at, i + 1, d);
    } else {
      assert d[..k] == d;
    }
  }

  lemma AtIndex(fmt: cstring, at: nat, d: string, k: nat)
    requires At(fmt, at, d) && k < |d|
    ensures at + k < |fmt| && fmt[at + k] == d[k] && CharAt(fmt, at + k) == d[k]
  {
    assert fmt[at..at + |d|][k] == fmt[at + k];
  }

  lemma DecimalDigit(c: char)
    requires c < 256 as char
    ensures IsDigit(c) <==> Decimal(c)
    ensures IsDigit(c) ==> DigitValue(c) == (c - '0') as int
  {
  }

  lemma ValueMore(d: cstring, k: nat)
    requires k < |d|
    ensures Value(d[..k + 1], 10) == Value(d[..k], 10) * 10 + DigitValue(d[k])
  {
    assert d[..k + 1][..k] == d[..k];
  }

  lemma DigitsValue(fmt: cstring, at: nat, d: cstring)
    requires At(fmt, at, d) && d != "" && AllDecimal(d) && !Decimal(CharAt(fmt, at + |d|))
    ensures IsDigit(CharAt(fmt, at)) && DigitsEnd(fmt, at) == at + |d| && ValueAt(fmt, at, 0) == Value(d, 10)
  {
    assert d[..0] == "" && Value("", 10) == 0;
    DigitsAreRead(fmt, at, at, d);
    AtIndex(fmt, at, d, 0);
    DecimalDigit(d[0]);
  }

  /** The letter the decoder keeps for a qualifier. */
  function Letter(q: string): char {
    if q == "" then 255 as char else if q == "hh" then 'H' else if q == "ll" then 'L' else q[0]
  }

  lemma QualifierRead(fmt: cstring, k: nat, q: string)
    requires At(fmt, k, q) && IsQualifierText(q)
    requires q == "" ==> !Qualifies(CharAt(fmt, k))
    requires q == "h" || q == "l" ==> CharAt(fmt, k + |q|) != q[0]
    ensures QualifierAt(fmt, k) == (Letter(q), k + |q|)
  {
    QualifierChars(CharAt(fmt, k));
    if |q| >= 1 { AtIndex(fmt, k, q, 0); }
    if |q| >= 2 { AtIndex(fmt, k, q, 1); }
  }

  lemma QualifierChars(c: char)
    requires c < 256 as char
    ensures IsQualifier(c) <==> Qualifies(c)
  {
  }

  /** Where the qualifier begins, if the width ends at q. */
  function QualifierStart(q: nat, h: Head): nat {
    q + |Point(h)| + |Spelled(h.precision)|
  }

  /** Precision and qualifier stand at q. */
  ghost predicate TailAt(fmt: cstring, q: nat, h: Head) {
    var k := QualifierStart(q, h);
    && Proper(h) && At(fmt, q, Point(h)) && At(fmt, q + |Point(h)|, Spelled(h.precision))
    && At(fmt, k, h.qualifier) && Ends(h, CharAt(fmt, k + |h.qualifier|))
  }

  lemma TailFits(fmt: cstring, q: nat, h: Head)
    requires TailAt(fmt, q, h)
    ensures q <= QualifierStart(q, h) <= |fmt|
  {
  }

  /** The precision, from its point on. */
  lemma PrecisionRead(fmt: cstring, q: nat, h: Head, f: Flags, w: int16, p: int, args: seq<Arg>, pointer: PointerText)
    requires 0 < q && TailAt(fmt, q, h) && Stands(h.precision, First(args).bits, p)
    ensures q <= QualifierStart(q, h) <= |fmt|
    ensures var k, rest := QualifierStart(q, h), if h.precision.Star? then Rest(args) else args;
            AfterWidth(fmt, q, f, w, args, pointer) ==
              if h.precision.Star? && k == |fmt| then Piece("", k, rest)
              else Conversion(fmt, k, f, w, Precision(h, p), rest, pointer)
  {
    hide Conversion, At, Ends, DigitsEnd, ValueAt, Value, First, Rest;
    var k := QualifierStart(q, h);
    AfterPrecision(fmt, k, h);
    if !h.point {
    } else {
      AtChar(fmt, q, '.');
      if h.precision.Given? {
        DigitsValue(fmt, q + 1, h.precision.digits);
        Low16Is(Value(h.precision.digits, 10), p);
      } else if h.precision.Star? {
        AtChar(fmt, q + 1, '*');
        Low16Is(First(args).bits, p);
      } else {
        DecimalDigit(CharAt(fmt, q + 1));
      }
    }
  }

  /** What follows the precision is not a part of it. */
  lemma AfterPrecision(fmt: cstring, k: nat, h: Head)
    requires Proper(h) && At(fmt, k, h.qualifier) && Ends(h, CharAt(fmt, k + |h.qualifier|))
    ensures k <= |fmt|
    ensures h.precision.Given? ==> !Decimal(CharAt(fmt, k))
    ensures h.point && h.precision.Absent? ==> !Decimal(CharAt(fmt, k)) && CharAt(fmt, k) != '*'
    ensures !h.point ==> CharAt(fmt, k) != '.'
    ensures !h.point && h.width.Given? ==> !Decimal(CharAt(fmt, k))
    ensures !h.point && h.width.Absent? ==> !Decimal(CharAt(fmt, k)) && !Flag(CharAt(fmt, k)) && CharAt(fmt, k) != '*'
  {
    if h.qualifier != "" { AtIndex(fmt, k, h.qualifier, 0); }
  }

  /** The flags a head asks for; the conversion adds its own. */
  function FlagsOf(h: Head, w: int): Flags {
    Flags('0' in h.flags, false, '+' in h.flags, ' ' in h.flags, Left(h, w), false, '#' in h.flags)
  }

  /** What is left of the format when a star has been read that ends it. */
  predicate EndsInStar(h: Head) {
    h.qualifier == "" && (h.precision.Star? || (h.width.Star? && !h.point))
  }

  /** Where its parts are, and what ends them. */
  lemma HeadParts(fmt: cstring, i: nat, h: Head)
    requires Proper(h) && At(fmt, i, Spell(h)) && Ends(h, CharAt(fmt, i + |Spell(h)|))
    ensures var at := i + 1 + |h.flags|;
            var q := at + |Spelled(h.width)|;
            && i < |fmt| && fmt[i] == '%' && WidthAt(fmt, i, at, h) && TailAt(fmt, q, h)
            && QualifierStart(q, h) == i + |Spell(h)| - |h.qualifier|
            && QualifierAt(fmt, QualifierStart(q, h)) == (Letter(h.qualifier), i + |Spell(h)|)
            && (h.width.Given? ==> !Decimal(CharAt(fmt, at + |h.width.digits|)))
            && (h.width.Absent? ==> !Decimal(CharAt(fmt, at)) && CharAt(fmt, at) != '*')
  {
    hide At, Spell, QualifierAt, Ends, Proper, FlagsEnd, FlagsAt, Decimal, Flag, Qualifies;
    ProperFlags(h);
    AtParts(fmt, i, h);
    var f := i + 1;
    var at := f + |h.flags|;
    var q := at + |Spelled(h.width)|;
    var k := QualifierStart(q, h);
    AfterPrecision(fmt, k, h);
    EndsQualifier(h, CharAt(fmt, k + |h.qualifier|));
    QualifierRead(fmt, k, h.qualifier);
    AfterFlags(fmt, at, h);
    FlagsRead(fmt, f, h.flags, NO_FLAGS);
    FlagsAre(h);
    if h.width.Given? { AfterGiven(fmt, q, h); }
  }

  lemma HeadRead(fmt: cstring, i: nat, h: Head, args: seq<Arg>, pointer: PointerText, w: int, p: int)
    requires Proper(h) && At(fmt, i, Spell(h)) && Ends(h, CharAt(fmt, i + |Spell(h)|)) && Measures(h, args, w, p)
    ensures i < |fmt| && fmt[i] == '%'
    ensures var j, rest := i + |Spell(h)|, Skip(args, Used(h));
            var k := j - |h.qualifier|;
            && 0 < k && QualifierAt(fmt, k) == (Letter(h.qualifier), j)
            && Directive(fmt, i, args, pointer) ==
                 if j == |fmt| && EndsInStar(h) then Piece("", j, rest)
                 else Conversion(fmt, k, FlagsOf(h, w), Width(h, w), Precision(h, p), rest, pointer)
  {
    hide At, Conversion, Spell, QualifierAt, Directive, Ends, Stands, AfterWidth, Rest, First, Skip, Bits, Width, Precision, FlagsOf, WidthAt, TailAt;
    HeadParts(fmt, i, h);
    var at := i + 1 + |h.flags|;
    var q := at + |Spelled(h.width)|;
    WidthRead(fmt, i, at, h, args, pointer, w);
    TailFits(fmt, q, h);
    SkipOne(args, 0); SkipOne(args, 1);
    PrecisionRead(fmt, q, h, FlagsOf(h, w), Width(h, w), p, Skip(args, if h.width.Star? then 1 else 0), pointer);
  }

  lemma FlagsAre(h: Head)
    ensures FlagsOf(h, 0) == Flags('0' in h.flags, false, '+' in h.flags, ' ' in h.flags, '-' in h.flags, false, '#' in h.flags)
  {
  }

  lemma ProperWidth(h: Head)
    requires Proper(h) && h.width.Given?
    ensures h.width.digits != "" && AllDecimal(h.width.digits)
  {
  }

  lemma ProperFlags(h: Head)
    requires Proper(h)
    ensures AllFlags(h.flags) && IsQualifierText(h.qualifier) && (!h.point ==> h.precision.Absent?)
  {
  }

  lemma EndsQualifier(h: Head, next: char)
    requires Ends(h, next)
    ensures h.qualifier == "" ==> !Qualifies(next)
    ensures h.qualifier == "h" || h.qualifier == "l" ==> next != h.qualifier[0]
  {
  }

  /** The flags end at `at`, where the width is. */
  ghost predicate WidthAt(fmt: cstring, i: nat, at: nat, h: Head) {
    && i < at <= |fmt| && FlagsEnd(fmt, i + 1) == at && At(fmt, at, Spelled(h.width))
    && FlagsAt(fmt, i + 1, NO_FLAGS) == FlagsOf(h, 0)
  }

  /** The width, of which nothing but a star at the end of the format ends the directive. */
  lemma WidthRead(fmt: cstring, i: nat, at: nat, h: Head, args: seq<Arg>, pointer: PointerText, w: int)
    requires WidthAt(fmt, i, at, h) && Proper(h) && Stands(h.width, Bits(args, 0), w)
    requires h.width.Given? ==> !Decimal(CharAt(fmt, at + |h.width.digits|))
    requires h.width.Absent? ==> !Decimal(CharAt(fmt, at)) && CharAt(fmt, at) != '*'
    ensures -0x8000 <= Width(h, w) < 0x8000
    ensures var q, rest := at + |Spelled(h.width)|, if h.width.Star? then Rest(args) else args;
            && q <= |fmt|
            && Directive(fmt, i, args, pointer) ==
                 if h.width.Star? && q == |fmt| then Piece("", q, rest)
                 else AfterWidth(fmt, q, FlagsOf(h, w), Width(h, w), rest, pointer)
  {
    hide At, Value, First, Rest, Bits, FlagsEnd, FlagsAt, DigitsEnd, ValueAt, AfterWidth, Proper;
    SkipOne(args, 0);
    if h.width.Given? {
      ProperWidth(h);
      DigitsValue(fmt, at, h.width.digits);
      Low16Is(Value(h.width.digits, 10), w);
    } else if h.width.Star? {
      AtChar(fmt, at, '*');
      Low16Is(Bits(args, 0), w);
      Negated(w);
    } else {
      DecimalDigit(CharAt(fmt, at));
    }
  }

  lemma Negated(w: int16)
    ensures w < 0 ==> ToInt16(-(w as int)) == if w == -0x8000 then -0x8000 else -(w as int)
  {
  }

  lemma AfterGiven(fmt: cstring, q: nat, h: Head)
    requires Proper(h) && At(fmt, q, Point(h)) && h.width.Given?
    requires !h.point ==> !Decimal(CharAt(fmt, q))
    ensures !Decimal(CharAt(fmt, q))
  {
    if h.point { AtChar(fmt, q, '.'); }
  }

  lemma AfterFlags(fmt: cstring, at: nat, h: Head)
    requires Proper(h) && At(fmt, at, Spelled(h.width)) && At(fmt, at + |Spelled(h.width)|, Point(h))
    requires !h.point && h.width.Absent? ==> !Decimal(CharAt(fmt, at)) && !Flag(CharAt(fmt, at)) && CharAt(fmt, at) != '*'
    ensures !Flag(CharAt(fmt, at))
    ensures h.width.Absent? ==> !Decimal(CharAt(fmt, at)) && CharAt(fmt, at) != '*'
  {
    if h.width != Absent { AtIndex(fmt, at, Spelled(h.width), 0); }
    else if h.point { AtChar(fmt, at, '.'); }
  }
}
