/** What a format prints: one theorem for each kind of directive, for every way of writing its flags,
    width, precision and qualifier.  Together they determine the text of every format. */
module Printed {
  import opened CTypes
  import opened Output
  import opened Number
  import opened Text
  import opened Format
  import opened Vsnprintf
  import opened Kstrtox
  import opened RoundTrip
  import opened Directives

  /** A directive whose conversion is at position `conv`. */
  ghost predicate Written(fmt: cstring, i: nat, h: Head, conv: nat) {
    Proper(h) && At(fmt, i, Spell(h)) && conv == i + |Spell(h)| && Ends(h, CharAt(fmt, conv))
  }

  /** The same with one of the conversions there are. */
  ghost predicate Converts(fmt: cstring, i: nat, h: Head, conv: nat) {
    Proper(h) && At(fmt, i, Spell(h)) && conv == i + |Spell(h)| < |fmt| && Known(fmt[conv])
  }

  lemma DirectivePrints(fmt: cstring, i: nat, h: Head, conv: nat, args: seq<Arg>, pointer: PointerText, w: int, p: int)
    requires Written(fmt, i, h, conv) && Measures(h, args, w, p)
    ensures i < conv <= |fmt| && 0 < conv - |h.qualifier| && QualifierAt(fmt, conv - |h.qualifier|) == (Letter(h.qualifier), conv)
    ensures var rest := Skip(args, Used(h));
            var d := if conv == |fmt| && EndsInStar(h) then Piece("", conv, rest)
                     else Conversion(fmt, conv - |h.qualifier|, FlagsOf(h, w), Width(h, w), Precision(h, p), rest, pointer);
            conv - |h.qualifier| <= d.next <= |fmt| && Render(fmt, i, args, pointer) == d.text + Render(fmt, d.next, d.args, pointer)
  {
    hide Conversion, Render, Directive, QualifierAt, Ends, Proper, Skip;
    HeadRead(fmt, i, h, args, pointer, w, p);
    RenderDirective(fmt, i, args, pointer);
  }

  // ----- Text between directives -----

  lemma PlainPrinted(fmt: cstring, i: nat, args: seq<Arg>, pointer: PointerText)
    requires i <= |fmt|
    ensures i == |fmt| ==> Render(fmt, i, args, pointer) == ""
    ensures i < |fmt| && fmt[i] != '%' ==> Render(fmt, i, args, pointer) == [fmt[i]] + Render(fmt, i + 1, args, pointer)
  {
  }

  // ----- Fields -----

  /** Two parts of a field filled up to its width: with spaces on one side, or with zeros between. */
  function FieldText(head: string, tail: string, width: int, left: bool, zero: bool): string {
    var fill := Max(width - |head| - |tail|, 0);
    if left then head + tail + Repeat(' ', fill)
    else if zero then head + Repeat('0', fill) + tail
    else Repeat(' ', fill) + head + tail
  }

  // ----- Integers -----

  /** How many values the type of a qualifier has. */
  function Modulus(qualifier: string): nat {
    if qualifier == "hh" then 0x100 else if qualifier == "h" then 0x1_0000
    else if qualifier == "" then 0x1_0000_0000 else TWO64
  }

  /** v is the argument taken for a number of that type. */
  predicate IsValue(qualifier: string, signed: bool, bits: uint64, v: int) {
    && (bits - v) % Modulus(qualifier) == 0
    && if signed then -(Modulus(qualifier) as int) <= 2 * v < Modulus(qualifier) else 0 <= v < Modulus(qualifier)
  }

  function BaseOf(c: char): nat {
    if c == 'o' then 8 else if c == 'x' || c == 'X' then 16 else 10
  }

  function SignOf(h: Head, c: char, v: int): string {
    if c != 'd' && c != 'i' then "" else if v < 0 then "-" else if '+' in h.flags then "+" else if ' ' in h.flags then " " else ""
  }

  function PrefixOf(h: Head, c: char, v: int): string {
    if '#' !in h.flags then "" else if c == 'x' then "0x" else if c == 'X' then "0X" else if c == 'o' && v != 0 then "0" else ""
  }

  function Abs(v: int): nat {
    if v < 0 then -v else v
  }

  /** The zeros that the precision asks for and the digits. */
  function DigitsText(c: char, v: int, precision: int): string {
    var digits := Digits(Abs(v), BaseOf(c), c == 'x');
    Repeat('0', Max(precision - |digits|, 0)) + digits
  }

  /** The 16-bit counter of the width wraps although the field is full. */
  predicate Wraps(room: int, left: bool, zero: bool) {
    -0x1_0000 < room < -0x8000 + if left then 1 else if zero then 2 else 3
  }

  /** An integer conversion prints the value its qualifier makes of the argument: with sign, prefix,
      zeros up to the precision, and filled to the width, unless the counter wraps; then the text is
      longer than the field. */
  lemma IntegerPrinted(fmt: cstring, i: nat, h: Head, conv: nat, args: seq<Arg>, pointer: PointerText, w: int, p: int, v: int)
    returns (text: string)
    requires Converts(fmt, i, h, conv) && Integral(fmt[conv]) && Measures(h, args, w, p)
    requires IsValue(h.qualifier, fmt[conv] == 'd' || fmt[conv] == 'i', Bits(args, Used(h)), v)
    ensures Render(fmt, i, args, pointer) == text + Render(fmt, conv + 1, Skip(args, Used(h) + 1), pointer)
    ensures var c, zero := fmt[conv], '0' in h.flags;
            var head, tail := SignOf(h, c, v) + PrefixOf(h, c, v), DigitsText(c, v, Precision(h, p));
            var asked := FieldText(head, tail, Width(h, w), Left(h, w), zero);
            var wraps := Wraps(Width(h, w) - |head| - |tail|, Left(h, w), zero);
            && (text == asked <==> !wraps) && (wraps ==> |text| > |asked|)
  {
    hide Conversion, Render, QualifierAt, Ends, Proper, Skip, At, Spell, FieldText, DigitsText, SignOf, PrefixOf, IsValue, Bits,
      Width, Precision, FlagsOf, Left, NumberText, Layout, Room, Measures, CounterWraps, Wraps;
    var c, rest := fmt[conv], Skip(args, Used(h));
    ConversionsEnd(h, c); ProperFlags(h);
    DirectivePrints(fmt, i, h, conv, args, pointer, w, p);
    MeasuresFit(h, args, w, p);
    var f := FlagsOf(h, w);
    var spec := ConversionField(c, Field(f, 10, Width(h, w), Precision(h, p)));
    SkipOne(args, Used(h));
    IntegerConverts(fmt, conv - |h.qualifier|, conv, Letter(h.qualifier), f, Width(h, w), Precision(h, p), rest, pointer);
    ArgumentValue(h.qualifier, c == 'd' || c == 'i', Bits(args, Used(h)), v);
    SpecFlags(h, w, p, c);
    var num: uint64 := ToUint64(v);
    text := NumberText(num, spec);
    NumberTextIsLayout(num, spec);
    if CounterWraps(Room(num, spec), spec.flags) { NumberTextTooLong(num, spec); }
    LayoutIs(h, c, w, p, v, spec);
  }

  lemma MeasuresFit(h: Head, args: seq<Arg>, w: int, p: int)
    requires Measures(h, args, w, p)
    ensures -0x8000 <= Width(h, w) < 0x8000 && -1 <= Precision(h, p) < 0x8000
  {
  }

  lemma IntegerConverts(fmt: cstring, k: nat, conv: nat, q: char, f: Flags, w: int16, p: int16, args: seq<Arg>, pointer: PointerText)
    requires 0 < k <= |fmt| && conv < |fmt| && QualifierAt(fmt, k) == (q, conv) && Integral(fmt[conv])
    ensures IsIntegerConversion(fmt[conv]) && q < 256 as char
    ensures var spec := ConversionField(fmt[conv], Field(f, 10, w, p));
            Conversion(fmt, k, f, w, p, args, pointer)
              == Piece(NumberText(IntegerArg(IntegerKind(q, spec.flags.sign), First(args).bits), spec), conv + 1, Rest(args))
  {
    hide QualifierAt, NumberText, IntegerArg, IntegerKind, First, Rest;
  }

  lemma SpecFlags(h: Head, w: int, p: int, c: char)
    requires Integral(c) && -0x8000 <= Width(h, w) < 0x8000 && -1 <= Precision(h, p) < 0x8000
    ensures ConversionField(c, Field(FlagsOf(h, w), 10, Width(h, w), Precision(h, p)))
            == Field(Flags('0' in h.flags, c == 'd' || c == 'i', '+' in h.flags, ' ' in h.flags, Left(h, w), c == 'x', '#' in h.flags),
                     BaseOf(c), Width(h, w), Precision(h, p))
  {
  }

  lemma ArgumentValue(q: string, signed: bool, bits: uint64, v: int)
    requires IsQualifierText(q) && IsValue(q, signed, bits, v)
    ensures Letter(q) < 256 as char && IntegerArg(IntegerKind(Letter(q), signed), bits) == ToUint64(v)
    ensures if signed then -0x8000_0000_0000_0000 <= v < 0x8000_0000_0000_0000 else 0 <= v < TWO64
  {
    hide IntegerArg, Letter, IntegerKind, ToUint64, IsValue;
    ValueIs(q, signed, bits, v, Modulus(q));
    KindArgument(q, signed, bits, Modulus(q));
    Whole(bits, v);
  }

  lemma KindArgument(q: string, signed: bool, bits: uint64, m: nat)
    requires IsQualifierText(q)
    requires m == if q == "hh" then 0x100 else if q == "h" then 0x1_0000 else if q == "" then 0x1_0000_0000 else TWO64
    ensures Letter(q) < 256 as char
    ensures var x := IntegerArg(IntegerKind(Letter(q), signed), bits);
            if m == TWO64 then x == bits else x == if signed then ToUint64((bits + m / 2) % m - m / 2) else bits % m
  {
    hide IntegerArg, Letter, IntegerKind, ToUint64;
    KindOf(q, signed);
    hide IsQualifierText;
    ArgumentIs(bits);
  }

  lemma ValueIs(q: string, signed: bool, bits: uint64, v: int, m: nat)
    requires IsValue(q, signed, bits, v) && m % 2 == 0 && m > 0
    requires m == if q == "hh" then 0x100 else if q == "h" then 0x1_0000 else if q == "" then 0x1_0000_0000 else TWO64
    ensures v == (if signed then (bits + m / 2) % m - m / 2 else bits % m) && v % m == bits % m
    ensures if signed then -(m as int) <= 2 * v < m else 0 <= v < m
  {
    Cut(bits, v, m);
    if 0 <= v < m { Unique(v, 0, v, m); }
  }

  lemma Whole(bits: uint64, v: int)
    ensures v % TWO64 == bits % TWO64 ==> ToUint64(v) == bits
    ensures 0 <= v < TWO64 ==> ToUint64(v) == v
  {
  }

  lemma KindOf(q: string, signed: bool)
    requires IsQualifierText(q)
    ensures Letter(q) < 256 as char
    ensures var k := IntegerKind(Letter(q), signed);
            if q == "hh" then k == (if signed then Byte else UByte)
            else if q == "h" then k == (if signed then Short else UShort)
            else if q == "" then k == (if signed then Int else UInt)
            else k == LongLong || k == Long || k == ULong || k == SizeT || k == PtrDiff
  {
  }

  lemma ArgumentIs(bits: uint64)
    ensures IntegerArg(UByte, bits) == bits % 0x100 && IntegerArg(Byte, bits) == ToUint64((bits + 0x80) % 0x100 - 0x80)
    ensures IntegerArg(UShort, bits) == bits % 0x1_0000 && IntegerArg(Short, bits) == ToUint64((bits + 0x8000) % 0x1_0000 - 0x8000)
    ensures IntegerArg(UInt, bits) == bits % 0x1_0000_0000
    ensures IntegerArg(Int, bits) == ToUint64((bits + 0x8000_0000) % 0x1_0000_0000 - 0x8000_0000)
    ensures forall k :: k == LongLong || k == Long || k == ULong || k == SizeT || k == PtrDiff ==> IntegerArg(k, bits) == bits
  {
    hide ToUint64;
  }

  /** The number congruent to x in a range of m values. */
  lemma Cut(x: int, v: int, m: nat)
    requires m > 0 && m % 2 == 0
    ensures (x - v) % m == 0 && 0 <= v < m ==> v == x % m
    ensures (x - v) % m == 0 && -(m as int) <= 2 * v < m ==> v == (x + m / 2) % m - m / 2 && v % m == x % m
  {
    if (x - v) % m == 0 {
      var k := (x - v) / m;
      if 0 <= v < m { Unique(x, k, v, m); }
      if -(m as int) <= 2 * v < m {
        Unique(x + m / 2, k, v + m / 2, m);
        if v >= 0 { Unique(x, k, v, m); Unique(v, 0, v, m); }
        else {
          Unique(x, k - 1, v + m, m) by { assert m * (k - 1) == m * k - m; }
          Unique(v, -1, v + m, m);
        }
      }
    }
  }

  lemma Unique(x: int, k: int, r: int, m: nat)
    requires m > 0 && x == m * k + r && 0 <= r < m
    ensures x % m == r
  {
    var q := x / m;
    assert x == m * q + x % m;
    assert m * q == m * k + m * (q - k);
    if q > k { MulMono(1, q - k, m); }
    assert m * (q - k) == -(m * (k - q));
    if q < k { MulMono(1, k - q, m); }
  }

  lemma LayoutIs(h: Head, c: char, w: int, p: int, v: int, spec: Field)
    requires Integral(c) && -0x8000 <= Width(h, w) < 0x8000 && -1 <= Precision(h, p) < 0x8000
    requires spec == Field(Flags('0' in h.flags, c == 'd' || c == 'i', '+' in h.flags, ' ' in h.flags, Left(h, w), c == 'x', '#' in h.flags),
                           BaseOf(c), Width(h, w), Precision(h, p))
    requires if c == 'd' || c == 'i' then -0x8000_0000_0000_0000 <= v < 0x8000_0000_0000_0000 else 0 <= v < TWO64
    ensures spec.Valid()
    ensures var head, tail := SignOf(h, c, v) + PrefixOf(h, c, v), DigitsText(c, v, Precision(h, p));
            && Layout(ToUint64(v), spec) == FieldText(head, tail, Width(h, w), Left(h, w), '0' in h.flags)
            && Room(ToUint64(v), spec) == Width(h, w) - |head| - |tail|
            && CounterWraps(Room(ToUint64(v), spec), spec.flags) == Wraps(Width(h, w) - |head| - |tail|, Left(h, w), '0' in h.flags)
  {
    hide Digits, Repeat, Left, Width, Precision;
    var num := ToUint64(v);
    assert Magnitude(num, spec.flags) == Abs(v);
    assert SignText(num, spec.flags) == SignOf(h, c, v) && Prefix(num, spec) == PrefixOf(h, c, v);
    hide Magnitude, SignText, Prefix, SignOf, PrefixOf;
    assert DigitsText(c, v, Precision(h, p)) == Repeat('0', Zeros(num, spec)) + Body(num, spec);
  }

  // ----- The other conversions -----

  /** %c prints the low byte of its argument, filled to the width but for the two widths that wrap. */
  lemma CharPrinted(fmt: cstring, i: nat, h: Head, conv: nat, args: seq<Arg>, pointer: PointerText, w: int, p: int)
    returns (text: string)
    requires Converts(fmt, i, h, conv) && fmt[conv] == 'c' && Measures(h, args, w, p)
    ensures Render(fmt, i, args, pointer) == text + Render(fmt, conv + 1, Skip(args, Used(h) + 1), pointer)
    ensures var c := (Bits(args, Used(h)) % 0x100) as char;
            text == FieldText("", [c], Width(h, w), Left(h, w), false)
            <==> Width(h, w) > -0x8000 && (Left(h, w) || Width(h, w) > -0x7fff)
  {
    hide Conversion, Render, QualifierAt, Ends, Proper, Skip, At, Spell, Bits, Width, Precision, Left, Measures, CharText, FieldText;
    DirectiveFor(fmt, i, h, conv, args, pointer, w, p);
    var c: char := (Bits(args, Used(h)) % 0x100) as char;
    OtherConversions(fmt, h, conv, FlagsOf(h, w), Width(h, w), Precision(h, p), Skip(args, Used(h)), pointer);
    SkipOne(args, Used(h));
    text := CharText(c, Left(h, w), Width(h, w));
    CharTextIsLayout(c, Left(h, w), Width(h, w));
    NoHead([c], Width(h, w), Left(h, w));
  }

  /** %s prints its argument, cut to the precision and filled to the width but for one width that
      wraps; a pointer into the first page prints as (null). */
  lemma StringPrinted(fmt: cstring, i: nat, h: Head, conv: nat, args: seq<Arg>, pointer: PointerText, w: int, p: int)
    returns (text: string)
    requires Converts(fmt, i, h, conv) && fmt[conv] == 's' && Measures(h, args, w, p)
    ensures Render(fmt, i, args, pointer) == text + Render(fmt, conv + 1, Skip(args, Used(h) + 1), pointer)
    ensures var s := if Bits(args, Used(h)) < 0x400 then "(null)" else args[Used(h)].pointee;
            var t := if 0 <= Precision(h, p) < |s| then s[..Precision(h, p)] else s;
            text == FieldText("", t, Width(h, w), Left(h, w), false)
            <==> Left(h, w) || Width(h, w) > -0x8000 || |t| >= 0x7fff
  {
    hide Conversion, Render, QualifierAt, Ends, Proper, Skip, At, Spell, Width, Precision, Left, Measures, StringText, FieldText, FlagsOf, Clip, Bits, Repeat;
    DirectiveFor(fmt, i, h, conv, args, pointer, w, p);
    OtherConversions(fmt, h, conv, FlagsOf(h, w), Width(h, w), Precision(h, p), Skip(args, Used(h)), pointer);
    SkipOne(args, Used(h));
    BitsWithin(args, Used(h));
    var s: cstring := if Bits(args, Used(h)) < 0x400 then "(null)" else args[Used(h)].pointee;
    text := StringText(s, Left(h, w), Width(h, w), Precision(h, p));
    LeftFlag(h, w);
    StringLaidOut(s, Left(h, w), Width(h, w), Precision(h, p));
  }

  lemma BitsWithin(args: seq<Arg>, k: nat)
    ensures Bits(args, k) > 0 ==> k < |args| && Bits(args, k) == args[k].bits
  {
  }

  lemma StringLaidOut(s: cstring, left: bool, w: int16, p: int16)
    ensures var t := if 0 <= p < |s| then s[..p] else s;
            StringText(s, left, w, p) == FieldText("", t, w, left, false) <==> left || w > -0x8000 || |t| >= 0x7fff
  {
    hide StringText, FieldText, Clip, Repeat;
    StringTextIsLayout(s, left, w, p);
    ClipIs(s, p);
    NoHead(Clip(s, p), w, left);
  }

  lemma ClipIs(s: cstring, p: int16)
    ensures Clip(s, p) == if 0 <= p < |s| then s[..p] else s
  {
  }

  lemma LeftFlag(h: Head, w: int)
    ensures FlagsOf(h, w).left == Left(h, w)
  {
  }

  lemma NoHead(t: string, w: int, left: bool)
    ensures FieldText("", t, w, left, false)
            == var fill := Repeat(' ', Max(w - |t|, 0)); if left then t + fill else fill + t
  {
    hide Repeat;
    assert "" + t == t;
    assert Repeat(' ', Max(w - |t|, 0)) + "" == Repeat(' ', Max(w - |t|, 0));
  }

  /** %% prints a percent sign and %n nothing; %n takes an argument. */
  lemma PercentPrinted(fmt: cstring, i: nat, h: Head, conv: nat, args: seq<Arg>, pointer: PointerText, w: int, p: int)
    requires Converts(fmt, i, h, conv) && (fmt[conv] == '%' || fmt[conv] == 'n') && Measures(h, args, w, p)
    ensures Render(fmt, i, args, pointer) ==
              if fmt[conv] == '%' then "%" + Render(fmt, conv + 1, Skip(args, Used(h)), pointer)
              else Render(fmt, conv + 1, Skip(args, Used(h) + 1), pointer)
  {
    hide Conversion, Render, QualifierAt, Ends, Proper, Skip, At, Spell, Width, Precision, Measures, Bits;
    DirectiveFor(fmt, i, h, conv, args, pointer, w, p);
    OtherConversions(fmt, h, conv, FlagsOf(h, w), Width(h, w), Precision(h, p), Skip(args, Used(h)), pointer);
    SkipOne(args, Used(h));
    var rest := Render(fmt, conv + 1, Skip(args, Used(h) + 1), pointer);
    assert "" + rest == rest;
  }

  predicate Alphanumeric(c: char) {
    '0' <= c <= '9' || 'a' <= c <= 'z' || 'A' <= c <= 'Z'
  }

  /** %p prints what the printer of pointers makes of its argument, the field and the characters that
      follow; the letters and digits after the p are its extension. */
  lemma PointerPrinted(fmt: cstring, i: nat, h: Head, conv: nat, args: seq<Arg>, pointer: PointerText, w: int, p: int, end: nat)
    requires Converts(fmt, i, h, conv) && fmt[conv] == 'p' && Measures(h, args, w, p)
    requires conv < end <= |fmt| && (forall k :: conv < k < end ==> Alphanumeric(fmt[k])) && (end < |fmt| ==> !Alphanumeric(fmt[end]))
    ensures -0x8000 <= Width(h, w) < 0x8000 && -1 <= Precision(h, p) < 0x8000
    ensures var flags := Flags('0' in h.flags, false, '+' in h.flags, ' ' in h.flags, Left(h, w), false, '#' in h.flags);
            Render(fmt, i, args, pointer)
            == pointer(Bits(args, Used(h)), Field(flags, 10, Width(h, w), Precision(h, p)), fmt[conv + 1..])
               + Render(fmt, end, Skip(args, Used(h) + 1), pointer)
  {
    hide Conversion, Render, QualifierAt, Ends, Proper, Skip, At, Spell, Width, Precision, Left, Measures, Bits, AlnumEnd;
    DirectiveFor(fmt, i, h, conv, args, pointer, w, p);
    OtherConversions(fmt, h, conv, FlagsOf(h, w), Width(h, w), Precision(h, p), Skip(args, Used(h)), pointer);
    SkipOne(args, Used(h));
    Extension(fmt, conv, end);
  }

  lemma {:induction false} Extension(fmt: cstring, k: nat, end: nat)
    requires k <= end <= |fmt| && (forall l :: k <= l < end ==> Alphanumeric(fmt[l])) && (end < |fmt| ==> !Alphanumeric(fmt[end]))
    ensures AlnumEnd(fmt, k) == end
    decreases end - k
  {
    if k < end { Extension(fmt, k + 1, end); }
  }

  /** A conversion that there is not, or the end of the format, prints the percent sign, and the
      format goes on with the character that is none; a star at the end prints nothing. */
  lemma UnknownPrinted(fmt: cstring, i: nat, h: Head, conv: nat, args: seq<Arg>, pointer: PointerText, w: int, p: int)
    requires Written(fmt, i, h, conv) && !Known(CharAt(fmt, conv)) && Measures(h, args, w, p)
    ensures var star := h.qualifier == "" && (h.precision == Star || (h.width == Star && !h.point));
            Render(fmt, i, args, pointer)
            == (if conv == |fmt| && star then "" else "%") + Render(fmt, conv, Skip(args, Used(h)), pointer)
  {
    hide Conversion, Render, QualifierAt, Ends, Proper, Skip, At, Spell, Width, Precision, Measures;
    MeasuresFit(h, args, w, p);
    DirectivePrints(fmt, i, h, conv, args, pointer, w, p);
    UnknownConversion(fmt, conv - |h.qualifier|, conv, Letter(h.qualifier), FlagsOf(h, w), Width(h, w), Precision(h, p), Skip(args, Used(h)), pointer);
  }

  lemma UnknownConversion(fmt: cstring, k: nat, conv: nat, q: char, f: Flags, w: int16, p: int16, args: seq<Arg>, pointer: PointerText)
    requires 0 < k <= |fmt| && conv <= |fmt| && QualifierAt(fmt, k) == (q, conv) && !Known(CharAt(fmt, conv))
    ensures Conversion(fmt, k, f, w, p, args, pointer) == Piece("%", conv, args)
  {
    hide QualifierAt, First, Rest;
  }

  lemma DirectiveFor(fmt: cstring, i: nat, h: Head, conv: nat, args: seq<Arg>, pointer: PointerText, w: int, p: int)
    requires Converts(fmt, i, h, conv)
    requires Measures(h, args, w, p)
    ensures -0x8000 <= Width(h, w) < 0x8000 && -1 <= Precision(h, p) < 0x8000
    ensures i < conv < |fmt| && 0 < conv - |h.qualifier| && QualifierAt(fmt, conv - |h.qualifier|) == (Letter(h.qualifier), conv)
    ensures var d := Conversion(fmt, conv - |h.qualifier|, FlagsOf(h, w), Width(h, w), Precision(h, p), Skip(args, Used(h)), pointer);
            conv - |h.qualifier| <= d.next <= |fmt| && Render(fmt, i, args, pointer) == d.text + Render(fmt, d.next, d.args, pointer)
  {
    hide Conversion, Render, QualifierAt, Ends, Proper, Skip, At, Spell, FlagsOf, Width, Precision, Measures;
    MeasuresFit(h, args, w, p);
    ConversionsEnd(h, fmt[conv]);
    DirectivePrints(fmt, i, h, conv, args, pointer, w, p);
  }

  lemma OtherConversions(fmt: cstring, h: Head, conv: nat, f: Flags, w: int16, p: int16, args: seq<Arg>, pointer: PointerText)
    requires 0 < conv - |h.qualifier| && conv < |fmt| && Known(fmt[conv]) && !Integral(fmt[conv])
    requires QualifierAt(fmt, conv - |h.qualifier|) == (Letter(h.qualifier), conv)
    ensures var a := First(args);
            Conversion(fmt, conv - |h.qualifier|, f, w, p, args, pointer) == match fmt[conv]
              case 'c' => Piece(CharText((a.bits % 0x100) as char, f.left, w), conv + 1, Rest(args))
              case 's' => Piece(StringText(if a.bits < 0x400 then "(null)" else a.pointee, f.left, w, p), conv + 1, Rest(args))
              case 'n' => Piece("", conv + 1, Rest(args))
              case '%' => Piece("%", conv + 1, args)
              case _ => Piece(pointer(a.bits, Field(f, 10, w, p), fmt[conv + 1..]), AlnumEnd(fmt, conv), Rest(args))
  {
    hide QualifierAt, CharText, StringText, First, Rest, AlnumEnd, Letter;
  }

  // ----- What is printed is read back -----

  /** A directive without flags, width and precision. */
  function Bare(qualifier: string): Head {
    Head("", Absent, false, Absent, qualifier)
  }

  /** Every integer conversion, of every type, is undone by the reader for its base: the value read
      is the one of that type that is congruent to the argument. */
  lemma PrintedIsRead(qualifier: string, c: char, fmt: cstring, a: Arg, pointer: PointerText, v: int)
    requires IsQualifierText(qualifier) && Integral(c) && fmt == "%" + qualifier + [c]
    requires IsValue(qualifier, c == 'd' || c == 'i', a.bits, v)
    ensures var s := Render(fmt, 0, [a], pointer);
            && IsCString(s)
            && (if c == 'd' || c == 'i' then Kstrtoll(s, 10) == Kstrtoll(s, 0) == Ok(v)
                else if c == 'u' then Kstrtoull(s, 10) == Kstrtoull(s, 0) == Ok(v)
                else Kstrtoull(s, BaseOf(c)) == Ok(v))
  {
    hide Render, Kstrtoll, Kstrtoull, IsValue, Digits, Unsigned;
    var h := Bare(qualifier);
    var digits := Digits(Abs(v), BaseOf(c), c == 'x');
    var s := Render(fmt, 0, [a], pointer);
    BarePrinted(qualifier, c, fmt, a, pointer, v);
    DigitsUnderstood(c, v);
    CStringConcat(if v < 0 then "-" else "", digits);
    if v < 0 { assert s[0] == '-' && s[1..] == digits; } else { assert s == digits; }
    ReadSign(s, digits, BaseOf(c), v);
    if BaseOf(c) == 10 { ReadSign(s, digits, 0, v); }
  }

  lemma BarePrinted(qualifier: string, c: char, fmt: cstring, a: Arg, pointer: PointerText, v: int)
    requires IsQualifierText(qualifier) && Integral(c) && fmt == "%" + qualifier + [c]
    requires IsValue(qualifier, c == 'd' || c == 'i', a.bits, v)
    ensures -0x8000_0000_0000_0000 <= v < TWO64 && (v < 0 ==> c == 'd' || c == 'i')
    ensures (c == 'd' || c == 'i') ==> v < 0x8000_0000_0000_0000
    ensures Render(fmt, 0, [a], pointer) == (if v < 0 then "-" else "") + Digits(Abs(v), BaseOf(c), c == 'x')
  {
    hide Render, IsValue, Digits, Converts, Measures, SignOf, PrefixOf, DigitsText, FieldText, Wraps, Left, Width, Precision, Skip, Abs, BaseOf, Bare;
    var h, sign := Bare(qualifier), if v < 0 then "-" else "";
    BareStands(qualifier, c, fmt, a);
    SkipOne([a], 0);
    var text := IntegerPrinted(fmt, 0, h, 1 + |qualifier|, [a], pointer, -1, -1, v);
    ArgumentValue(qualifier, c == 'd' || c == 'i', a.bits, v);
    assert Render(fmt, |fmt|, Skip([a], 1), pointer) == "" by { PlainPrinted(fmt, |fmt|, Skip([a], 1), pointer); }
    BaseIs(c, v);
    AtMost22(Abs(v), BaseOf(c), c == 'x');
    BareText(qualifier, c, v, sign);
    assert text + "" == text;
  }

  lemma BaseIs(c: char, v: int)
    ensures BaseOf(c) == 8 || BaseOf(c) == 10 || BaseOf(c) == 16
    ensures -TWO64 < v < TWO64 ==> Abs(v) < TWO64
  {
  }

  lemma BareStands(qualifier: string, c: char, fmt: cstring, a: Arg)
    requires IsQualifierText(qualifier) && Integral(c) && fmt == "%" + qualifier + [c]
    ensures Converts(fmt, 0, Bare(qualifier), 1 + |qualifier|) && Measures(Bare(qualifier), [a], -1, -1)
    ensures fmt[1 + |qualifier|] == c && |fmt| == 2 + |qualifier| && Used(Bare(qualifier)) == 0
    ensures Bare(qualifier).qualifier == qualifier && Bits([a], 0) == a.bits
  {
    assert Spell(Bare(qualifier)) == "%" + qualifier;
    assert fmt[0..1 + |qualifier|] == "%" + qualifier;
  }

  /** Nothing is added by an absent width or precision. */
  lemma BareText(qualifier: string, c: char, v: int, sign: string)
    requires Integral(c) && (v < 0 ==> c == 'd' || c == 'i') && sign == if v < 0 then "-" else ""
    requires |Digits(Abs(v), BaseOf(c), c == 'x')| <= 22
    ensures var h := Bare(qualifier);
            var head, tail := SignOf(h, c, v) + PrefixOf(h, c, v), DigitsText(c, v, Precision(h, -1));
            && FieldText(head, tail, Width(h, -1), Left(h, -1), '0' in h.flags) == sign + Digits(Abs(v), BaseOf(c), c == 'x')
            && !Wraps(Width(h, -1) - |head| - |tail|, Left(h, -1), '0' in h.flags)
  {
    hide Digits, Repeat;
    var h, digits := Bare(qualifier), Digits(Abs(v), BaseOf(c), c == 'x');
    assert SignOf(h, c, v) + PrefixOf(h, c, v) == sign;
    assert Repeat('0', 0) == "" && Repeat(' ', 0) == "" && "" + digits == digits;
    assert DigitsText(c, v, -1) == digits;
    assert "" + sign + digits == sign + digits;
  }

  /** The digits of a magnitude, read without its sign. */
  lemma DigitsUnderstood(c: char, v: int)
    requires Integral(c) && Abs(v) < TWO64
    ensures var digits := Digits(Abs(v), BaseOf(c), c == 'x');
            && digits[0] != '+' && digits[0] != '-' && Unsigned(digits, BaseOf(c)) == Ok(Abs(v))
            && (BaseOf(c) == 10 ==> Unsigned(digits, 0) == Ok(Abs(v)))
  {
    hide Digits, Value, Unsigned, AllDigits, Numeral;
    var digits, base := Digits(Abs(v), BaseOf(c), c == 'x'), BaseOf(c);
    DigitsRead(Abs(v), base, c == 'x');
    if base == 10 { DecimalRead(Abs(v), false); }
    JustDigits(digits, base);
    NumeralIsRead(digits, base, "", digits, "", base);
  }

  lemma JustDigits(digits: cstring, base: nat)
    requires 2 <= base <= 16 && digits != "" && AllDigits(digits, base)
    ensures Numeral(digits, base, "", digits, "", base)
  {
    hide AllDigits;
    assert "" + digits + "" == digits;
  }

  lemma ReadSign(s: cstring, digits: cstring, base: nat, v: int)
    requires (base == 0 || 2 <= base <= 16) && digits != "" && digits[0] != '+' && digits[0] != '-'
    requires Unsigned(digits, base) == Ok(Abs(v))
    requires if v < 0 then s != "" && s[0] == '-' && s[1..] == digits else s == digits
    ensures v >= 0 ==> Kstrtoull(s, base) == Ok(v)
    ensures -0x8000_0000_0000_0000 <= v < 0x8000_0000_0000_0000 ==> Kstrtoll(s, base) == Ok(v)
  {
    hide Unsigned;
    SignedReads(s, base, v);
  }
}
