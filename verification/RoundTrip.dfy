/** What the formatter of vsprintf.c prints is what the readers of kstrtox.c read. */
module RoundTrip {
  import opened CTypes
  import opened Output
  import opened Number
  import opened Format
  import opened Vsnprintf
  import opened Kstrtox

  lemma DigitCharValue(d: nat, small: bool)
    requires d < 16
    ensures DigitValue(DigitChar(d, small)) == d
    ensures DigitChar(d, small) == '0' <==> d == 0
    ensures DigitChar(d, small) != '+' && DigitChar(d, small) != '-'
  {
  }

  /** The digits of n have the value n, and only zero starts with a zero. */
  lemma {:induction false} DigitsRead(n: nat, base: nat, small: bool)
    requires 2 <= base <= 16
    ensures var s := Digits(n, base, small);
            && AllDigits(s, base) && Value(s, base) == n && (s[0] == '0' <==> n == 0)
            && s[0] != '+' && s[0] != '-'
  {
    hide DigitChar, DigitValue, Quotient, Remainder;
    var s := Digits(n, base, small);
    if n < base {
      DigitCharValue(n, small);
      assert s[..0] == "";
      assert Value(s, base) == Value(s[..0], base) * base + DigitValue(s[0]);
    } else {
      var q, r := Quotient(n, base), Remainder(n, base);
      DigitsRead(q, base, small);
      DigitCharValue(r, small);
      assert s[..|s| - 1] == Digits(q, base, small);
    }
  }

  /** Hexadecimal digits are in lower case exactly if `small` asks for it, and only zero is written
      with a zero in front. */
  lemma {:induction false} DigitsCase(n: nat, base: nat, small: bool)
    requires 2 <= base <= 16
    ensures var s := Digits(n, base, small);
            && (forall i :: 0 <= i < |s| ==> s[i] in if small then "0123456789abcdef" else "0123456789ABCDEF")
            && (s[0] == '0' ==> s == "0")
  {
    hide Quotient, Remainder, DigitChar;
    if n < base {
      DigitCharCase(n, small);
    } else {
      DigitsCase(Quotient(n, base), base, small);
      DigitsRead(n, base, small);
      DigitCharCase(Remainder(n, base), small);
    }
  }

  lemma DigitCharCase(d: nat, small: bool)
    requires d < 16
    ensures DigitChar(d, small) == (if small then "0123456789abcdef" else "0123456789ABCDEF")[d]
    ensures DigitChar(d, small) in if small then "0123456789abcdef" else "0123456789ABCDEF"
    ensures DigitChar(d, small) == '0' ==> d == 0
  {
    Table(d);
    assert (if small then LOWER else UPPER)[d] in if small then LOWER else UPPER;
  }

  /** A leading zero does not change the value. */
  lemma {:induction false} LeadingZero(s: cstring, base: nat)
    requires 2 <= base <= 16
    ensures var z: cstring := "0" + s; AllDigits(s, base) ==> AllDigits(z, base) && Value(z, base) == Value(s, base)
  {
    var z: cstring := "0" + s;
    if s == "" {
      assert z[..0] == "" && z[0] == '0';
      assert Value(z, base) == Value(z[..0], base) * base + DigitValue(z[0]);
    } else {
      assert z[..|z| - 1] == "0" + s[..|s| - 1];
      LeadingZero(s[..|s| - 1], base);
    }
  }

  /** No padding: neither the width nor the precision exceeds what is printed anyway. */
  ghost predicate Unpadded(num: uint64, spec: Field)
    requires spec.Valid()
  {
    spec.precision <= |Body(num, spec)| && Room(num, spec) <= 0 && !CounterWraps(Room(num, spec), spec.flags)
  }

  lemma UnpaddedText(num: uint64, spec: Field)
    requires spec.Valid() && Unpadded(num, spec)
    ensures NumberText(num, spec) == SignText(num, spec.flags) + Prefix(num, spec) + Body(num, spec)
  {
    AtMost22(Magnitude(num, spec.flags), spec.base, spec.flags.small);
    hide Digits, SignText, Prefix;
    NumberTextIsLayout(num, spec);
    assert Repeat(' ', 0) == "" && Repeat('0', 0) == "";
  }

  /** A hexadecimal number with its prefix, read with base 0. */
  lemma HexRead(m: uint64, small: bool, x: cstring)
    requires x == "0x" || x == "0X"
    ensures Unsigned(x + Digits(m, 16, small), 0) == Ok(m)
  {
    DigitsRead(m, 16, small);
    hide Digits, Value, Unsigned, AllDigits;
    var body := Digits(m, 16, small);
    assert Numeral(x + body, 0, x, body, "", 16) by { assert x + body == x + body + ""; }
    NumeralIsRead(x + body, 0, x, body, "", 16);
  }

  /** An octal number with its leading zero. */
  lemma OctalRead(m: uint64, small: bool)
    ensures m != 0 ==> Unsigned("0" + Digits(m, 8, small), 0) == Ok(m)
    ensures m == 0 ==> Unsigned(Digits(m, 8, small), 0) == Ok(m)
  {
    DigitsRead(m, 8, small);
    var body := Digits(m, 8, small);
    LeadingZero(body, 8);
    hide Digits, Value, Unsigned, AllDigits;
    var s: cstring := if m == 0 then body else "0" + body;
    assert Numeral(s, 0, "", s, "", 8) by { assert s == "" + s + ""; }
    NumeralIsRead(s, 0, "", s, "", 8);
  }

  /** A decimal number; zero is read as an octal one. */
  lemma DecimalRead(m: uint64, small: bool)
    ensures Unsigned(Digits(m, 10, small), 0) == Ok(m)
  {
    DigitsRead(m, 10, small); DigitsRead(0, 8, small);
    var s: cstring := Digits(m, 10, small);
    assert m == 0 ==> s == Digits(0, 8, small);
    hide Digits, Value, Unsigned, AllDigits;
    var radix := if m == 0 then 8 else 10;
    assert Numeral(s, 0, "", s, "", radix) by { assert s == "" + s + ""; }
    NumeralIsRead(s, 0, "", s, "", radix);
  }

  /** Prefix and digits of a magnitude, read with base 0 (the reader finds the radix itself). */
  lemma MagnitudeRead(num: uint64, spec: Field)
    requires spec.Valid() && (spec.base != 10 ==> spec.flags.special)
    ensures var s: string := Prefix(num, spec) + Body(num, spec);
            && IsCString(s) && Unsigned(s, 0) == Ok(Magnitude(num, spec.flags))
            && s[0] != '+' && s[0] != '-'
  {
    var m, base, small := Magnitude(num, spec.flags), spec.base, spec.flags.small;
    DigitsRead(m, base, small);
    hide Digits, Value, Unsigned, AllDigits, IsCString;
    assert m == 0 <==> num == 0;
    assert "" + Digits(m, base, small) == Digits(m, base, small);
    CStringConcat(Prefix(num, spec), Body(num, spec));
    if base == 16 {
      HexRead(m, small, Prefix(num, spec));
    } else if base == 8 {
      OctalRead(m, small);
    } else {
      DecimalRead(m, small);
    }
  }

  /** Unsigned output is read back by `kstrtoull` with base 0; octal and hexadecimal need `#`. */
  lemma UnsignedRoundTrip(num: uint64, spec: Field)
    requires spec.Valid() && Unpadded(num, spec)
    requires !spec.flags.sign && (spec.base != 10 ==> spec.flags.special)
    ensures var s := NumberText(num, spec); IsCString(s) && Kstrtoull(s, 0) == Ok(num)
  {
    hide Unsigned, Body, Prefix, NumberText;
    UnpaddedText(num, spec);
    MagnitudeRead(num, spec);
    assert "" + Prefix(num, spec) + Body(num, spec) == Prefix(num, spec) + Body(num, spec);
  }

  /** Signed output, with `-`, `+` or nothing in front, is read back by `kstrtoll` with base 0;
      this includes the smallest 64-bit number. */
  lemma SignedRoundTrip(num: uint64, spec: Field)
    requires spec.Valid() && Unpadded(num, spec)
    requires spec.flags.sign && (spec.flags.space ==> spec.flags.plus) && (spec.base != 10 ==> spec.flags.special)
    ensures var s := NumberText(num, spec); IsCString(s) && Kstrtoll(s, 0) == Ok(ToInt64(num))
  {
    hide Unsigned, Body, Prefix, NumberText;
    UnpaddedText(num, spec);
    MagnitudeRead(num, spec);
    var sign := SignText(num, spec.flags);
    var t: cstring := Prefix(num, spec) + Body(num, spec);
    CStringConcat(sign, t);
    assert NumberText(num, spec) == sign + t;
    var s: cstring := sign + t;
    if sign != "" { assert s[0] == sign[0] && s[1..] == t; } else { assert s == t; }
    SignedReads(s, 0, ToInt64(num));
  }

  /** `num_to_str` output is read back too. */
  lemma NumToStrRoundTrip(num: uint64)
    ensures Kstrtoull(Digits(num, 10, false), 0) == Ok(num)
  {
    var spec := Field(NO_FLAGS, 10, -1, -1);
    MagnitudeRead(num, spec);
    assert "" + Body(num, spec) == Digits(num, 10, false);
  }

  /** End to end: printing with "%lld" and reading with `kstrtoll` gives every 64-bit number back. */
  lemma PrintThenRead(a: Arg, pointer: PointerText)
    ensures var s := Render("%lld", 0, [a], pointer);
            IsCString(s) && Kstrtoll(s, 0) == Ok(ToInt64(a.bits))
  {
    hide Kstrtoll, NumberText, Room;
    var fmt: cstring := "%lld";
    var spec := Field(NO_FLAGS.(sign := true), 10, -1, -1);
    assert FlagsEnd(fmt, 1) == 1 && FlagsAt(fmt, 1, NO_FLAGS) == NO_FLAGS;
    assert QualifierAt(fmt, 1) == ('L', 3);
    assert Conversion(fmt, 1, NO_FLAGS, -1, -1, [a], pointer) == Piece(NumberText(a.bits, spec), 4, []);
    assert Directive(fmt, 0, [a], pointer) == Piece(NumberText(a.bits, spec), 4, []);
    var s := NumberText(a.bits, spec);
    assert Render(fmt, 0, [a], pointer) == s by { assert s + "" == s; }
    NoRoom(a.bits, spec);
    SignedRoundTrip(a.bits, spec);
  }

  lemma NoRoom(num: uint64, spec: Field)
    requires spec.Valid() && spec.width == spec.precision == -1
    ensures Unpadded(num, spec)
  {
    AtMost22(Magnitude(num, spec.flags), spec.base, spec.flags.small);
  }
}
