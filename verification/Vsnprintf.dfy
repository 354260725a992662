/** `vsnprintf` and `vscnprintf` of stack_and_service/lib/vsprintf.c.

    `Render` reads a format once, directive by directive, and gives the whole text the call
    would produce in an unbounded buffer.  `FormatInto` drives the resumable decoder and writes
    into a buffer that may be too small. */
module Vsnprintf {
  import opened CTypes
  import opened Output
  import opened Number
  import opened Text
  import opened Format

  // ----- The text of a format -----

  /** The number an integer conversion passes to `number()`, as an unsigned 64-bit value. */
  function IntegerArg(kind: Kind, bits: uint64): uint64 {
    match kind
    case UByte => bits % 0x100
    case Byte => ToUint64((bits + 0x80) % 0x100 - 0x80)
    case UShort => bits % 0x1_0000
    case Short => ToUint64(ToInt16(bits))
    case Int => ToUint64(ToInt32(bits))
    case UInt => bits % 0x1_0000_0000
    case _ => bits
  }

  function StringArg(a: Arg): cstring {
    if a.bits < PAGE_SIZE then "(null)" else a.pointee
  }

  function CharArg(a: Arg): char {
    (a.bits % 0x100) as char
  }

  function IntArg(a: Arg): int16 {
    ToInt16(ToInt32(a.bits))
  }

  /** What one directive prints, where the format goes on and which arguments are left. */
  datatype Piece = Piece(text: string, next: nat, args: seq<Arg>)

  /** After flags, width and precision: the conversion with its qualifier.  An unknown conversion
      prints `%` and is then read again as ordinary text. */
  function Conversion(fmt: cstring, i: nat, f: Flags, w: int16, p: int16, args: seq<Arg>, pointer: PointerText): (r: Piece)
    requires 0 < i <= |fmt|
    ensures i <= r.next <= |fmt|
  {
    var (q, j) := QualifierAt(fmt, i);
    var a, rest := First(args), Rest(args);
    var field, c := Field(f, 10, w, p), CharAt(fmt, j);
    if IsIntegerConversion(c) then Piece(Converted(q, a, ConversionField(c, field)), j + 1, rest)
    else match c
    case 'c' => Piece(CharText(CharArg(a), f.left, w), j + 1, rest)
    case 's' => Piece(StringText(StringArg(a), f.left, w, p), j + 1, rest)
    case 'p' => Piece(pointer(a.bits, field, fmt[j + 1..]), AlnumEnd(fmt, j), rest)
    case 'n' => Piece("", j + 1, rest)
    case '%' => Piece("%", j + 1, args)
    case _ => Piece("%", j, args)
  }

  function Converted(q: char, a: Arg, spec: Field): string
    requires spec.Valid() && q < 256 as char
  {
    NumberText(IntegerArg(IntegerKind(q, spec.flags.sign), a.bits), spec)
  }

  /** After flags and width. */
  function AfterWidth(fmt: cstring, i: nat, f: Flags, w: int16, args: seq<Arg>, pointer: PointerText): (r: Piece)
    requires 0 < i <= |fmt|
    ensures i <= r.next <= |fmt|
  {
    if CharAt(fmt, i) != '.' then Conversion(fmt, i, f, w, -1, args, pointer)
    else if IsDigit(CharAt(fmt, i + 1)) then
      Conversion(fmt, DigitsEnd(fmt, i + 1), f, w, Max(ToInt16(ValueAt(fmt, i + 1, 0)), 0), args, pointer)
    else if CharAt(fmt, i + 1) == '*' then
      AfterStarPrecision(fmt, i + 2, f, w, IntArg(First(args)), Rest(args), pointer)
    else Conversion(fmt, i + 1, f, w, -1, args, pointer)
  }

  /** After `*` as the width or as the precision; a format that ends there prints nothing more. */
  function AfterStarWidth(fmt: cstring, i: nat, f: Flags, w: int16, args: seq<Arg>, pointer: PointerText): (r: Piece)
    requires 0 < i <= |fmt|
    ensures i <= r.next <= |fmt|
  {
    var width: int := w;
    if i == |fmt| then Piece("", i, args)
    else if width < 0 then AfterWidth(fmt, i, f.(left := true), ToInt16(-width), args, pointer)
    else AfterWidth(fmt, i, f, width, args, pointer)
  }

  function AfterStarPrecision(fmt: cstring, i: nat, f: Flags, w: int16, p: int16, args: seq<Arg>, pointer: PointerText): (r: Piece)
    requires 0 < i <= |fmt|
    ensures i <= r.next <= |fmt|
  {
    if i == |fmt| then Piece("", i, args) else Conversion(fmt, i, f, w, Max(p, 0), args, pointer)
  }

  /** A directive, from its `%` on. */
  function Directive(fmt: cstring, i: nat, args: seq<Arg>, pointer: PointerText): (r: Piece)
    requires i < |fmt|
    ensures i < r.next <= |fmt|
  {
    var j := FlagsEnd(fmt, i + 1);
    var f := FlagsAt(fmt, i + 1, NO_FLAGS);
    if IsDigit(CharAt(fmt, j)) then AfterWidth(fmt, DigitsEnd(fmt, j), f, ToInt16(ValueAt(fmt, j, 0)), args, pointer)
    else if CharAt(fmt, j) == '*' then AfterStarWidth(fmt, j + 1, f, IntArg(First(args)), Rest(args), pointer)
    else AfterWidth(fmt, j, f, -1, args, pointer)
  }

  /** The text of the format from position i on. */
  function Render(fmt: cstring, i: nat, args: seq<Arg>, pointer: PointerText): string
    requires i <= |fmt|
    decreases |fmt| - i, 1
  {
    if i == |fmt| then ""
    else if fmt[i] != '%' then [fmt[i]] + Render(fmt, i + 1, args, pointer)
    else Finish(fmt, Directive(fmt, i, args, pointer), i, pointer)
  }

  function Finish(fmt: cstring, r: Piece, i: nat, pointer: PointerText): string
    requires i < r.next <= |fmt|
    decreases |fmt| - i, 0
  {
    r.text + Render(fmt, r.next, r.args, pointer)
  }

  // ----- The decoder and the one-pass reading agree -----

  /** What the switch of `vsnprintf` does with a decoded token that starts at i. */
  function Switch(fmt: cstring, i: nat, d: Decoded, args: seq<Arg>, pointer: PointerText): (r: Piece)
    requires i <= d.next <= |fmt| && Complete(fmt, d)
    ensures d.next <= r.next <= |fmt|
    ensures d.spec.kind == Ptr ==> d.next < r.next
  {
    var s, a, rest := d.spec, First(args), Rest(args);
    match s.kind
    case Literal => Piece(fmt[i..d.next], d.next, args)
    case StarWidth => Piece("", d.next, rest)
    case StarPrecision => Piece("", d.next, rest)
    case Char => Piece(CharText(CharArg(a), s.field.flags.left, s.field.width), d.next, rest)
    case Str => Piece(StringText(StringArg(a), s.field.flags.left, s.field.width, s.field.precision), d.next, rest)
    case Ptr => Piece(pointer(a.bits, s.field, fmt[d.next + 1..]), AlnumEnd(fmt, d.next), rest)
    case PercentChar => Piece("%", d.next, args)
    case Invalid => Piece("%", d.next, args)
    case NrChars => Piece("", d.next, rest)
    case _ => Piece(NumberText(IntegerArg(s.kind, a.bits), s.field), d.next, rest)
  }

  /** The decoder's promises the switch relies on. */
  ghost predicate Complete(fmt: cstring, d: Decoded) {
    (d.spec.kind == Ptr ==> d.next < |fmt| && fmt[d.next] == 'p')
    && (IsInteger(d.spec.kind) ==> d.spec.field.Valid())
  }

  predicate IsInteger(k: Kind) {
    !k.Literal? && !k.StarWidth? && !k.StarPrecision? && !k.Char? && !k.Str? && !k.Ptr?
    && !k.PercentChar? && !k.Invalid? && !k.NrChars?
  }

  /** The specification after the switch: it has fetched the argument of a `*`. */
  function Fetched(s: Spec, args: seq<Arg>): Spec {
    if s.kind == StarWidth then s.(field := s.field.(width := IntArg(First(args))))
    else if s.kind == StarPrecision then s.(field := s.field.(precision := IntArg(First(args))))
    else s
  }

  /** A token together with the tokens that complete its directive. */
  function Whole(fmt: cstring, i: nat, d: Decoded, args: seq<Arg>, pointer: PointerText): (r: Piece)
    requires i <= d.next <= |fmt| && 0 < d.next && Complete(fmt, d)
  {
    var s := Fetched(d.spec, args);
    if s.kind == StarWidth then AfterStarWidth(fmt, d.next, s.field.flags, s.field.width, Rest(args), pointer)
    else if s.kind == StarPrecision then
      AfterStarPrecision(fmt, d.next, s.field.flags, s.field.width, s.field.precision, Rest(args), pointer)
    else Switch(fmt, i, d, args, pointer)
  }

  lemma ConversionDecoded(fmt: cstring, start: nat, i: nat, j: nat, spec: Spec, args: seq<Arg>, pointer: PointerText)
    requires start <= i <= |fmt| && 0 < i && spec.qualifier < 256 as char && QualifierAt(fmt, i) == (spec.qualifier, j)
    ensures var d, f := DecodeConversion(fmt, j, spec), spec.field;
            && Complete(fmt, d) && d.spec.kind != StarWidth && d.spec.kind != StarPrecision && d.spec.kind != Literal
            && Conversion(fmt, i, f.flags, f.width, f.precision, args, pointer) == Switch(fmt, start, d, args, pointer)
  {
    hide QualifierAt, NumberText, StringText, CharText, IntegerArg, AlnumEnd, First, Rest, IntegerKind, CharArg, StringArg, ConversionField;
    IntegerKinds(spec.qualifier, true);
    IntegerKinds(spec.qualifier, false);
  }

  lemma IntegerKinds(q: char, sign: bool)
    requires q < 256 as char
    ensures IsInteger(IntegerKind(q, sign))
  {
  }

  lemma QualifierDecoded(fmt: cstring, start: nat, i: nat, spec: Spec, args: seq<Arg>, pointer: PointerText)
    requires start <= i <= |fmt| && 0 < i
    ensures var d, f := DecodeQualifier(fmt, i, spec), spec.field;
            && Complete(fmt, d) && d.spec.kind != StarWidth && d.spec.kind != StarPrecision && d.spec.kind != Literal
            && Conversion(fmt, i, f.flags, f.width, f.precision, args, pointer) == Switch(fmt, start, d, args, pointer)
  {
    hide QualifierAt, Conversion, Switch, Complete, DecodeConversion;
    var (q, j) := QualifierAt(fmt, i);
    ConversionDecoded(fmt, start, i, j, spec.(qualifier := q), args, pointer);
  }

  lemma PrecisionDecoded(fmt: cstring, start: nat, i: nat, spec: Spec, args: seq<Arg>, pointer: PointerText)
    requires start <= i <= |fmt| && 0 < i
    ensures var d, f := DecodePrecision(fmt, i, spec), spec.field;
            && Complete(fmt, d) && d.spec.kind != StarWidth && d.spec.kind != Literal
            && AfterWidth(fmt, i, f.flags, f.width, args, pointer) == Whole(fmt, start, d, args, pointer)
  {
    hide Conversion, DecodeQualifier, Switch, DigitsEnd, ValueAt, Complete, First, Rest;
    var s := spec.(field := spec.field.(precision := -1));
    if CharAt(fmt, i) != '.' {
      QualifierDecoded(fmt, start, i, s, args, pointer);
    } else if IsDigit(CharAt(fmt, i + 1)) {
      var p: int16 := Max(ToInt16(ValueAt(fmt, i + 1, 0)), 0);
      QualifierDecoded(fmt, start, DigitsEnd(fmt, i + 1), s.(field := s.field.(precision := p)), args, pointer);
    } else if CharAt(fmt, i + 1) == '*' {
      assert Complete(fmt, DecodePrecision(fmt, i, spec)) by { StarIsComplete(fmt, DecodePrecision(fmt, i, spec)); }
    } else {
      QualifierDecoded(fmt, start, i + 1, s, args, pointer);
    }
  }

  lemma StarIsComplete(fmt: cstring, d: Decoded)
    requires d.spec.kind == StarPrecision || d.spec.kind == StarWidth || d.spec.kind == Literal
    ensures Complete(fmt, d)
  {
  }

  lemma DirectiveDecoded(fmt: cstring, i: nat, spec: Spec, args: seq<Arg>, pointer: PointerText)
    requires i < |fmt|
    ensures var d := DecodeDirective(fmt, i, spec);
            Complete(fmt, d) && d.spec.kind != Literal && Directive(fmt, i, args, pointer) == Whole(fmt, i, d, args, pointer)
  {
    hide AfterWidth, DecodePrecision, AfterStarWidth, AfterStarPrecision, Switch, FlagsEnd, FlagsAt, DigitsEnd, ValueAt, Complete, First, Rest;
    var j := FlagsEnd(fmt, i + 1);
    var s := spec.(kind := Literal, field := spec.field.(flags := FlagsAt(fmt, i + 1, NO_FLAGS), width := -1));
    if IsDigit(CharAt(fmt, j)) {
      PrecisionDecoded(fmt, i, DigitsEnd(fmt, j), s.(field := s.field.(width := ToInt16(ValueAt(fmt, j, 0)))), args, pointer);
    } else if CharAt(fmt, j) == '*' {
      StarIsComplete(fmt, DecodeDirective(fmt, i, spec));
    } else {
      PrecisionDecoded(fmt, i, j, s, args, pointer);
    }
  }

  /** What is still to be printed when the loop of `vsnprintf` stands at i with specification s:
      the rest of a directive if one was left for its argument, and the rest of the format. */
  function Pending(fmt: cstring, i: nat, s: Spec, args: seq<Arg>, pointer: PointerText): string
    requires i <= |fmt| && (s.kind == StarWidth || s.kind == StarPrecision ==> 0 < i)
  {
    if s.kind == StarWidth then
      var r := AfterStarWidth(fmt, i, s.field.flags, s.field.width, args, pointer);
      r.text + Render(fmt, r.next, r.args, pointer)
    else if s.kind == StarPrecision then
      var r := AfterStarPrecision(fmt, i, s.field.flags, s.field.width, s.field.precision, args, pointer);
      r.text + Render(fmt, r.next, r.args, pointer)
    else Render(fmt, i, args, pointer)
  }

  lemma {:induction false} RenderLiteral(fmt: cstring, i: nat, j: nat, args: seq<Arg>, pointer: PointerText)
    requires i <= j <= |fmt| && forall k :: i <= k < j ==> fmt[k] != '%'
    ensures Render(fmt, i, args, pointer) == fmt[i..j] + Render(fmt, j, args, pointer)
    decreases j - i
  {
    hide Directive, Finish;
    if i < j {
      assert Render(fmt, i, args, pointer) == [fmt[i]] + Render(fmt, i + 1, args, pointer);
      RenderLiteral(fmt, i + 1, j, args, pointer);
      assert fmt[i..j] == [fmt[i]] + fmt[i + 1..j];
    } else {
      assert fmt[i..j] == "";
    }
  }

  lemma RenderDirective(fmt: cstring, i: nat, args: seq<Arg>, pointer: PointerText)
    requires i < |fmt| && fmt[i] == '%'
    ensures var w := Directive(fmt, i, args, pointer);
            Render(fmt, i, args, pointer) == w.text + Render(fmt, w.next, w.args, pointer)
  {
    hide Directive;
  }

  /** One pass of the loop prints the next part of what is pending and leaves the rest pending. */
  lemma OnePass(fmt: cstring, i: nat, s: Spec, args: seq<Arg>, pointer: PointerText)
    requires i < |fmt| && (s.kind == StarWidth || s.kind == StarPrecision ==> 0 < i)
    ensures var d := Decode(fmt, i, s);
            && Complete(fmt, d)
            && (d.spec.kind == StarWidth || d.spec.kind == StarPrecision ==> 0 < d.next)
            && var r := Switch(fmt, i, d, args, pointer);
               Pending(fmt, i, s, args, pointer) == r.text + Pending(fmt, r.next, Fetched(d.spec, args), r.args, pointer)
  {
    hide AfterWidth, Conversion, DecodePrecision, DecodeQualifier, DecodeDirective, Directive, Complete, LiteralEnd;
    var d := Decode(fmt, i, s);
    if s.kind == StarWidth {
      var s' := s.(kind := Literal, field := NormalWidth(s.field));
      PrecisionDecoded(fmt, i, i, s', args, pointer);
    } else if s.kind == StarPrecision {
      QualifierDecoded(fmt, i, i, s.(kind := Literal, field := s.field.(precision := Max(s.field.precision, 0))), args, pointer);
    } else {
      var j := LiteralEnd(fmt, i);
      if j != i || j == |fmt| {
        StarIsComplete(fmt, d);
        RenderLiteral(fmt, i, j, args, pointer);
      } else {
        DirectiveDecoded(fmt, i, s, args, pointer);
        RenderDirective(fmt, i, args, pointer);
        PendingWhole(fmt, i, d, args, pointer);
      }
    }
  }

  /** Printing a directive as a whole is printing its first token and leaving the rest pending. */
  lemma PendingWhole(fmt: cstring, i: nat, d: Decoded, args: seq<Arg>, pointer: PointerText)
    requires i <= d.next <= |fmt| && 0 < d.next && Complete(fmt, d)
    ensures var w, r := Whole(fmt, i, d, args, pointer), Switch(fmt, i, d, args, pointer);
            && w.next <= |fmt|
            && w.text + Render(fmt, w.next, w.args, pointer)
               == r.text + Pending(fmt, r.next, Fetched(d.spec, args), r.args, pointer)
  {
    hide Render, AfterStarWidth, AfterStarPrecision, Complete, First, Rest;
    var r := Switch(fmt, i, d, args, pointer);
    var rest := Pending(fmt, r.next, Fetched(d.spec, args), r.args, pointer);
    assert "" + rest == rest;
  }

  // ----- vsnprintf -----

  /** The room a call has: `end` is clamped to the highest address if buf + size wraps. */
  function Capacity(address: uint64, size: uint64): nat {
    if address + size >= TWO64 then TWO64 - 1 - address else size
  }

  /** b' is b after the text has been formatted into a buffer of n bytes: as much of the text as
      fits before a terminating NUL, nothing past the NUL is touched, and with n == 0 nothing is. */
  ghost predicate Formatted(b: seq<char>, n: nat, text: string, b': seq<char>) {
    |b'| == |b|
    && forall i :: 0 <= i < |b| ==>
         b'[i] == if i < |text| && i + 1 < n then text[i]
                  else if i < n && i == Min(|text|, n - 1) then '\0'
                  else b[i]
  }

  /** `size` values whose low 32 bits are negative as an `int` are refused; otherwise the buffer, which
      may be smaller than `size` says if the text and its NUL fit it, receives the rendered text as
      far as it fits and its length is returned as an `int`. */
  method FormatInto(buf: array<char>, address: uint64, size: uint64, fmt: cstring, args: seq<Arg>, pointer: PointerText)
    returns (r: int32)
    requires ToInt32(size) >= 0 ==> Fits(buf.Length, Capacity(address, size), |Render(fmt, 0, args, pointer)| + 1)
    modifies buf
    ensures ToInt32(size) < 0 ==> r == 0 && buf[..] == old(buf[..])
    ensures ToInt32(size) >= 0 ==>
              && r == ToInt32(|Render(fmt, 0, args, pointer)|)
              && Formatted(old(buf[..]), Capacity(address, size), Render(fmt, 0, args, pointer), buf[..])
  {
    hide Shown, Render, Switch, Pending, Decode, Complete, Formatted;
    if ToInt32(size) < 0 { return 0; }
    var str, end := 0, size;
    if address + size >= TWO64 { end := TWO64 - 1 - address; }
    ghost var b, text := buf[..], Render(fmt, 0, args, pointer);
    ghost var t := "";
    var i, spec, rest := 0, Spec(Literal, Field(NO_FLAGS, 0, 0, 0), '\0'), args;
    PendingAtStart(fmt, spec, args, pointer); ShownNothing(b, end, 0);
    while CharAt(fmt, i) != '\0'
      invariant i <= |fmt| && (spec.kind == StarWidth || spec.kind == StarPrecision ==> 0 < i)
      invariant t + Pending(fmt, i, spec, rest, pointer) == text
      invariant str == |t| && Shown(b, end, 0, t, buf[..])
      decreases |fmt| - i, if spec.kind == StarWidth || spec.kind == StarPrecision then 1 else 0
    {
      OnePass(fmt, i, spec, rest, pointer);
      var d := FormatDecode(fmt, i, spec);
      ghost var w := Switch(fmt, i, d, rest, pointer);
      ghost var left := Pending(fmt, w.next, Fetched(d.spec, rest), w.args, pointer);
      assert t + (w.text + left) == t + w.text + left;
      assert |t| + |w.text| <= |text|;
      str, i, rest, spec := Send(buf, end, str, fmt, i, d, rest, pointer, b, t);
      t := t + w.text;
    }
    NothingPending(fmt, i, spec, rest, pointer, t);
    assert t == text;
    Terminate(buf, end, str, b, t);
    r := ToInt32(str);
  }

  lemma PendingAtStart(fmt: cstring, s: Spec, args: seq<Arg>, pointer: PointerText)
    requires s.kind == Literal
    ensures "" + Pending(fmt, 0, s, args, pointer) == Render(fmt, 0, args, pointer)
  {
    assert Pending(fmt, 0, s, args, pointer) == Render(fmt, 0, args, pointer);
  }

  /** At the end of the format nothing is pending, even if a `*` has just fetched its argument. */
  lemma NothingPending(fmt: cstring, i: nat, s: Spec, args: seq<Arg>, pointer: PointerText, t: string)
    requires i == |fmt| && (s.kind == StarWidth || s.kind == StarPrecision ==> 0 < i)
    ensures t + Pending(fmt, i, s, args, pointer) == t
  {
    assert Pending(fmt, i, s, args, pointer) == "";
  }

  /** The final NUL. */
  method Terminate(buf: array<char>, end: nat, str: nat, ghost b: seq<char>, ghost t: string)
    requires Fits(buf.Length, end, str + 1) && str == |t| && Shown(b, end, 0, t, buf[..])
    modifies buf
    ensures Formatted(b, end, t, buf[..])
  {
    if end > 0 {
      if str < end { buf[str] := '\0'; } else { buf[end - 1] := '\0'; }
    }
  }

  /** The switch of `vsnprintf` on the token just decoded. */
  method Send(buf: array<char>, end: nat, str: nat, fmt: cstring, i: nat, d: Decoded, args: seq<Arg>, pointer: PointerText,
              ghost b: seq<char>, ghost done: string)
    returns (str': nat, i': nat, args': seq<Arg>, spec: Spec)
    requires i <= d.next <= |fmt| && Complete(fmt, d)
    requires Fits(buf.Length, end, str + |Switch(fmt, i, d, args, pointer).text|)
    requires str == |done| && Shown(b, end, 0, done, buf[..])
    modifies buf
    ensures spec == Fetched(d.spec, args)
    ensures var r := Switch(fmt, i, d, args, pointer);
            && i' == r.next && args' == r.args
            && str' == str + |r.text| && Shown(b, end, 0, done + r.text, buf[..])
  {
    hide Shown, StringText, CharText, NumberText, IntegerArg, First, Rest;
    var f, a := d.spec.field, First(args);
    str', i', args', spec := str, d.next, Rest(args), d.spec;
    assert done + "" == done;
    match d.spec.kind {
      case Literal =>
        args' := args;
        str' := PutChars(buf, end, str, fmt[i..d.next], b, 0, done);
      case StarWidth =>
        spec := spec.(field := f.(width := IntArg(a)));
      case StarPrecision =>
        spec := spec.(field := f.(precision := IntArg(a)));
      case Char =>
        str' := PutCharacter(buf, end, str, CharArg(a), f.flags.left, f.width, b, 0, done);
      case Str =>
        str' := PutString(buf, end, str, StringArg(a), f.flags.left, f.width, f.precision, b, 0, done);
      case Ptr =>
        str' := PutChars(buf, end, str, pointer(a.bits, f, fmt[i' + 1..]), b, 0, done);
        i' := SkipAlnum(fmt, i');
      case PercentChar =>
        args' := args;
        str' := Put(buf, end, str, '%', b, 0, done);
      case Invalid =>
        args' := args;
        str' := Put(buf, end, str, '%', b, 0, done);
      case NrChars =>
      case _ =>
        str' := PutNumber(buf, end, str, IntegerArg(d.spec.kind, a.bits), f, b, 0, done);
    }
  }

  /** while (isalnum(*fmt)) fmt++; */
  method SkipAlnum(fmt: cstring, start: nat) returns (i: nat)
    requires start <= |fmt|
    ensures i == AlnumEnd(fmt, start)
  {
    i := start;
    while IsAlnum(CharAt(fmt, i))
      invariant start <= i <= |fmt| && AlnumEnd(fmt, i) == AlnumEnd(fmt, start)
      decreases |fmt| - i
    {
      i := i + 1;
    }
  }

  /** `vscnprintf`: the number of characters that fit into `size` bytes before a NUL.  They are all
      stored unless buf + size wraps, where fewer fit before the highest address. */
  method FormatCounted(buf: array<char>, address: uint64, size: uint64, fmt: cstring, args: seq<Arg>, pointer: PointerText)
    returns (r: int32)
    requires ToInt32(size) >= 0 ==> Fits(buf.Length, Capacity(address, size), |Render(fmt, 0, args, pointer)| + 1)
    modifies buf
    ensures ToInt32(size) < 0 ==> r == 0 && buf[..] == old(buf[..])
    ensures ToInt32(size) >= 0 ==>
              Formatted(old(buf[..]), Capacity(address, size), Render(fmt, 0, args, pointer), buf[..])
    ensures ToInt32(size) >= 0 && |Render(fmt, 0, args, pointer)| < 0x8000_0000 ==>
              r == Min(|Render(fmt, 0, args, pointer)|, Max(size - 1, 0))
  {
    hide Formatted, Render;
    r := FormatInto(buf, address, size, fmt, args, pointer);
    if ToUint64(r) < size { return r; }
    if size != 0 { return ToInt32(size - 1); }
    return 0;
  }

  /** Truncation never changes what is there: a larger buffer starts with the smaller one's text. */
  lemma LongerBufferExtends(b: seq<char>, n: nat, m: nat, text: string, small: seq<char>, large: seq<char>)
    requires 0 < n <= m && Formatted(b, n, text, small) && Formatted(b, m, text, large)
    ensures var k := Min(Min(|text|, n - 1), |b|); small[..k] == large[..k] == text[..k]
    ensures |text| < n ==> small == large
  {
  }
}
