/** printf formats: the resumable decoder `format_decode` of stack_and_service/lib/vsprintf.c
    and, beside it, a one-pass reading of a format that needs no decoder state. */
module Format {
  import opened CTypes
  import opened Number

  datatype Kind =
    | Literal | StarWidth | StarPrecision | Char | Str | Ptr | PercentChar | Invalid
    | LongLong | ULong | Long | UByte | Byte | UShort | Short | UInt | Int
    | NrChars | SizeT | PtrDiff

  /** `struct printf_spec` */
  datatype Spec = Spec(kind: Kind, field: Field, qualifier: char)

  /** One variadic argument: the bits passed and, for a `char *`, the string it points to. */
  datatype Arg = Arg(bits: uint64, pointee: cstring)

  /** Reading past the arguments is undefined in C; here it yields zeros. */
  function First(args: seq<Arg>): Arg {
    if args == [] then Arg(0, "") else args[0]
  }

  function Rest(args: seq<Arg>): seq<Arg> {
    if args == [] then [] else args[1..]
  }

  /** `pointer()`, whose extensions are not modelled: any text determined by the pointer, the
      field and the characters that follow the `p`. */
  type PointerText = (uint64, Field, string) -> string

  const PAGE_SIZE := 0x400
  const NO_FLAGS := Flags(false, false, false, false, false, false, false)

  predicate IsDigit(c: char) { '0' <= c <= '9' }

  predicate IsAlnum(c: char) { IsDigit(c) || 'a' <= c <= 'z' || 'A' <= c <= 'Z' }

  /** _tolower(c) is c | 0x20 */
  function ToLower(c: char): (l: char)
    requires c < 256 as char
    ensures l < 256 as char && (c as int % 64 / 32 == 1 ==> l == c)
  {
    if c as int / 32 % 2 == 1 then c else (c as int + 32) as char
  }

  // ----- Scanning -----

  function LiteralEnd(fmt: cstring, i: nat): (j: nat)
    requires i <= |fmt|
    ensures i <= j <= |fmt| && (j < |fmt| ==> fmt[j] == '%')
    ensures forall k :: i <= k < j ==> fmt[k] != '%'
    decreases |fmt| - i
  {
    if i == |fmt| || fmt[i] == '%' then i else LiteralEnd(fmt, i + 1)
  }

  predicate IsFlag(c: char) { c in "-+ #0" }

  function FlagsEnd(fmt: cstring, i: nat): (j: nat)
    requires i <= |fmt|
    ensures i <= j <= |fmt|
    decreases |fmt| - i
  {
    if IsFlag(CharAt(fmt, i)) then FlagsEnd(fmt, i + 1) else i
  }

  function AddFlag(f: Flags, c: char): Flags {
    match c
    case '-' => f.(left := true)
    case '+' => f.(plus := true)
    case ' ' => f.(space := true)
    case '#' => f.(special := true)
    case '0' => f.(zeropad := true)
    case _ => f
  }

  function FlagsAt(fmt: cstring, i: nat, f: Flags): Flags
    requires i <= |fmt|
    decreases |fmt| - i
  {
    if IsFlag(CharAt(fmt, i)) then FlagsAt(fmt, i + 1, AddFlag(f, fmt[i])) else f
  }

  function DigitsEnd(fmt: cstring, i: nat): (j: nat)
    requires i <= |fmt|
    ensures i <= j <= |fmt|
    decreases |fmt| - i
  {
    if IsDigit(CharAt(fmt, i)) then DigitsEnd(fmt, i + 1) else i
  }

  function ValueAt(fmt: cstring, i: nat, v: nat): nat
    requires i <= |fmt|
    decreases |fmt| - i
  {
    if IsDigit(CharAt(fmt, i)) then ValueAt(fmt, i + 1, v * 10 + (fmt[i] - '0') as nat) else v
  }

  function AlnumEnd(fmt: cstring, i: nat): (j: nat)
    requires i <= |fmt|
    ensures i <= j <= |fmt|
    decreases |fmt| - i
  {
    if IsAlnum(CharAt(fmt, i)) then AlnumEnd(fmt, i + 1) else i
  }

  predicate IsQualifier(c: char)
    requires c < 256 as char
  {
    c == 'h' || ToLower(c) == 'l' || ToLower(c) == 'z' || c == 't'
  }

  /** A qualifier and where it ends: "ll" counts as 'L' and "hh" as 'H'. */
  function QualifierAt(fmt: cstring, i: nat): (r: (char, nat))
    requires i <= |fmt|
    ensures i <= r.1 <= |fmt| && r.0 < 256 as char
  {
    var c := CharAt(fmt, i);
    if !IsQualifier(c) then (255 as char, i)
    else if CharAt(fmt, i + 1) == c == 'l' then ('L', i + 2)
    else if CharAt(fmt, i + 1) == c == 'h' then ('H', i + 2)
    else (c, i + 1)
  }

  function IntegerKind(q: char, sign: bool): Kind
    requires q < 256 as char
  {
    if q == 'L' then LongLong
    else if q == 'l' then if sign then Long else ULong
    else if ToLower(q) == 'z' then SizeT
    else if q == 't' then PtrDiff
    else if q == 'H' then if sign then Byte else UByte
    else if q == 'h' then if sign then Short else UShort
    else if sign then Int else UInt
  }

  predicate IsIntegerConversion(c: char) {
    c == 'o' || c == 'x' || c == 'X' || c == 'd' || c == 'i' || c == 'u'
  }

  /** The flags and the base an integer conversion adds to a field. */
  function ConversionField(c: char, f: Field): (r: Field)
    requires IsIntegerConversion(c)
    ensures r.Valid()
  {
    match c
    case 'o' => f.(base := 8)
    case 'x' => f.(base := 16, flags := f.flags.(small := true))
    case 'X' => f.(base := 16)
    case 'u' => f.(base := 10)
    case _ => f.(base := 10, flags := f.flags.(sign := true))
  }

  // ----- The decoder -----

  datatype Decoded = Decoded(next: nat, spec: Spec)

  function DecodeConversion(fmt: cstring, i: nat, spec: Spec): (d: Decoded)
    requires i <= |fmt| && spec.qualifier < 256 as char
    ensures i <= d.next <= |fmt|
  {
    var s, c := spec.(field := spec.field.(base := 10)), CharAt(fmt, i);
    if IsIntegerConversion(c) then
      var f := ConversionField(c, s.field);
      Decoded(i + 1, Spec(IntegerKind(s.qualifier, f.flags.sign), f, s.qualifier))
    else match c
    case 'c' => Decoded(i + 1, s.(kind := Char))
    case 's' => Decoded(i + 1, s.(kind := Str))
    case 'p' => Decoded(i, s.(kind := Ptr))
    case 'n' => Decoded(i + 1, s.(kind := NrChars))
    case '%' => Decoded(i + 1, s.(kind := PercentChar))
    case _ => Decoded(i, s.(kind := Invalid))
  }

  function DecodeQualifier(fmt: cstring, i: nat, spec: Spec): (d: Decoded)
    requires i <= |fmt|
    ensures i <= d.next <= |fmt|
  {
    var (q, j) := QualifierAt(fmt, i);
    DecodeConversion(fmt, j, spec.(qualifier := q))
  }

  function DecodePrecision(fmt: cstring, i: nat, spec: Spec): (d: Decoded)
    requires i <= |fmt|
    ensures i <= d.next <= |fmt|
  {
    var s := spec.(field := spec.field.(precision := -1));
    if CharAt(fmt, i) != '.' then DecodeQualifier(fmt, i, s)
    else if IsDigit(CharAt(fmt, i + 1)) then
      DecodeQualifier(fmt, DigitsEnd(fmt, i + 1), s.(field := s.field.(precision := Max(ToInt16(ValueAt(fmt, i + 1, 0)), 0))))
    else if CharAt(fmt, i + 1) == '*' then Decoded(i + 2, s.(kind := StarPrecision))
    else DecodeQualifier(fmt, i + 1, s)
  }

  function DecodeDirective(fmt: cstring, i: nat, spec: Spec): (d: Decoded)
    requires i < |fmt|
    ensures i < d.next <= |fmt|
  {
    var j := FlagsEnd(fmt, i + 1);
    var s := spec.(kind := Literal, field := spec.field.(flags := FlagsAt(fmt, i + 1, NO_FLAGS), width := -1));
    if IsDigit(CharAt(fmt, j)) then
      DecodePrecision(fmt, DigitsEnd(fmt, j), s.(field := s.field.(width := ToInt16(ValueAt(fmt, j, 0)))))
    else if CharAt(fmt, j) == '*' then Decoded(j + 1, s.(kind := StarWidth))
    else DecodePrecision(fmt, j, s)
  }

  /** One call of `format_decode` at position i of the format. */
  function Decode(fmt: cstring, i: nat, spec: Spec): (d: Decoded)
    requires i <= |fmt|
    ensures i <= d.next <= |fmt|
    ensures d.next == i < |fmt| ==> spec.kind == StarWidth || spec.kind == StarPrecision
    ensures d.next == i < |fmt| ==> d.spec.kind == Invalid || d.spec.kind == Ptr
  {
    if spec.kind == StarWidth then
      DecodePrecision(fmt, i, spec.(kind := Literal, field := NormalWidth(spec.field)))
    else if spec.kind == StarPrecision then
      DecodeQualifier(fmt, i, spec.(kind := Literal, field := spec.field.(precision := Max(spec.field.precision, 0))))
    else
      var j := LiteralEnd(fmt, i);
      if j != i || j == |fmt| then Decoded(j, spec.(kind := Literal))
      else DecodeDirective(fmt, i, spec)
  }

  /** A negative width argument is a `-` flag followed by a positive one. */
  function NormalWidth(f: Field): Field {
    var w: int := f.width;
    if w < 0 then f.(width := ToInt16(-w), flags := f.flags.(left := true)) else f
  }

  /** `skip_atoi` */
  method SkipAtoi(fmt: cstring, i0: nat) returns (value: nat, i: nat)
    requires i0 <= |fmt|
    ensures value == ValueAt(fmt, i0, 0) && i == DigitsEnd(fmt, i0)
  {
    value, i := 0, i0;
    while IsDigit(CharAt(fmt, i))
      invariant i0 <= i <= |fmt| && DigitsEnd(fmt, i) == DigitsEnd(fmt, i0)
      invariant ValueAt(fmt, i, value) == ValueAt(fmt, i0, 0)
      decreases |fmt| - i
    {
      value, i := value * 10 + (fmt[i] - '0') as nat, i + 1;
    }
  }

  /** `format_decode`: its three entry points are the start of a token and the two places where
      an earlier call stopped to let the caller fetch a width or precision argument. */
  method FormatDecode(fmt: cstring, start: nat, spec0: Spec) returns (d: Decoded)
    requires start <= |fmt|
    ensures d == Decode(fmt, start, spec0)
  {
    hide DecodePrecision, DecodeQualifier;
    var spec, i := spec0, start;
    if spec.kind == StarWidth {
      spec := spec.(field := NormalWidth(spec.field), kind := Literal);
      d := FormatPrecision(fmt, i, spec);
      return;
    }
    if spec.kind == StarPrecision {
      if spec.field.precision < 0 { spec := spec.(field := spec.field.(precision := 0)); }
      d := FormatQualifier(fmt, i, spec.(kind := Literal));
      return;
    }
    spec := spec.(kind := Literal);
    while CharAt(fmt, i) != '\0' && CharAt(fmt, i) != '%'
      invariant start <= i <= |fmt| && LiteralEnd(fmt, i) == LiteralEnd(fmt, start)
      decreases |fmt| - i
    {
      i := i + 1;
    }
    if i != start || CharAt(fmt, i) == '\0' { return Decoded(i, spec); }
    d := FormatDirective(fmt, i, spec);
  }

  /** The part of `format_decode` that reads flags and width. */
  method FormatDirective(fmt: cstring, start: nat, spec0: Spec) returns (d: Decoded)
    requires start < |fmt| && spec0.kind == Literal
    ensures d == DecodeDirective(fmt, start, spec0)
  {
    hide DecodePrecision;
    var spec, flags, i := spec0, NO_FLAGS, start + 1;
    while IsFlag(CharAt(fmt, i))
      invariant start < i <= |fmt| && FlagsEnd(fmt, i) == FlagsEnd(fmt, start + 1)
      invariant FlagsAt(fmt, i, flags) == FlagsAt(fmt, start + 1, NO_FLAGS)
      decreases |fmt| - i
    {
      flags, i := AddFlag(flags, fmt[i]), i + 1;
    }
    spec := spec.(field := spec.field.(flags := flags, width := -1));
    if IsDigit(CharAt(fmt, i)) {
      var w;
      w, i := SkipAtoi(fmt, i);
      spec := spec.(field := spec.field.(width := ToInt16(w)));
    } else if CharAt(fmt, i) == '*' {
      return Decoded(i + 1, spec.(kind := StarWidth));
    }
    d := FormatPrecision(fmt, i, spec);
  }

  /** The part of `format_decode` from the label `precision` on. */
  method FormatPrecision(fmt: cstring, start: nat, spec0: Spec) returns (d: Decoded)
    requires start <= |fmt|
    ensures d == DecodePrecision(fmt, start, spec0)
  {
    hide DecodeQualifier;
    var spec, i := spec0.(field := spec0.field.(precision := -1)), start;
    if CharAt(fmt, i) == '.' {
      i := i + 1;
      if IsDigit(CharAt(fmt, i)) {
        var p;
        p, i := SkipAtoi(fmt, i);
        spec := spec.(field := spec.field.(precision := Max(ToInt16(p), 0)));
      } else if CharAt(fmt, i) == '*' {
        return Decoded(i + 1, spec.(kind := StarPrecision));
      }
    }
    d := FormatQualifier(fmt, i, spec);
  }

  /** The part of `format_decode` from the label `qualifier` on. */
  method FormatQualifier(fmt: cstring, start: nat, spec0: Spec) returns (d: Decoded)
    requires start <= |fmt|
    ensures d == DecodeQualifier(fmt, start, spec0)
  {
    var spec, i := spec0.(qualifier := 255 as char), start;
    if IsQualifier(CharAt(fmt, i)) {
      spec, i := spec.(qualifier := fmt[i]), i + 1;
      if spec.qualifier == CharAt(fmt, i) {
        if spec.qualifier == 'l' {
          spec, i := spec.(qualifier := 'L'), i + 1;
        } else if spec.qualifier == 'h' {
          spec, i := spec.(qualifier := 'H'), i + 1;
        }
      }
    }
    return DecodeConversion(fmt, i, spec);
  }
}
