/** The compressed IPv6 printer of stack_and_service/lib/vsprintf.c, and a reader of the text form
    of section 2.2 of RFC 4291.  An address is its eight groups in host order. */
module Ip6 {
  import opened CTypes
  import opened Decimal
  import opened Number
  import opened Kstrtox
  import opened RoundTrip

  type Address = g: seq<uint16> | |g| == 8 witness [0, 0, 0, 0, 0, 0, 0, 0]

  /** ipv6_addr_v4mapped(&in6) || ipv6_addr_is_isatap(&in6) */
  predicate UsesIpv4(g: Address) {
    || (g[0] == g[1] == g[2] == g[3] == g[4] == 0 && g[5] == 0xFFFF)
    || ((g[4] == 0 || g[4] == 0x0200) && g[5] == 0x5EFE)
  }

  function Range(g: Address): nat {
    if UsesIpv4(g) then 6 else 8
  }

  // ----- The run that is elided -----

  /** How many groups from the i-th on are zero. */
  function ZeroRun(g: Address, i: nat, range: nat): (n: nat)
    requires i <= range <= 8
    ensures i + n <= range && forall k :: i <= k < i + n ==> g[k] == 0
    ensures i + n < range ==> g[i + n] != 0
    decreases range - i
  {
    if i < range && g[i] == 0 then 1 + ZeroRun(g, i + 1, range) else 0
  }

  /** Sections 4.2.2 and 4.2.3 of RFC 5952: the first of the longest runs, unless that is a single
      group or none, which pos == -1 stands for. */
  predicate BestRun(g: Address, range: nat, pos: int, len: nat)
    requires range <= 8
  {
    if pos < 0 then pos == -1 && forall i :: 0 <= i < range ==> ZeroRun(g, i, range) <= 1
    else
      && pos < range && len == ZeroRun(g, pos, range) >= 2
      && (forall i :: 0 <= i < range ==> ZeroRun(g, i, range) <= len)
      && (forall i :: 0 <= i < pos ==> ZeroRun(g, i, range) < len)
  }

  method CountZeros(zerolength: array<nat>, g: Address, range: nat)
    requires range <= 8 == zerolength.Length
    modifies zerolength
    ensures forall k :: 0 <= k < range ==> zerolength[k] == ZeroRun(g, k, range)
  {
    for k := 0 to 8
      invariant forall l :: 0 <= l < k ==> zerolength[l] == 0
    {
      zerolength[k] := 0;
    }
    var i := 0;
    while i < range
      invariant 0 <= i <= range
      invariant forall k :: 0 <= k < i ==> zerolength[k] == ZeroRun(g, k, range)
      invariant forall k :: i <= k < 8 ==> zerolength[k] == 0
    {
      var j := i;
      while j < range
        invariant i <= j <= range && zerolength[i] == j - i
        invariant ZeroRun(g, i, range) == (j - i) + ZeroRun(g, j, range)
        invariant forall k :: 0 <= k < i ==> zerolength[k] == ZeroRun(g, k, range)
        invariant forall k :: i < k < 8 ==> zerolength[k] == 0
      {
        if g[j] != 0 { break; }
        zerolength[i] := zerolength[i] + 1;
        j := j + 1;
      }
      i := i + 1;
    }
  }

  /** "find position of longest 0 run" */
  method FindRun(g: Address, range: nat) returns (colonpos: int, longest: nat)
    requires range <= 8
    ensures BestRun(g, range, colonpos, longest)
  {
    hide ZeroRun;
    var zerolength := new nat[8];
    CountZeros(zerolength, g, range);
    var i := 0;
    longest, colonpos := 1, -1;
    while i < range
      invariant 0 <= i <= range && -1 <= colonpos < i && longest >= 1
      invariant forall k :: 0 <= k < range ==> zerolength[k] == ZeroRun(g, k, range)
      invariant forall k :: 0 <= k < i ==> ZeroRun(g, k, range) <= longest
      invariant forall k :: 0 <= k < colonpos ==> ZeroRun(g, k, range) < longest
      invariant if colonpos == -1 then longest == 1 else longest == ZeroRun(g, colonpos, range) >= 2
    {
      if zerolength[i] > longest {
        longest, colonpos := zerolength[i], i;
      }
      i := i + 1;
    }
    if longest == 1 { // don't compress a single 0
      colonpos := -1;
    }
  }

  // ----- The text -----

  /** Section 4.1 and 4.3 of RFC 5952: no leading zeros, lower case. */
  function Hex(w: uint16): cstring {
    Digits(w, 16, true)
  }

  function Octet(b: uint8): cstring {
    Digits(b, 10, false)
  }

  /** The last two groups as an IPv4 address. */
  function Dotted(x: uint16, y: uint16): string {
    Octet(x / 0x100) + "." + Octet(x % 0x100) + "." + Octet(y / 0x100) + "." + Octet(y % 0x100)
  }

  function HexFields(groups: seq<uint16>): (fs: seq<string>)
    ensures |fs| == |groups| && forall i :: 0 <= i < |groups| ==> fs[i] == Hex(groups[i])
  {
    seq(|groups|, i requires 0 <= i < |groups| => Hex(groups[i]))
  }

  /** The fields of an address, were none elided. */
  function Fields(g: Address): seq<string> {
    HexFields(g[..Range(g)]) + if UsesIpv4(g) then [Dotted(g[6], g[7])] else []
  }

  /** Fields with a separator between each two. */
  function Join(fs: seq<string>, sep: char): string {
    if fs == [] then "" else if |fs| == 1 then fs[0] else fs[0] + [sep] + Join(fs[1..], sep)
  }

  /** The text of an address whose groups from pos on, len of them, are elided. */
  function Text(g: Address, pos: int, len: nat): string
    requires -1 <= pos && (pos >= 0 ==> pos + len <= Range(g))
  {
    var fs := Fields(g);
    if pos == -1 then Join(fs, ':') else Join(fs[..pos], ':') + "::" + Join(fs[pos + len..], ':')
  }

  // ----- The reader -----

  datatype Option<+T> = None | Some(value: T)

  function SplitOn(s: string, sep: char): (fs: seq<string>)
    ensures fs != []
  {
    if s == "" then [""]
    else
      var rest := SplitOn(s[1..], sep);
      if s[0] == sep then [""] + rest else [[s[0]] + rest[0]] + rest[1..]
  }

  function FieldsOf(s: string): seq<string> {
    if s == "" then [] else SplitOn(s, ':')
  }

  ghost function ReadHex(f: string): Option<uint16> {
    if 1 <= |f| <= 4 && IsCString(f) && AllDigits(f, 16) && Value(f, 16) < 0x1_0000 then Some(Value(f, 16)) else None
  }

  ghost function ReadOctet(f: string): Option<uint8> {
    if 1 <= |f| <= 3 && IsCString(f) && AllDigits(f, 10) && Value(f, 10) < 0x100 then Some(Value(f, 10)) else None
  }

  ghost function ReadDotted(f: string): Option<seq<uint16>> {
    var parts := SplitOn(f, '.');
    if |parts| != 4 then None
    else match (ReadOctet(parts[0]), ReadOctet(parts[1]), ReadOctet(parts[2]), ReadOctet(parts[3]))
      case (Some(a), Some(b), Some(c), Some(d)) => Some([a as nat * 0x100 + b, c as nat * 0x100 + d])
      case _ => None
  }

  /** Groups in hexadecimal; the very last may be an IPv4 address, which makes two. */
  ghost function ReadFields(fs: seq<string>, last: bool): Option<seq<uint16>> {
    if fs == [] then Some([])
    else if last && |fs| == 1 && '.' in fs[0] then ReadDotted(fs[0])
    else match (ReadHex(fs[0]), ReadFields(fs[1..], last))
      case (Some(w), Some(rest)) => Some([w] + rest)
      case _ => None
  }

  /** Where the first "::" is, or -1. */
  function FindElision(s: string): (k: int)
    ensures -1 <= k && (k >= 0 ==> k + 2 <= |s|)
  {
    if |s| < 2 then -1
    else if s[0] == ':' && s[1] == ':' then 0
    else
      var k := FindElision(s[1..]);
      if k == -1 then -1 else k + 1
  }

  ghost function ReadAddress(s: string): Option<Address> {
    var k := FindElision(s);
    if k == -1 then
      match ReadFields(FieldsOf(s), true)
      case Some(groups) => if |groups| == 8 then Some(groups) else None
      case None => None
    else
      match (ReadFields(FieldsOf(s[..k]), false), ReadFields(FieldsOf(s[k + 2..]), true))
      case (Some(before), Some(after)) =>
        if |before| + |after| < 8 then Some(before + seq(8 - |before| - |after|, _ => 0) + after) else None
      case _ => None
  }

  // ----- Fields and their separators -----

  /** A field: not empty, without a colon. */
  predicate IsField(f: string, sep: char) {
    f != "" && sep !in f
  }

  lemma {:induction false} SplitField(f: string, sep: char, rest: string)
    requires sep !in f
    ensures SplitOn(f, sep) == [f]
    ensures SplitOn(f + [sep] + rest, sep) == [f] + SplitOn(rest, sep)
  {
    if f == "" {
      assert ("" + [sep] + rest)[1..] == rest;
    } else {
      SplitField(f[1..], sep, rest);
      assert (f + [sep] + rest)[1..] == f[1..] + [sep] + rest;
      assert [f[0]] + f[1..] == f;
    }
  }

  lemma {:induction false} SplitJoin(fs: seq<string>, sep: char)
    requires fs != [] && forall i :: 0 <= i < |fs| ==> IsField(fs[i], sep)
    ensures SplitOn(Join(fs, sep), sep) == fs && Join(fs, sep) != ""
  {
    if |fs| == 1 {
      SplitField(fs[0], sep, "");
    } else {
      SplitJoin(fs[1..], sep);
      SplitField(fs[0], sep, Join(fs[1..], sep));
    }
  }

  /** Every colon is followed by something else. */
  predicate Plain(s: string) {
    forall i :: 0 <= i < |s| && s[i] == ':' ==> i + 1 < |s| && s[i + 1] != ':'
  }

  lemma {:induction false} JoinIsPlain(fs: seq<string>)
    requires forall i :: 0 <= i < |fs| ==> IsField(fs[i], ':')
    ensures Plain(Join(fs, ':')) && (fs != [] ==> Join(fs, ':') != "" && Join(fs, ':')[0] != ':')
  {
    if |fs| > 1 {
      JoinIsPlain(fs[1..]);
    }
  }

  lemma {:induction false} FirstElision(u: string, rest: string)
    requires Plain(u)
    ensures FindElision(u) == -1 && FindElision(u + "::" + rest) == |u|
  {
    if u == "" {
      assert "" + "::" + rest == "::" + rest;
    } else {
      var s := u + "::" + rest;
      assert s[1..] == u[1..] + "::" + rest;
      assert Plain(u[1..]) by {
        forall i | 0 <= i < |u[1..]| && u[1..][i] == ':' ensures i + 1 < |u[1..]| && u[1..][i + 1] != ':' {
          assert u[i + 1] == ':';
        }
      }
      FirstElision(u[1..], rest);
      assert s[0] == u[0] && (|u| > 1 ==> s[1] == u[1]);
      if u[0] == ':' { assert |u| > 1 && u[1] != ':'; }
    }
  }

  lemma {:induction false} JoinSnoc(fs: seq<string>, f: string, sep: char)
    ensures Join(fs + [f], sep) == Join(fs, sep) + (if fs == [] then "" else [sep]) + f
  {
    if fs == [] {
      assert [] + [f] == [f];
    } else {
      assert (fs + [f])[1..] == fs[1..] + [f];
      JoinSnoc(fs[1..], f, sep);
    }
  }

  // ----- Groups and octets -----

  lemma {:induction false} NoSeparators(n: nat, base: nat, small: bool)
    requires 2 <= base <= 16
    ensures var s := Digits(n, base, small); IsField(s, ':') && IsField(s, '.')
  {
    hide Quotient, Remainder;
    if n >= base {
      NoSeparators(Quotient(n, base), base, small);
    }
  }

  lemma OneMore(n: nat, base: nat, small: bool)
    requires 2 <= base <= 16
    ensures |Digits(n, base, small)| == if n < base then 1 else |Digits(n / base, base, small)| + 1
  {
  }

  lemma HexLength(w: uint16)
    ensures 1 <= |Hex(w)| <= 4
  {
    OneMore(w, 16, true); OneMore(w / 16, 16, true); OneMore(w / 16 / 16, 16, true); OneMore(w / 16 / 16 / 16, 16, true);
  }

  lemma OctetLength(b: uint8)
    ensures 1 <= |Octet(b)| <= 3
  {
    OneMore(b, 10, false); OneMore(b / 10, 10, false); OneMore(b / 10 / 10, 10, false);
  }

  lemma HexRead(w: uint16)
    ensures ReadHex(Hex(w)) == Some(w) && IsField(Hex(w), ':') && '.' !in Hex(w)
  {
    HexLength(w);
    NoSeparators(w, 16, true);
    DigitsRead(w, 16, true);
  }

  lemma OctetRead(b: uint8)
    ensures ReadOctet(Octet(b)) == Some(b) && IsField(Octet(b), '.') && ':' !in Octet(b)
  {
    OctetLength(b);
    NoSeparators(b, 10, false);
    DigitsRead(b, 10, false);
  }

  lemma DottedRead(x: uint16, y: uint16)
    ensures ReadDotted(Dotted(x, y)) == Some([x, y])
    ensures IsField(Dotted(x, y), ':') && '.' in Dotted(x, y) && |Dotted(x, y)| <= 15
  {
    hide Octet, ReadOctet;
    var a: uint8, b: uint8, c: uint8, d: uint8 := x / 0x100, x % 0x100, y / 0x100, y % 0x100;
    OctetRead(a); OctetRead(b); OctetRead(c); OctetRead(d);
    OctetLength(a); OctetLength(b); OctetLength(c); OctetLength(d);
    SplitFour(Octet(a), Octet(b), Octet(c), Octet(d));
  }

  lemma SplitFour(a: string, b: string, c: string, d: string)
    requires IsField(a, '.') && IsField(b, '.') && IsField(c, '.') && IsField(d, '.')
    ensures SplitOn(a + "." + b + "." + c + "." + d, '.') == [a, b, c, d]
  {
    hide SplitOn;
    var s1, s2 := c + "." + d, b + "." + (c + "." + d);
    assert a + "." + b + "." + c + "." + d == a + "." + s2;
    assert s2 == b + "." + s1 && s1 == c + "." + d;
    SplitField(a, '.', s2);
    SplitField(b, '.', s1);
    SplitField(c, '.', d);
    SplitField(d, '.', "");
  }

  /** Fields of groups, with or without an IPv4 address at the end, are read back. */
  lemma {:induction false} FieldsRead(groups: seq<uint16>, tail: seq<uint16>, last: bool)
    requires tail == [] || (last && |tail| == 2)
    ensures var fs := HexFields(groups) + (if tail == [] then [] else [Dotted(tail[0], tail[1])]);
            && ReadFields(fs, last) == Some(groups + tail)
            && forall i :: 0 <= i < |fs| ==> IsField(fs[i], ':')
  {
    hide ReadHex, ReadDotted, Hex, Dotted, IsField;
    var end := if tail == [] then [] else [Dotted(tail[0], tail[1])];
    var fs := HexFields(groups) + end;
    if groups == [] {
      if tail != [] {
        DottedRead(tail[0], tail[1]);
        assert fs == end && groups + tail == [tail[0], tail[1]];
      } else {
        assert fs == [] && groups + tail == [];
      }
    } else {
      HexRead(groups[0]);
      FieldsRead(groups[1..], tail, last);
      assert fs[1..] == HexFields(groups[1..]) + end;
      assert [groups[0]] + (groups[1..] + tail) == groups + tail;
      forall i | 0 <= i < |fs| ensures IsField(fs[i], ':') {
        if i > 0 { assert fs[i] == fs[1..][i - 1]; }
      }
    }
  }

  /** The fields on one side of the elision, joined and read back. */
  lemma SideRead(groups: seq<uint16>, tail: seq<uint16>, last: bool)
    requires tail == [] || (last && |tail| == 2)
    ensures var s := Join(HexFields(groups) + (if tail == [] then [] else [Dotted(tail[0], tail[1])]), ':');
            ReadFields(FieldsOf(s), last) == Some(groups + tail) && Plain(s)
  {
    hide ReadFields, HexFields, Dotted, Plain, IsField;
    var fs := HexFields(groups) + if tail == [] then [] else [Dotted(tail[0], tail[1])];
    FieldsRead(groups, tail, last);
    JoinIsPlain(fs);
    if fs != [] {
      SplitJoin(fs, ':');
    }
  }

  /** What the printer prints is read back as the same address, wherever zeros are elided. */
  lemma TextIsRead(g: Address, pos: int, len: nat)
    requires -1 <= pos && (pos >= 0 ==> len > 0 && pos + len <= Range(g) && forall k :: pos <= k < pos + len ==> g[k] == 0)
    ensures ReadAddress(Text(g, pos, len)) == Some(g)
  {
    hide UsesIpv4, ReadFields, HexFields, Dotted, Plain, FieldsOf, Join;
    var range := Range(g);
    var tail: seq<uint16> := if UsesIpv4(g) then g[6..] else [];
    var s := Text(g, pos, len);
    if pos == -1 {
      SideRead(g[..range], tail, true);
      FirstElision(s, "");
      assert g[..range] + tail == g;
    } else {
      var before, after := g[..pos], g[pos + len..range];
      SideRead(before, [], false);
      SideRead(after, tail, true);
      SplitFields(g, pos, len);
      var u, v := Join(HexFields(before), ':'), Join(Fields(g)[pos + len..], ':');
      assert HexFields(before) + [] == HexFields(before);
      FirstElision(u, v);
      assert s == u + "::" + v && s[..|u|] == u && s[|u| + 2..] == v;
      assert before + [] == before;
      assert before + seq(len, _ => 0) + (after + tail) == g;
    }
  }

  lemma SplitFields(g: Address, pos: nat, len: nat)
    requires pos + len <= Range(g)
    ensures |Fields(g)| >= Range(g) && Fields(g)[..pos] == HexFields(g[..pos])
    ensures Fields(g)[pos + len..] == HexFields(g[pos + len..Range(g)]) + if UsesIpv4(g) then [Dotted(g[6], g[7])] else []
  {
    hide Hex, Dotted;
  }

  // ----- The form of the text -----

  /** How a field is written: a group in lower case, or four decimal numbers with dots between them,
      all without leading zeros. */
  predicate Canonical(f: string) {
    if '.' in f then forall q :: q in SplitOn(f, '.') ==> Shortest(q, "0123456789")
    else Shortest(f, "0123456789abcdef")
  }

  predicate Shortest(f: string, digits: string) {
    f != "" && (forall i :: 0 <= i < |f| ==> f[i] in digits) && (f[0] == '0' ==> f == "0")
  }

  /** The fields of a text, those before the elision and those after it. */
  function Printed(s: string): seq<string> {
    var k := FindElision(s);
    if k == -1 then FieldsOf(s) else FieldsOf(s[..k]) + FieldsOf(s[k + 2..])
  }

  lemma HexShortest(w: uint16)
    ensures Shortest(Hex(w), "0123456789abcdef") && '.' !in Hex(w)
  {
    hide Digits;
    DigitsCase(w, 16, true);
    NoSeparators(w, 16, true);
  }

  lemma {:induction false} DecimalOnly(n: nat)
    ensures forall i :: 0 <= i < |Digits(n, 10, false)| ==> Digits(n, 10, false)[i] in "0123456789"
  {
    hide Quotient, Remainder;
    if n >= 10 { DecimalOnly(Quotient(n, 10)); }
  }

  lemma OctetShortest(b: uint8)
    ensures Shortest(Octet(b), "0123456789")
  {
    hide Digits;
    DigitsCase(b, 10, false);
    DecimalOnly(b);
  }

  lemma DottedCanonical(x: uint16, y: uint16)
    ensures Canonical(Dotted(x, y)) && '.' in Dotted(x, y) && IsField(Dotted(x, y), ':')
  {
    hide Octet, ReadOctet, Shortest, SplitOn;
    var a: uint8, b: uint8, c: uint8, d: uint8 := x / 0x100, x % 0x100, y / 0x100, y % 0x100;
    OctetRead(a); OctetRead(b); OctetRead(c); OctetRead(d);
    OctetShortest(a); OctetShortest(b); OctetShortest(c); OctetShortest(d);
    SplitFour(Octet(a), Octet(b), Octet(c), Octet(d));
    DottedRead(x, y);
  }

  lemma FieldsCanonical(g: Address)
    ensures |Fields(g)| == if UsesIpv4(g) then 7 else 8
    ensures forall f :: f in Fields(g) ==> Canonical(f) && IsField(f, ':')
    ensures forall i :: 0 <= i < |Fields(g)| ==> ('.' in Fields(g)[i] <==> i == 6 && UsesIpv4(g))
  {
    hide Hex, Dotted, SplitOn, Shortest, UsesIpv4, IsField;
    DottedCanonical(g[6], g[7]);
    forall i | 0 <= i < Range(g) ensures Canonical(Fields(g)[i]) && '.' !in Fields(g)[i] && IsField(Fields(g)[i], ':') {
      HexShortest(g[i]); HexRead(g[i]);
    }
  }

  lemma SideFields(fs: seq<string>)
    requires forall i :: 0 <= i < |fs| ==> IsField(fs[i], ':')
    ensures FieldsOf(Join(fs, ':')) == fs && Plain(Join(fs, ':'))
  {
    hide Plain, IsField, SplitOn;
    JoinIsPlain(fs);
    if fs != [] { SplitJoin(fs, ':'); }
  }

  /** The text has exactly the fields that are not elided, and "::" in the place of the others. */
  lemma TextFields(g: Address, pos: int, len: nat)
    requires -1 <= pos && (pos >= 0 ==> len > 0 && pos + len <= Range(g))
    ensures var t, fs := Text(g, pos, len), Fields(g);
            var k := FindElision(t);
            if pos == -1 then k == -1 && FieldsOf(t) == fs
            else k >= 0 && pos + len <= |fs| && FieldsOf(t[..k]) == fs[..pos] && FieldsOf(t[k + 2..]) == fs[pos + len..]
  {
    hide Canonical, Plain, FieldsOf, Join, Fields, IsField, FindElision;
    FieldsCanonical(g);
    var t, fs := Text(g, pos, len), Fields(g);
    if pos == -1 {
      SideFields(fs);
      FirstElision(t, "");
    } else {
      SideFields(fs[..pos]); SideFields(fs[pos + len..]);
      var u, v := Join(fs[..pos], ':'), Join(fs[pos + len..], ':');
      FirstElision(u, v);
      assert t == u + "::" + v && t[..|u|] == u && t[|u| + 2..] == v;
    }
  }

  lemma {:induction false} DotInJoin(fs: seq<string>)
    ensures '.' in Join(fs, ':') <==> exists i :: 0 <= i < |fs| && '.' in fs[i]
  {
    if |fs| > 1 {
      DotInJoin(fs[1..]);
      if i :| 0 <= i < |fs| && '.' in fs[i] { if i > 0 { assert fs[1..][i - 1] == fs[i]; } }
      assert Join(fs, ':') == fs[0] + [':'] + Join(fs[1..], ':');
    }
  }

  /** Dots, and with them the IPv4 form, only for the addresses that use it. */
  lemma TextDots(g: Address, pos: int, len: nat)
    requires -1 <= pos && (pos >= 0 ==> len > 0 && pos + len <= Range(g))
    ensures '.' in Text(g, pos, len) <==> UsesIpv4(g)
  {
    hide Canonical, Join, IsField, Fields, UsesIpv4;
    FieldsCanonical(g);
    var fs := Fields(g);
    if pos == -1 {
      DotInJoin(fs);
    } else {
      DotInJoin(fs[..pos]); DotInJoin(fs[pos + len..]);
      if UsesIpv4(g) { assert fs[pos + len..][6 - (pos + len)] == fs[6]; }
    }
    if UsesIpv4(g) { assert '.' in fs[6]; }
  }

  /** What the form of the text says about the address, and the run that is elided. */
  lemma TextForm(g: Address, pos: int, len: nat)
    requires -1 <= pos && (pos >= 0 ==> len > 0 && pos + len <= Range(g))
    ensures var t := Text(g, pos, len);
            && ('.' in t <==> UsesIpv4(g))
            && (forall f :: f in Printed(t) ==> Canonical(f))
            && (FindElision(t) == -1 <==> pos == -1)
            && (pos >= 0 ==> |FieldsOf(t[..FindElision(t)])| == pos)
            && |Printed(t)| == (if UsesIpv4(g) then 7 else 8) - (if pos >= 0 then len else 0)
  {
    hide Canonical, Join, IsField, Fields, UsesIpv4, FieldsOf, FindElision, Text;
    TextDots(g, pos, len);
    TextFields(g, pos, len);
    FieldsCanonical(g);
  }

  // ----- The printers -----

  /** *p++ = c */
  method PutChar(buf: array<char>, p: nat, c: char) returns (p': nat)
    requires p < buf.Length
    modifies buf
    ensures p' == p + 1 && buf[..p'] == old(buf[..p]) + [c]
  {
    buf[p] := c;
    return p + 1;
  }

  method HexBytePack(buf: array<char>, p: nat, byte: uint8) returns (p': nat)
    requires p + 2 <= buf.Length
    modifies buf
    ensures p' == p + 2 && buf[..p'] == old(buf[..p]) + [DigitChar(byte / 16, true), DigitChar(byte % 16, true)]
  {
    p' := PutChar(buf, p, DigitChar(byte / 16, true));
    p' := PutChar(buf, p', DigitChar(byte % 16, true));
  }

  /** The digits of a group from those of its bytes. */
  lemma HexBytes(w: uint16)
    ensures var hi: uint8, lo: uint8 := w / 0x100, w % 0x100;
            var low := [DigitChar(lo / 16, true), DigitChar(lo % 16, true)];
            Hex(w) == if hi > 0xF then [DigitChar(hi / 16, true), DigitChar(hi % 16, true)] + low
                      else if hi > 0 then [DigitChar(hi, true)] + low
                      else if lo > 0xF then low else [DigitChar(lo, true)]
  {
    hide DigitChar;
    var hi: uint8, lo: uint8 := w / 0x100, w % 0x100;
    assert w / 16 == hi * 16 + lo / 16 && w % 16 == lo % 16;
    assert w / 16 / 16 == hi && w / 16 % 16 == lo / 16;
    DigitsSnoc(w, 16, true);
    DigitsSnoc(w / 16, 16, true);
    DigitsSnoc(w / 16 / 16, 16, true);
    DigitsSnoc(w / 16 / 16 / 16, 16, true);
  }

  lemma DigitsSnoc(n: nat, base: nat, small: bool)
    requires 2 <= base <= 16
    ensures n < base ==> Digits(n, base, small) == [DigitChar(n, small)]
    ensures n >= base ==> Digits(n, base, small) == Digits(n / base, base, small) + [DigitChar(n % base, small)]
  {
  }

  /** "hex u16 without leading 0s" */
  method PutGroup(buf: array<char>, p: nat, word: uint16) returns (p': nat)
    requires p + |Hex(word)| <= buf.Length
    modifies buf
    ensures p' == p + |Hex(word)| && buf[..p'] == old(buf[..p]) + Hex(word)
  {
    hide Hex, DigitChar;
    HexBytes(word);
    var hi: uint8, lo: uint8 := word / 0x100, word % 0x100;
    p' := p;
    if hi != 0 {
      if hi > 0x0F {
        p' := HexBytePack(buf, p', hi);
      } else {
        p' := PutChar(buf, p', DigitChar(hi, true));
      }
      p' := HexBytePack(buf, p', lo);
    } else if lo > 0x0F {
      p' := HexBytePack(buf, p', lo);
    } else {
      p' := PutChar(buf, p', DigitChar(lo, true));
    }
  }

  /** An octet as ip4_string prints it, perhaps with leading zeros. */
  function OctetText(b: uint8, zeros: bool): string {
    (if !zeros || b >= 100 then "" else if b >= 10 then "0" else "00") + Octet(b)
  }

  /** The first n octets, each but the fourth with its dot. */
  function Ip4Part(octets: seq<uint8>, zeros: bool, n: nat): string
    requires n <= |octets|
  {
    if n == 0 then "" else Ip4Part(octets, zeros, n - 1) + OctetText(octets[n - 1], zeros) + if n < 4 then "." else ""
  }

  /** The octets in the order the format asks for; 'h' means the order of a little-endian machine. */
  function Ip4Order(addr: seq<uint8>, fmt: cstring): seq<uint8>
    requires |addr| == 4 && |fmt| >= 2
  {
    if CharAt(fmt, 2) == 'h' || CharAt(fmt, 2) == 'l' then [addr[3], addr[2], addr[1], addr[0]] else addr
  }

  lemma DecLength(b: uint8)
    ensures |Dec(b)| == |Octet(b)| == (if b < 10 then 1 else if b < 100 then 2 else 3) && Reverse(Dec(b)) == Octet(b)
  {
    DecIsBackwards(b, false);
    ReverseBackwards(b, 10, false);
    OneMore(b, 10, false); OneMore(b / 10, 10, false); OneMore(b / 10 / 10, 10, false);
  }

  lemma OrderAt(addr: seq<uint8>, fmt: cstring, i: nat)
    requires |addr| == 4 && |fmt| >= 2 && i < 4
    ensures |Ip4Order(addr, fmt)| == 4
    ensures Ip4Order(addr, fmt)[i] == addr[if CharAt(fmt, 2) == 'h' || CharAt(fmt, 2) == 'l' then 3 - i else i]
  {
  }

  lemma PartMore(octets: seq<uint8>, zeros: bool, n: nat, before: string)
    requires n < |octets|
    ensures before + Ip4Part(octets, zeros, n) + OctetText(octets[n], zeros) + (if n < 3 then "." else "")
         == before + Ip4Part(octets, zeros, n + 1)
    ensures before + Ip4Part(octets, zeros, 0) == before
  {
    hide OctetText;
    var dot := if n < 3 then "." else "";
    assert Ip4Part(octets, zeros, n + 1) == Ip4Part(octets, zeros, n) + OctetText(octets[n], zeros) + dot;
    Group4(before, Ip4Part(octets, zeros, n), OctetText(octets[n], zeros), dot);
  }

  lemma Group4(a: string, b: string, c: string, d: string)
    ensures a + b + c + d == a + (b + c + d)
  {
  }

  lemma OctetTextRead(b: uint8, zeros: bool)
    ensures var s := OctetText(b, zeros);
            ReadOctet(s) == Some(b) && IsField(s, '.') && if zeros then |s| == 3 else Shortest(s, "0123456789")
  {
    hide Octet, Value, AllDigits, Shortest;
    OctetRead(b); OctetShortest(b); DecLength(b);
    var s: cstring := Octet(b);
    LeadingZero(s, 10);
    LeadingZero("0" + s, 10);
    assert "0" + ("0" + s) == "00" + s && "" + s == s;
  }

  /** Four octets, each of its value and length, in order. */
  lemma Ip4IsRead(octets: seq<uint8>, zeros: bool)
    requires |octets| == 4
    ensures var parts := SplitOn(Ip4Part(octets, zeros, 4), '.');
            && |parts| == 4
            && forall i :: 0 <= i < 4 ==>
                 ReadOctet(parts[i]) == Some(octets[i]) && if zeros then |parts[i]| == 3 else Shortest(parts[i], "0123456789")
  {
    hide OctetText, ReadOctet, Shortest, SplitOn;
    OctetTextRead(octets[0], zeros); OctetTextRead(octets[1], zeros); OctetTextRead(octets[2], zeros); OctetTextRead(octets[3], zeros);
    var a, b, c, d := OctetText(octets[0], zeros), OctetText(octets[1], zeros), OctetText(octets[2], zeros), OctetText(octets[3], zeros);
    assert Ip4Part(octets, zeros, 1) == a + ".";
    assert Ip4Part(octets, zeros, 2) == a + "." + b + ".";
    assert Ip4Part(octets, zeros, 3) == a + "." + b + "." + c + ".";
    assert Ip4Part(octets, zeros, 4) == a + "." + b + "." + c + "." + d;
    SplitFour(a, b, c, d);
  }

  method Ip4String(buf: array<char>, p: nat, addr: seq<uint8>, fmt: cstring) returns (p': nat)
    requires |addr| == 4 && |fmt| >= 2 && p + 16 <= buf.Length
    modifies buf
    ensures p <= p' <= p + 15 && buf[..p'] == old(buf[..p]) + Ip4Part(Ip4Order(addr, fmt), fmt[0] == 'i', 4)
    ensures buf[p'] == '\0'
    ensures var parts := SplitOn(buf[p..p'], '.');
            && |parts| == 4
            && forall i :: 0 <= i < 4 ==>
                 && ReadOctet(parts[i]) == Some(addr[if CharAt(fmt, 2) == 'h' || CharAt(fmt, 2) == 'l' then 3 - i else i])
                 && (if fmt[0] == 'i' then |parts[i]| == 3 else Shortest(parts[i], "0123456789"))
  {
    hide Octet, Ip4Part, Ip4Order, OctetText, SplitOn, ReadOctet, Shortest;
    ghost var order, before := Ip4Order(addr, fmt), buf[..p];
    var leadingZeros := fmt[0] == 'i';
    var index, step := 0, 1;
    match CharAt(fmt, 2) {
      case 'h' => index, step := 3, -1;
      case 'l' => index, step := 3, -1;
      case _ => index, step := 0, 1;
    }
    OrderAt(addr, fmt, 0);
    PartMore(order, leadingZeros, 0, before);
    p' := p;
    for i := 0 to 4
      invariant p <= p' <= p + 4 * i && (i == 4 ==> p' <= p + 15)
      invariant buf[..p'] == before + Ip4Part(order, leadingZeros, i)
      invariant step == (if CharAt(fmt, 2) == 'h' || CharAt(fmt, 2) == 'l' then -1 else 1)
      invariant index == (if step == -1 then 3 - i else i)
    {
      OrderAt(addr, fmt, i);
      PartMore(order, leadingZeros, i, before);
      p' := PutOctet(buf, p', addr[index], leadingZeros);
      if i < 3 {
        p' := PutChar(buf, p', '.');
      } else {
        assert buf[..p'] + "" == buf[..p'];
      }
      index := index + step;
    }
    buf[p'] := '\0';
    Ip4IsRead(order, leadingZeros);
    OrderAt(addr, fmt, 1); OrderAt(addr, fmt, 2); OrderAt(addr, fmt, 3);
    assert buf[p..p'] == buf[..p'][p..];
  }

  method PutOctet(buf: array<char>, p: nat, b: uint8, leadingZeros: bool) returns (p': nat)
    requires p + 3 <= buf.Length
    modifies buf
    ensures p <= p' <= p + 3 && buf[..p'] == old(buf[..p]) + OctetText(b, leadingZeros)
  {
    hide Octet, Dec, Reverse, Spliced;
    DecLength(b);
    var temp := new char[3]; // holds the octet in reverse order
    ghost var garbage := temp[..];
    var digits := PutDecTrunc8(temp, 0, b);
    SplicedFront(garbage, Dec(b), temp[..]);
    p' := p;
    if leadingZeros {
      if digits < 3 {
        p' := PutChar(buf, p', '0');
      }
      if digits < 2 {
        p' := PutChar(buf, p', '0');
      }
    }
    p' := PutBackwards(buf, p', temp, digits);
  }

  /** "reverse the digits in the quad" */
  method PutBackwards(buf: array<char>, p: nat, temp: array<char>, n: nat) returns (p': nat)
    requires temp != buf && n <= temp.Length && p + n <= buf.Length
    modifies buf
    ensures p' == p + n && buf[..p'] == old(buf[..p]) + Reverse(temp[..n])
  {
    hide Reverse;
    p' := p;
    var digits := n;
    while digits > 0
      invariant 0 <= digits <= n && p' == p + n - digits
      invariant buf[..p'] == old(buf[..p]) + Reverse(temp[..n])[..n - digits]
    {
      digits := digits - 1;
      p' := PutChar(buf, p', temp[digits]);
    }
  }

  /** What has been printed when the first i groups have been dealt with. */
  function Upto(g: Address, pos: int, len: nat, i: nat): string
    requires -1 <= pos && i <= 8 && (pos >= 0 ==> i <= pos || pos + len <= i)
  {
    if pos == -1 || i <= pos then Join(HexFields(g[..i]), ':')
    else Join(HexFields(g[..pos]), ':') + "::" + Join(HexFields(g[pos + len..i]), ':')
  }

  lemma HexSnoc(groups: seq<uint16>, w: uint16)
    ensures HexFields(groups + [w]) == HexFields(groups) + [Hex(w)]
  {
  }

  /** One more group, after a colon if one is needed. */
  lemma UptoMore(g: Address, pos: int, len: nat, i: nat)
    requires -1 <= pos && i < 8 && pos != i && (pos >= 0 ==> i < pos || pos + len <= i)
    ensures Upto(g, pos, len, i + 1) == Upto(g, pos, len, i) + (if i > 0 && !(pos >= 0 && i == pos + len) then ":" else "") + Hex(g[i])
  {
    hide Hex, Join, HexFields;
    var elided := pos >= 0 && i > pos;
    var start := if elided then pos + len else 0;
    assert g[start..i + 1] == g[start..i] + [g[i]];
    HexSnoc(g[start..i], g[i]);
    JoinSnoc(HexFields(g[start..i]), Hex(g[i]), ':');
    assert g[0..i] == g[..i] && g[0..i + 1] == g[..i + 1];
    if elided {
      var front := Join(HexFields(g[..pos]), ':') + "::";
      Group4(front, Join(HexFields(g[start..i]), ':'), if i > start then ":" else "", Hex(g[i]));
    }
  }

  /** The elided groups. */
  lemma UptoElided(g: Address, pos: nat, len: nat)
    requires 0 < len && pos + len <= 8
    ensures Upto(g, pos, len, pos + len) == Upto(g, pos, len, pos) + "::"
  {
    hide Hex;
    assert g[pos + len..pos + len] == [] && HexFields([]) == [];
    var front := Join(HexFields(g[..pos]), ':') + "::";
    assert front + "" == front;
  }

  /** The IPv4 address at the end. */
  lemma UptoEnd(g: Address, pos: int, len: nat)
    requires -1 <= pos && (pos >= 0 ==> 0 < len && pos + len <= Range(g))
    ensures Text(g, pos, len) == Upto(g, pos, len, Range(g)) +
              if UsesIpv4(g) then (if pos >= 0 && pos + len == 6 then "" else ":") + Dotted(g[6], g[7]) else ""
  {
    hide Hex, Join, HexFields, Dotted, UsesIpv4, Fields;
    var range, dotted := Range(g), Dotted(g[6], g[7]);
    var start := if pos >= 0 then pos + len else 0;
    if pos >= 0 { SplitFields(g, pos, len); } else { SplitFields(g, 0, 0); assert Fields(g)[0..] == Fields(g); }
    var fs := HexFields(g[start..range]);
    assert g[0..range] == g[..range];
    JoinSnoc(fs, dotted, ':');
    assert fs + [] == fs;
    var front := if pos >= 0 then Join(HexFields(g[..pos]), ':') + "::" else "";
    Group4(front, Join(fs, ':'), if start < range then ":" else "", dotted);
    assert front + Join(fs, ':') == Upto(g, pos, len, range);
  }

  lemma DottedIs(x: uint16, y: uint16)
    ensures Ip4Part([x / 0x100, x % 0x100, y / 0x100, y % 0x100], false, 4) == Dotted(x, y)
  {
    hide Octet;
    var a: uint8, b: uint8, c: uint8, d: uint8 := x / 0x100, x % 0x100, y / 0x100, y % 0x100;
    var s := [a, b, c, d];
    assert OctetText(a, false) == Octet(a) && OctetText(b, false) == Octet(b);
    assert OctetText(c, false) == Octet(c) && OctetText(d, false) == Octet(d);
    hide OctetText;
    assert Ip4Part(s, false, 1) == Octet(a) + ".";
    assert Ip4Part(s, false, 2) == Octet(a) + "." + Octet(b) + ".";
    assert Ip4Part(s, false, 3) == Octet(a) + "." + Octet(b) + "." + Octet(c) + ".";
  }

  /** "emit address": the groups. */
  method PutGroups(buf: array<char>, g: Address, range: nat, colonpos: int, longest: nat) returns (p: nat, needcolon: bool)
    requires buf.Length == 46 && range <= 8 && -1 <= colonpos
    requires colonpos >= 0 ==> longest >= 2 && colonpos + longest <= range
    modifies buf
    ensures p <= 5 * range && (range > 0 ==> p <= 5 * range - 1)
    ensures buf[..p] == Upto(g, colonpos, longest, range)
    ensures needcolon == (range > 0 && !(colonpos >= 0 && range == colonpos + longest))
  {
    hide Hex, Upto;
    needcolon := false;
    p := 0;
    var i := 0;
    Nothing(g, colonpos, longest);
    while i < range
      invariant 0 <= i <= range && (colonpos >= 0 ==> i <= colonpos || colonpos + longest <= i)
      invariant needcolon == (i > 0 && !(colonpos >= 0 && i == colonpos + longest))
      invariant if i == 0 then p == 0 else p <= 5 * i - 1
      invariant buf[..p] == Upto(g, colonpos, longest, i)
    {
      if i == colonpos {
        UptoElided(g, colonpos, longest);
        ghost var before := buf[..p];
        if needcolon || i == 0 {
          p := PutChar(buf, p, ':');
        }
        p := PutChar(buf, p, ':');
        assert buf[..p] == before + "::";
        needcolon := false;
        i := i + longest;
        continue;
      }
      UptoMore(g, colonpos, longest, i);
      HexLength(g[i]);
      if needcolon {
        p := PutChar(buf, p, ':');
        needcolon := false;
      } else {
        assert buf[..p] + "" == buf[..p];
      }
      p := PutGroup(buf, p, g[i]);
      needcolon := true;
      i := i + 1;
    }
  }

  /** ip6_compressed_string: the text, of at most 45 characters, and a NUL. */
  method Ip6CompressedString(buf: array<char>, g: Address) returns (p: nat, ghost pos: int, ghost len: nat)
    requires buf.Length == 46
    modifies buf
    ensures p <= 45 && buf[p] == '\0' && ReadAddress(buf[..p]) == Some(g)
    ensures '.' in buf[..p] <==>
              || g[..6] == [0, 0, 0, 0, 0, 0xFFFF]
              || ((g[4] == 0 || g[4] == 0x0200) && g[5] == 0x5EFE)
    ensures Range(g) == (if '.' in buf[..p] then 6 else 8) && BestRun(g, Range(g), pos, len)
    ensures buf[..p] == Text(g, pos, len)
    ensures FindElision(buf[..p]) == -1 <==> pos == -1
    ensures pos >= 0 ==> |FieldsOf(buf[..p][..FindElision(buf[..p])])| == pos
    ensures |Printed(buf[..p])| == (if '.' in buf[..p] then 7 else 8) - (if pos >= 0 then len else 0)
    ensures forall f :: f in Printed(buf[..p]) ==> Canonical(f)
  {
    WhichUseIpv4(g);
    hide UsesIpv4, Text, ReadAddress, FindElision, FieldsOf, Canonical, Printed, BestRun;
    var colonpos, longest := FindRun(g, Range(g));
    pos, len := colonpos, longest;
    Zeros(g, Range(g), colonpos, longest);
    p := EmitAddress(buf, g, colonpos, longest);
    TextIsRead(g, colonpos, longest);
    TextForm(g, colonpos, longest);
  }

  /** "emit address", with the IPv4 address at its end and the NUL. */
  method EmitAddress(buf: array<char>, g: Address, colonpos: int, longest: nat) returns (p: nat)
    requires buf.Length == 46 && -1 <= colonpos && (colonpos >= 0 ==> longest >= 2 && colonpos + longest <= Range(g))
    modifies buf
    ensures p <= 45 && buf[..p] == Text(g, colonpos, longest) && buf[p] == '\0'
  {
    hide Hex, Join, HexFields, Dotted, UsesIpv4, Text, Upto, Octet, Ip4Part, SplitOn, ReadOctet, Shortest;
    var useIPv4, range := UsesIpv4(g), Range(g);
    var needcolon;
    p, needcolon := PutGroups(buf, g, range, colonpos, longest);
    UptoEnd(g, colonpos, longest);
    if useIPv4 {
      if needcolon {
        p := PutChar(buf, p, ':');
      }
      DottedIs(g[6], g[7]);
      p := Ip4String(buf, p, [g[6] / 0x100, g[6] % 0x100, g[7] / 0x100, g[7] % 0x100], "I4");
    }
    buf[p] := '\0';
  }

  lemma WhichUseIpv4(g: Address)
    ensures UsesIpv4(g) <==> g[..6] == [0, 0, 0, 0, 0, 0xFFFF] || ((g[4] == 0 || g[4] == 0x0200) && g[5] == 0x5EFE)
  {
    if g[..6] == [0, 0, 0, 0, 0, 0xFFFF] {
      assert g[0] == g[..6][0] && g[1] == g[..6][1] && g[2] == g[..6][2] && g[3] == g[..6][3] && g[4] == g[..6][4] && g[5] == g[..6][5];
    }
  }

  lemma Nothing(g: Address, pos: int, len: nat)
    requires -1 <= pos
    ensures Upto(g, pos, len, 0) == ""
  {
  }

  lemma Zeros(g: Address, range: nat, pos: int, len: nat)
    requires range <= 8 && BestRun(g, range, pos, len)
    ensures -1 <= pos && (pos >= 0 ==> len >= 2 && pos + len <= range && forall k :: pos <= k < pos + len ==> g[k] == 0)
  {
  }
}
