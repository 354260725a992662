/** `string()` and the `%c` case of `vsnprintf`, stack_and_service/lib/vsprintf.c. */
module Text {
  import opened CTypes
  import opened Output

  // ----- %s -----

  /** strnlen(s, precision): a negative precision is a huge size_t. */
  function Clip(s: cstring, precision: int16): (t: string)
    ensures t <= s && (precision >= 0 ==> |t| <= precision)
  {
    if 0 <= precision < |s| then s[..precision] else s
  }

  /** How often `while (len < w--)` runs its body and what it leaves in w. */
  function FillCount(len: nat, w: int16): nat {
    Max(w - len, 0)
  }

  function FillAfter(len: nat, w: int16): int16 {
    if w > len then len - 1 else ToInt16(w - 1)
  }

  function StringText(s: cstring, left: bool, width: int16, precision: int16): string {
    var t := Clip(s, precision);
    var w := if left then width else FillAfter(|t|, width);
    (if left then "" else Repeat(' ', FillCount(|t|, width))) + t + Repeat(' ', FillCount(|t|, w))
  }

  /** The text is the clipped string filled up to the width on the requested side; the exception
      is the lowest 16-bit width, which wraps to the highest unless the text is left-justified. */
  lemma StringTextIsLayout(s: cstring, left: bool, width: int16, precision: int16)
    ensures var t := Clip(s, precision);
            var fill := Repeat(' ', Max(width - |t|, 0));
            StringText(s, left, width, precision) == (if left then t + fill else fill + t)
            <==> left || width > -0x8000 || |t| >= 0x7fff
  {
    StringTextParts(s, left, width, precision);
    var t := Clip(s, precision);
    FillIs(|t|, width);
    hide StringText, Clip, Repeat, FillCount, FillAfter;
    Filled(t, FillCount(|t|, width), FillCount(|t|, FillAfter(|t|, width)));
    NoFill(t, FillCount(|t|, width));
  }

  lemma StringTextParts(s: cstring, left: bool, width: int16, precision: int16)
    ensures var t := Clip(s, precision);
            StringText(s, left, width, precision) ==
              if left then "" + t + Repeat(' ', FillCount(|t|, width))
              else Repeat(' ', FillCount(|t|, width)) + t + Repeat(' ', FillCount(|t|, FillAfter(|t|, width)))
  {
    hide Clip, Repeat, FillCount, FillAfter;
  }

  /** The second filling loop of a right-justified text runs only after the wrap of the lowest width. */
  lemma FillIs(len: nat, width: int16)
    ensures FillCount(len, width) == Max(width - len, 0)
    ensures FillCount(len, FillAfter(len, width)) == 0 <==> width > -0x8000 || len >= 0x7fff
  {
  }

  lemma Filled(t: string, n: nat, m: nat)
    ensures Repeat(' ', n) + t + Repeat(' ', m) == Repeat(' ', n) + t <==> m == 0
  {
    hide Repeat;
    if m == 0 {
      assert Repeat(' ', m) == "";
    } else {
      assert |Repeat(' ', n) + t + Repeat(' ', m)| > |Repeat(' ', n) + t|;
    }
  }

  lemma NoFill(t: string, n: nat)
    ensures "" + t + Repeat(' ', n) == t + Repeat(' ', n)
  {
    hide Repeat;
    assert "" + t == t;
  }

  method Fill(buf: array<char>, end: nat, str: nat, len: nat, w0: int16, ghost b: seq<char>, ghost at: nat, ghost done: string)
    returns (str': nat, w: int16)
    requires Fits(buf.Length, end, str + FillCount(len, w0)) && str == at + |done| && Shown(b, end, at, done, buf[..])
    modifies buf
    ensures w == FillAfter(len, w0) && str' == str + FillCount(len, w0)
    ensures Shown(b, end, at, done + Repeat(' ', FillCount(len, w0)), buf[..])
  {
    hide Shown, Repeat;
    ghost var n := 0;
    w, str' := w0, str;
    assert done + Repeat(' ', 0) == done;
    while len < w
      invariant str' == str + n && Shown(b, end, at, done + Repeat(' ', n), buf[..])
      invariant n + FillCount(len, w) == FillCount(len, w0) && FillAfter(len, w) == FillAfter(len, w0)
    {
      str' := Put(buf, end, str', ' ', b, at, done + Repeat(' ', n));
      RepeatMore(done, ' ', n);
      w, n := w - 1, n + 1;
    }
    w := ToInt16(w - 1);
  }

  /** Sends a text that is already in memory, character by character. */
  method PutChars(buf: array<char>, end: nat, str: nat, t: string, ghost b: seq<char>, ghost at: nat, ghost done: string)
    returns (str': nat)
    requires Fits(buf.Length, end, str + |t|) && str == at + |done| && Shown(b, end, at, done, buf[..])
    modifies buf
    ensures str' == str + |t| && Shown(b, end, at, done + t, buf[..])
  {
    hide Shown;
    str' := str;
    assert done + t[..0] == done;
    for i := 0 to |t|
      invariant str' == str + i && Shown(b, end, at, done + t[..i], buf[..])
    {
      assert done + t[..i] + [t[i]] == done + t[..i + 1];
      str' := Put(buf, end, str', t[i], b, at, done + t[..i]);
    }
    assert t[..|t|] == t;
  }

  /** `string()` */
  method PutString(buf: array<char>, end: nat, str: nat, s: cstring, left: bool, width: int16, precision: int16,
                   ghost b: seq<char>, ghost at: nat, ghost done: string) returns (str': nat)
    requires Fits(buf.Length, end, str + |StringText(s, left, width, precision)|) && str == at + |done| && Shown(b, end, at, done, buf[..])
    modifies buf
    ensures str' == str + |StringText(s, left, width, precision)|
    ensures Shown(b, end, at, done + StringText(s, left, width, precision), buf[..])
  {
    hide Shown, Repeat, FillCount, FillAfter, Clip;
    var t, w := Clip(s, precision), width;
    ghost var lead := "";
    str' := str;
    assert done + lead == done;
    if !left {
      lead := Repeat(' ', FillCount(|t|, w));
      str', w := Fill(buf, end, str', |t|, w, b, at, done);
    }
    str' := PutChars(buf, end, str', t, b, at, done + lead);
    ghost var tail := Repeat(' ', FillCount(|t|, w));
    str', w := Fill(buf, end, str', |t|, w, b, at, done + lead + t);
    assert done + lead + t + tail == done + (lead + t + tail);
  }

  // ----- %c -----

  /** How often `while (--w > 0)` runs its body, and the value of w after it. */
  function BeforeCount(w: int16): nat {
    if w == -0x8000 then 0x7fff else Max(w - 1, 0)
  }

  function BeforeAfter(w: int16): int16 {
    if -0x8000 < w < 1 then w - 1 else 0
  }

  function CharText(c: char, left: bool, width: int16): string {
    var w := if left then width else BeforeAfter(width);
    (if left then "" else Repeat(' ', BeforeCount(width))) + [c] + Repeat(' ', BeforeCount(w))
  }

  /** One character filled up to the width on the requested side; the exceptions are the lowest
      16-bit width, which wraps, and the next one unless the text is left-justified. */
  lemma CharTextIsLayout(c: char, left: bool, width: int16)
    ensures var fill := Repeat(' ', Max(width - 1, 0));
            CharText(c, left, width) == (if left then [c] + fill else fill + [c])
            <==> width > -0x8000 && (left || width > -0x7fff)
  {
    CharTextParts(c, left, width);
    hide CharText, Repeat;
    var n, m := BeforeCount(width), BeforeCount(BeforeAfter(width));
    if left {
      NoFill([c], n);
      Filled([c], 0, n);
      assert Repeat(' ', 0) == "";
      if width == -0x8000 { assert |[c] + Repeat(' ', n)| > |[c] + Repeat(' ', 0)|; }
    } else {
      Filled([c], n, m);
      if width == -0x8000 { assert |Repeat(' ', n) + [c] + Repeat(' ', m)| > |Repeat(' ', 0) + [c]|; }
    }
  }

  lemma CharTextParts(c: char, left: bool, width: int16)
    ensures CharText(c, left, width) ==
              if left then "" + [c] + Repeat(' ', BeforeCount(width))
              else Repeat(' ', BeforeCount(width)) + [c] + Repeat(' ', BeforeCount(BeforeAfter(width)))
  {
    hide Repeat, BeforeCount, BeforeAfter;
  }

  method FillBefore(buf: array<char>, end: nat, str: nat, w0: int16, ghost b: seq<char>, ghost at: nat, ghost done: string)
    returns (str': nat, w: int16)
    requires Fits(buf.Length, end, str + BeforeCount(w0)) && str == at + |done| && Shown(b, end, at, done, buf[..])
    modifies buf
    ensures w == BeforeAfter(w0) && str' == str + BeforeCount(w0)
    ensures Shown(b, end, at, done + Repeat(' ', BeforeCount(w0)), buf[..])
  {
    hide Shown, Repeat;
    ghost var n := 0;
    w, str' := ToInt16(w0 - 1), str;
    assert done + Repeat(' ', 0) == done;
    while w > 0
      invariant 0 <= w || (w == w0 - 1 && n == 0)
      invariant w >= 0 ==> n + w == BeforeCount(w0)
      invariant str' == str + n && Shown(b, end, at, done + Repeat(' ', n), buf[..])
    {
      str' := Put(buf, end, str', ' ', b, at, done + Repeat(' ', n));
      RepeatMore(done, ' ', n);
      w, n := w - 1, n + 1;
    }
  }

  /** `case FORMAT_TYPE_CHAR` */
  method PutCharacter(buf: array<char>, end: nat, str: nat, c: char, left: bool, width: int16,
                      ghost b: seq<char>, ghost at: nat, ghost done: string) returns (str': nat)
    requires Fits(buf.Length, end, str + |CharText(c, left, width)|) && str == at + |done| && Shown(b, end, at, done, buf[..])
    modifies buf
    ensures str' == str + |CharText(c, left, width)|
    ensures Shown(b, end, at, done + CharText(c, left, width), buf[..])
  {
    hide Shown, Repeat, BeforeCount, BeforeAfter;
    var w := width;
    ghost var lead := "";
    str' := str;
    assert done + lead == done;
    if !left {
      lead := Repeat(' ', BeforeCount(w));
      str', w := FillBefore(buf, end, str', w, b, at, done);
    }
    str' := Put(buf, end, str', c, b, at, done + lead);
    ghost var tail := Repeat(' ', BeforeCount(w));
    str', w := FillBefore(buf, end, str', w, b, at, done + lead + [c]);
    assert done + lead + [c] + tail == done + (lead + [c] + tail);
  }
}
