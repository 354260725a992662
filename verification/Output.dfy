/** Bounded output: the idiom `if (buf < end) *buf = c; ++buf;` of vsprintf.c. */
module Output {
  import opened CTypes

  /** b' is b after the text t has been sent to positions at, at + 1, ...: what lies below
      `end` is stored, the rest is only counted. */
  ghost predicate Shown(b: seq<char>, end: nat, at: nat, t: string, b': seq<char>) {
    |b'| == |b|
    && forall i :: 0 <= i < |b| ==> b'[i] == if at <= i < at + |t| && i < end then t[i - at] else b[i]
  }

  /** Whatever is stored on the way to position upto lies within the array.  It need not hold all
      positions below `end`: callers may say that a buffer is larger than what they will fill. */
  predicate Fits(length: nat, end: nat, upto: nat) {
    end <= length || upto <= length
  }

  lemma ShownNothing(b: seq<char>, end: nat, at: nat)
    ensures Shown(b, end, at, "", b)
  {
  }

  function Repeat(c: char, n: nat): (s: string)
    ensures |s| == n
  {
    seq(n, _ => c)
  }

  lemma RepeatMore(s: string, c: char, n: nat)
    ensures s + Repeat(c, n) + [c] == s + Repeat(c, n + 1)
  {
  }

  // The senders below go on from a state in which `done` has been sent from position `at` on
  // into a buffer that held b.

  /** `if (buf < end) *buf = c; ++buf;` */
  method Put(buf: array<char>, end: nat, str: nat, c: char, ghost b: seq<char>, ghost at: nat, ghost done: string)
    returns (str': nat)
    requires Fits(buf.Length, end, str + 1) && str == at + |done| && Shown(b, end, at, done, buf[..])
    modifies buf
    ensures str' == str + 1 && Shown(b, end, at, done + [c], buf[..])
  {
    if str < end { buf[str] := c; }
    str' := str + 1;
  }

  /** How often `while (--w >= 0)` runs its body, for a 16-bit w: the lowest value wraps. */
  function PadCount(w: int16): nat {
    if w == -0x8000 then 0x8000 else Max(w, 0)
  }

  /** The value of w after that loop. */
  function PadAfter(w: int16): int16 {
    if -0x8000 < w < 0 then w - 1 else -1
  }

  /** `while (--w >= 0) { if (buf < end) *buf = c; ++buf; }` */
  method Pad(buf: array<char>, end: nat, str: nat, c: char, w: int16, ghost b: seq<char>, ghost at: nat, ghost done: string)
    returns (str': nat, w': int16)
    requires Fits(buf.Length, end, str + PadCount(w)) && str == at + |done| && Shown(b, end, at, done, buf[..])
    modifies buf
    ensures w' == PadAfter(w) && str' == str + PadCount(w)
    ensures Shown(b, end, at, done + Repeat(c, PadCount(w)), buf[..])
  {
    hide Shown, Repeat;
    ghost var n := 0;
    w', str' := ToInt16(w - 1), str;
    assert done + Repeat(c, 0) == done;
    while w' >= 0
      invariant -1 <= w' || (w' == w - 1 && n == 0)
      invariant w' >= -1 ==> n + w' + 1 == PadCount(w)
      invariant str' == str + n && Shown(b, end, at, done + Repeat(c, n), buf[..])
      decreases w'
    {
      str' := Put(buf, end, str', c, b, at, done + Repeat(c, n));
      RepeatMore(done, c, n);
      w', n := ToInt16(w' - 1), n + 1;
    }
  }
}
