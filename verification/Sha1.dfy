/** The SHA-1 compression of stack_and_service/lib/sha1.c.  The specification is that of FIPS 180-4,
    section 6.1.2: an 80-word schedule and five registers that shift places.  The code keeps only
    the last 16 words, never moves a register but renames them, and rewrites two of the functions. */
module Sha1 {

  // ----- FIPS 180-4 -----

  function Rol(x: bv32, n: bv6): bv32
    requires 0 < n < 32
  {
    (x << n) | (x >> (32 - n))
  }

  function Ch(x: bv32, y: bv32, z: bv32): bv32 {
    (x & y) ^ (!x & z)
  }

  function Parity(x: bv32, y: bv32, z: bv32): bv32 {
    x ^ y ^ z
  }

  function Maj(x: bv32, y: bv32, z: bv32): bv32 {
    (x & y) ^ (x & z) ^ (y & z)
  }

  /** Section 4.1.1. */
  function F(t: nat, x: bv32, y: bv32, z: bv32): bv32 {
    if t < 20 then Ch(x, y, z) else if t < 40 then Parity(x, y, z) else if t < 60 then Maj(x, y, z) else Parity(x, y, z)
  }

  /** Section 4.2.1. */
  function K(t: nat): bv32 {
    if t < 20 then 0x5a827999 else if t < 40 then 0x6ed9eba1 else if t < 60 then 0x8f1bbcdc else 0xca62c1d6
  }

  function Xor4(w: bv32, x: bv32, y: bv32, z: bv32): bv32 {
    w ^ x ^ y ^ z
  }

  /** Word t of a block of 64 bytes, most significant byte first. */
  function M(data: seq<bv8>, t: nat): bv32
    requires |data| == 64 && t < 16
  {
    (data[4 * t] as bv32 << 24) | (data[4 * t + 1] as bv32 << 16) | (data[4 * t + 2] as bv32 << 8) | data[4 * t + 3] as bv32
  }

  /** The message schedule, step 1 of section 6.1.2. */
  function W(data: seq<bv8>, t: nat): bv32
    requires |data| == 64
  {
    if t < 16 then M(data, t)
    else Rol(Xor4(W(data, t - 3), W(data, t - 8), W(data, t - 14), W(data, t - 16)), 1)
  }

  datatype State = State(a: bv32, b: bv32, c: bv32, d: bv32, e: bv32)

  /** Addition modulo 2^32. */
  function Sum(x: bv32, y: bv32): bv32 {
    x + y
  }

  function Sum5(v: bv32, w: bv32, x: bv32, y: bv32, z: bv32): bv32 {
    v + w + x + y + z
  }

  /** One turn of step 3 of section 6.1.2. */
  function Round(t: nat, w: bv32, s: State): State {
    State(Sum5(Rol(s.a, 5), F(t, s.b, s.c, s.d), s.e, K(t), w), s.a, Rol(s.b, 30), s.c, s.d)
  }

  /** The registers after the first t turns, from hash value h. */
  function Rounds(data: seq<bv8>, h: State, t: nat): State
    requires |data| == 64
  {
    if t == 0 then h else Round(t - 1, W(data, t - 1), Rounds(data, h, t - 1))
  }

  function Plus(h: State, s: State): State {
    State(Sum(h.a, s.a), Sum(h.b, s.b), Sum(h.c, s.c), Sum(h.d, s.d), Sum(h.e, s.e))
  }

  /** Step 4 of section 6.1.2. */
  function Compress(data: seq<bv8>, h: State): State
    requires |data| == 64
  {
    Plus(h, Rounds(data, h, 80))
  }

  // ----- The code's forms -----

  function Ror(x: bv32, n: bv6): bv32
    requires 0 < n < 32
  {
    (x >> n) | (x << (32 - n))
  }

  lemma RorIsRol(x: bv32)
    ensures Ror(x, 2) == Rol(x, 30)
  {
  }

  lemma ChIs(x: bv32, y: bv32, z: bv32)
    ensures ((y ^ z) & x) ^ z == Ch(x, y, z)
  {
  }

  lemma ParityIs(x: bv32, y: bv32, z: bv32)
    ensures x ^ y ^ z == Parity(x, y, z)
  {
  }

  /** The two terms have no bit in common, so adding them does not carry. */
  lemma MajIs(x: bv32, y: bv32, z: bv32)
    ensures (x & y) + (z & (x ^ y)) == Maj(x, y, z)
  {
  }

  /** What SHA_ROUND leaves in E. */
  function Turn(e: bv32, input: bv32, a: bv32, f: bv32, k: bv32): bv32 {
    e + (input + Rol(a, 5) + f + k)
  }

  lemma TurnIs(e: bv32, w: bv32, a: bv32, f: bv32, k: bv32)
    ensures Turn(e, w, a, f, k) == Sum5(Rol(a, 5), f, e, k, w)
  {
    hide Rol;
  }

  lemma RoundIs(t: nat, w: bv32, s: State)
    ensures Round(t, w, s) == State(Turn(s.e, w, s.a, F(t, s.b, s.c, s.d), K(t)), s.a, Ror(s.b, 2), s.c, s.d)
  {
    hide F, K, Rol, Ror, Turn, Sum5;
    RorIsRol(s.b);
    TurnIs(s.e, w, s.a, F(t, s.b, s.c, s.d), K(t));
  }

  /** After t turns: the registers, by their current names, and the last 16 words of the schedule,
      each in the place of its number modulo 16. */
  ghost predicate At(data: seq<bv8>, h: State, t: nat, work: seq<bv32>, s: State)
    requires |data| == 64
  {
    && |work| == 16 && s == Rounds(data, h, t)
    && forall u :: 0 <= u < t <= u + 16 ==> work[u % 16] == W(data, u)
  }

  /** A new word takes the place of the one 16 back. */
  lemma Step(data: seq<bv8>, h: State, t: nat, before: seq<bv32>, work: seq<bv32>, s: State, input: bv32)
    requires |data| == 64 && At(data, h, t, before, s)
    requires |before| == 16 && work == before[t % 16 := input] && input == W(data, t)
    ensures At(data, h, t + 1, work, Round(t, input, s))
  {
    RoundsStep(data, h, t);
    hide Round, Rounds, W;
    forall u | 0 <= u < t + 1 <= u + 16 ensures work[u % 16] == W(data, u) {
      if u != t {
        OtherPlace(u, t);
        assert before[u % 16] == W(data, u);
      }
    }
  }

  lemma RoundsStep(data: seq<bv8>, h: State, t: nat)
    requires |data| == 64
    ensures Rounds(data, h, t + 1) == Round(t, W(data, t), Rounds(data, h, t))
  {
    hide Round, W;
  }

  lemma OtherPlace(u: nat, t: nat)
    requires u < t < u + 16
    ensures u % 16 != t % 16
  {
  }

  lemma FirstWords(data: seq<bv8>, h: State, t: nat, work: seq<bv32>, s: State)
    requires |data| == 64 && t < 16 && At(data, h, t, work, s)
    ensures |work| == 16 && M(data, t) == W(data, t)
  {
  }

  /** SHA_MIX */
  function Mix(work: seq<bv32>, t: nat): bv32
    requires |work| == 16
  {
    Rol(Xor4(work[(t + 13) % 16], work[(t + 8) % 16], work[(t + 2) % 16], work[t % 16]), 1)
  }

  /** The word due is mixed from the 16 that are kept, the oldest of which it replaces. */
  lemma MixIsNext(data: seq<bv8>, h: State, t: nat, work: seq<bv32>, s: State)
    requires |data| == 64 && t >= 16 && At(data, h, t, work, s)
    ensures |work| == 16 && Mix(work, t) == W(data, t)
  {
    hide Rounds, Rol, Xor4;
    assert (t + 13) % 16 == (t - 3) % 16 && (t + 8) % 16 == (t - 8) % 16 && (t + 2) % 16 == (t - 14) % 16;
    assert t % 16 == (t - 16) % 16;
  }

  // ----- The macros; E and B are the registers they assign to -----

  method T_0_15(t: nat, data: seq<bv8>, work: array<bv32>, ghost h: State, A: bv32, B: bv32, C: bv32, D: bv32, E: bv32)
    returns (B': bv32, E': bv32)
    requires 0 <= t < 16 && |data| == 64 && At(data, h, t, work[..], State(A, B, C, D, E))
    modifies work
    ensures At(data, h, t + 1, work[..], State(E', A, B', C, D))
  {
    hide At, Round, Rol, Ror, Turn, Mix, W, M;
    FirstWords(data, h, t, work[..], State(A, B, C, D, E));
    var input := M(data, t);
    work[t % 16] := input;
    E' := Turn(E, input, A, ((C ^ D) & B) ^ D, 0x5a827999);
    B' := Ror(B, 2);
    ChIs(B, C, D);
    Step(data, h, t, old(work[..]), work[..], State(A, B, C, D, E), input);
    RoundIs(t, input, State(A, B, C, D, E));
  }

  method T_16_19(t: nat, data: seq<bv8>, work: array<bv32>, ghost h: State, A: bv32, B: bv32, C: bv32, D: bv32, E: bv32)
    returns (B': bv32, E': bv32)
    requires 16 <= t < 20 && |data| == 64 && At(data, h, t, work[..], State(A, B, C, D, E))
    modifies work
    ensures At(data, h, t + 1, work[..], State(E', A, B', C, D))
  {
    hide At, Round, Rol, Ror, Turn, Mix, W, M;
    MixIsNext(data, h, t, work[..], State(A, B, C, D, E));
    var input := Mix(work[..], t);
    work[t % 16] := input;
    E' := Turn(E, input, A, ((C ^ D) & B) ^ D, 0x5a827999);
    B' := Ror(B, 2);
    ChIs(B, C, D);
    Step(data, h, t, old(work[..]), work[..], State(A, B, C, D, E), input);
    RoundIs(t, input, State(A, B, C, D, E));
  }

  method T_20_39(t: nat, data: seq<bv8>, work: array<bv32>, ghost h: State, A: bv32, B: bv32, C: bv32, D: bv32, E: bv32)
    returns (B': bv32, E': bv32)
    requires 20 <= t < 40 && |data| == 64 && At(data, h, t, work[..], State(A, B, C, D, E))
    modifies work
    ensures At(data, h, t + 1, work[..], State(E', A, B', C, D))
  {
    hide At, Round, Rol, Ror, Turn, Mix, W, M;
    MixIsNext(data, h, t, work[..], State(A, B, C, D, E));
    var input := Mix(work[..], t);
    work[t % 16] := input;
    E' := Turn(E, input, A, B ^ C ^ D, 0x6ed9eba1);
    B' := Ror(B, 2);
    ParityIs(B, C, D);
    Step(data, h, t, old(work[..]), work[..], State(A, B, C, D, E), input);
    RoundIs(t, input, State(A, B, C, D, E));
  }

  method T_40_59(t: nat, data: seq<bv8>, work: array<bv32>, ghost h: State, A: bv32, B: bv32, C: bv32, D: bv32, E: bv32)
    returns (B': bv32, E': bv32)
    requires 40 <= t < 60 && |data| == 64 && At(data, h, t, work[..], State(A, B, C, D, E))
    modifies work
    ensures At(data, h, t + 1, work[..], State(E', A, B', C, D))
  {
    hide At, Round, Rol, Ror, Turn, Mix, W, M;
    MixIsNext(data, h, t, work[..], State(A, B, C, D, E));
    var input := Mix(work[..], t);
    work[t % 16] := input;
    E' := Turn(E, input, A, (B & C) + (D & (B ^ C)), 0x8f1bbcdc);
    B' := Ror(B, 2);
    MajIs(B, C, D);
    Step(data, h, t, old(work[..]), work[..], State(A, B, C, D, E), input);
    RoundIs(t, input, State(A, B, C, D, E));
  }

  method T_60_79(t: nat, data: seq<bv8>, work: array<bv32>, ghost h: State, A: bv32, B: bv32, C: bv32, D: bv32, E: bv32)
    returns (B': bv32, E': bv32)
    requires 60 <= t < 80 && |data| == 64 && At(data, h, t, work[..], State(A, B, C, D, E))
    modifies work
    ensures At(data, h, t + 1, work[..], State(E', A, B', C, D))
  {
    hide At, Round, Rol, Ror, Turn, Mix, W, M;
    MixIsNext(data, h, t, work[..], State(A, B, C, D, E));
    var input := Mix(work[..], t);
    work[t % 16] := input;
    E' := Turn(E, input, A, B ^ C ^ D, 0xca62c1d6);
    B' := Ror(B, 2);
    ParityIs(B, C, D);
    Step(data, h, t, old(work[..]), work[..], State(A, B, C, D, E), input);
    RoundIs(t, input, State(A, B, C, D, E));
  }

  // ----- sha_transform -----

  /** Iterations 0 to 19. */
  method Round1(data: seq<bv8>, work: array<bv32>, ghost h: State, a: bv32, b: bv32, c: bv32, d: bv32, e: bv32)
    returns (A: bv32, B: bv32, C: bv32, D: bv32, E: bv32)
    requires |data| == 64 && At(data, h, 0, work[..], State(a, b, c, d, e))
    modifies work
    ensures At(data, h, 20, work[..], State(A, B, C, D, E))
  {
    hide At;
    A, B, C, D, E := a, b, c, d, e;
    B, E := T_0_15(0, data, work, h, A, B, C, D, E);
    A, D := T_0_15(1, data, work, h, E, A, B, C, D);
    E, C := T_0_15(2, data, work, h, D, E, A, B, C);
    D, B := T_0_15(3, data, work, h, C, D, E, A, B);
    C, A := T_0_15(4, data, work, h, B, C, D, E, A);
    B, E := T_0_15(5, data, work, h, A, B, C, D, E);
    A, D := T_0_15(6, data, work, h, E, A, B, C, D);
    E, C := T_0_15(7, data, work, h, D, E, A, B, C);
    D, B := T_0_15(8, data, work, h, C, D, E, A, B);
    C, A := T_0_15(9, data, work, h, B, C, D, E, A);
    B, E := T_0_15(10, data, work, h, A, B, C, D, E);
    A, D := T_0_15(11, data, work, h, E, A, B, C, D);
    E, C := T_0_15(12, data, work, h, D, E, A, B, C);
    D, B := T_0_15(13, data, work, h, C, D, E, A, B);
    C, A := T_0_15(14, data, work, h, B, C, D, E, A);
    B, E := T_0_15(15, data, work, h, A, B, C, D, E);
    A, D := T_16_19(16, data, work, h, E, A, B, C, D);
    E, C := T_16_19(17, data, work, h, D, E, A, B, C);
    D, B := T_16_19(18, data, work, h, C, D, E, A, B);
    C, A := T_16_19(19, data, work, h, B, C, D, E, A);
  }

  /** Iterations 20 to 39. */
  method Round2(data: seq<bv8>, work: array<bv32>, ghost h: State, a: bv32, b: bv32, c: bv32, d: bv32, e: bv32)
    returns (A: bv32, B: bv32, C: bv32, D: bv32, E: bv32)
    requires |data| == 64 && At(data, h, 20, work[..], State(a, b, c, d, e))
    modifies work
    ensures At(data, h, 40, work[..], State(A, B, C, D, E))
  {
    hide At;
    A, B, C, D, E := a, b, c, d, e;
    B, E := T_20_39(20, data, work, h, A, B, C, D, E);
    A, D := T_20_39(21, data, work, h, E, A, B, C, D);
    E, C := T_20_39(22, data, work, h, D, E, A, B, C);
    D, B := T_20_39(23, data, work, h, C, D, E, A, B);
    C, A := T_20_39(24, data, work, h, B, C, D, E, A);
    B, E := T_20_39(25, data, work, h, A, B, C, D, E);
    A, D := T_20_39(26, data, work, h, E, A, B, C, D);
    E, C := T_20_39(27, data, work, h, D, E, A, B, C);
    D, B := T_20_39(28, data, work, h, C, D, E, A, B);
    C, A := T_20_39(29, data, work, h, B, C, D, E, A);
    B, E := T_20_39(30, data, work, h, A, B, C, D, E);
    A, D := T_20_39(31, data, work, h, E, A, B, C, D);
    E, C := T_20_39(32, data, work, h, D, E, A, B, C);
    D, B := T_20_39(33, data, work, h, C, D, E, A, B);
    C, A := T_20_39(34, data, work, h, B, C, D, E, A);
    B, E := T_20_39(35, data, work, h, A, B, C, D, E);
    A, D := T_20_39(36, data, work, h, E, A, B, C, D);
    E, C := T_20_39(37, data, work, h, D, E, A, B, C);
    D, B := T_20_39(38, data, work, h, C, D, E, A, B);
    C, A := T_20_39(39, data, work, h, B, C, D, E, A);
  }

  /** Iterations 40 to 59. */
  method Round3(data: seq<bv8>, work: array<bv32>, ghost h: State, a: bv32, b: bv32, c: bv32, d: bv32, e: bv32)
    returns (A: bv32, B: bv32, C: bv32, D: bv32, E: bv32)
    requires |data| == 64 && At(data, h, 40, work[..], State(a, b, c, d, e))
    modifies work
    ensures At(data, h, 60, work[..], State(A, B, C, D, E))
  {
    hide At;
    A, B, C, D, E := a, b, c, d, e;
    B, E := T_40_59(40, data, work, h, A, B, C, D, E);
    A, D := T_40_59(41, data, work, h, E, A, B, C, D);
    E, C := T_40_59(42, data, work, h, D, E, A, B, C);
    D, B := T_40_59(43, data, work, h, C, D, E, A, B);
    C, A := T_40_59(44, data, work, h, B, C, D, E, A);
    B, E := T_40_59(45, data, work, h, A, B, C, D, E);
    A, D := T_40_59(46, data, work, h, E, A, B, C, D);
    E, C := T_40_59(47, data, work, h, D, E, A, B, C);
    D, B := T_40_59(48, data, work, h, C, D, E, A, B);
    C, A := T_40_59(49, data, work, h, B, C, D, E, A);
    B, E := T_40_59(50, data, work, h, A, B, C, D, E);
    A, D := T_40_59(51, data, work, h, E, A, B, C, D);
    E, C := T_40_59(52, data, work, h, D, E, A, B, C);
    D, B := T_40_59(53, data, work, h, C, D, E, A, B);
    C, A := T_40_59(54, data, work, h, B, C, D, E, A);
    B, E := T_40_59(55, data, work, h, A, B, C, D, E);
    A, D := T_40_59(56, data, work, h, E, A, B, C, D);
    E, C := T_40_59(57, data, work, h, D, E, A, B, C);
    D, B := T_40_59(58, data, work, h, C, D, E, A, B);
    C, A := T_40_59(59, data, work, h, B, C, D, E, A);
  }

  /** Iterations 60 to 79. */
  method Round4(data: seq<bv8>, work: array<bv32>, ghost h: State, a: bv32, b: bv32, c: bv32, d: bv32, e: bv32)
    returns (A: bv32, B: bv32, C: bv32, D: bv32, E: bv32)
    requires |data| == 64 && At(data, h, 60, work[..], State(a, b, c, d, e))
    modifies work
    ensures At(data, h, 80, work[..], State(A, B, C, D, E))
  {
    hide At;
    A, B, C, D, E := a, b, c, d, e;
    B, E := T_60_79(60, data, work, h, A, B, C, D, E);
    A, D := T_60_79(61, data, work, h, E, A, B, C, D);
    E, C := T_60_79(62, data, work, h, D, E, A, B, C);
    D, B := T_60_79(63, data, work, h, C, D, E, A, B);
    C, A := T_60_79(64, data, work, h, B, C, D, E, A);
    B, E := T_60_79(65, data, work, h, A, B, C, D, E);
    A, D := T_60_79(66, data, work, h, E, A, B, C, D);
    E, C := T_60_79(67, data, work, h, D, E, A, B, C);
    D, B := T_60_79(68, data, work, h, C, D, E, A, B);
    C, A := T_60_79(69, data, work, h, B, C, D, E, A);
    B, E := T_60_79(70, data, work, h, A, B, C, D, E);
    A, D := T_60_79(71, data, work, h, E, A, B, C, D);
    E, C := T_60_79(72, data, work, h, D, E, A, B, C);
    D, B := T_60_79(73, data, work, h, C, D, E, A, B);
    C, A := T_60_79(74, data, work, h, B, C, D, E, A);
    B, E := T_60_79(75, data, work, h, A, B, C, D, E);
    A, D := T_60_79(76, data, work, h, E, A, B, C, D);
    E, C := T_60_79(77, data, work, h, D, E, A, B, C);
    D, B := T_60_79(78, data, work, h, C, D, E, A, B);
    C, A := T_60_79(79, data, work, h, B, C, D, E, A);
  }

  function Digest(digest: seq<bv32>): State
    requires |digest| == 5
  {
    State(digest[0], digest[1], digest[2], digest[3], digest[4])
  }

  /** For every digest, block and contents of the workspace. */
  method ShaTransform(digest: array<bv32>, data: seq<bv8>, work: array<bv32>)
    requires digest.Length == 5 && |data| == 64 && work.Length == 16 && digest != work
    modifies digest, work
    ensures Digest(digest[..]) == Compress(data, Digest(old(digest[..])))
  {
    hide At, Rounds, Sum;
    ghost var h := Digest(digest[..]);
    Begin(data, h, work[..]);
    var A, B, C, D, E := digest[0], digest[1], digest[2], digest[3], digest[4];
    A, B, C, D, E := Round1(data, work, h, A, B, C, D, E);
    A, B, C, D, E := Round2(data, work, h, A, B, C, D, E);
    A, B, C, D, E := Round3(data, work, h, A, B, C, D, E);
    A, B, C, D, E := Round4(data, work, h, A, B, C, D, E);
    End(data, h, work[..], State(A, B, C, D, E));
    digest[0] := Sum(digest[0], A);
    digest[1] := Sum(digest[1], B);
    digest[2] := Sum(digest[2], C);
    digest[3] := Sum(digest[3], D);
    digest[4] := Sum(digest[4], E);
  }

  lemma Begin(data: seq<bv8>, h: State, work: seq<bv32>)
    requires |data| == 64 && |work| == 16
    ensures At(data, h, 0, work, h)
  {
  }

  lemma End(data: seq<bv8>, h: State, work: seq<bv32>, s: State)
    requires |data| == 64 && At(data, h, 80, work, s)
    ensures s == Rounds(data, h, 80)
  {
    hide Rounds;
  }
}
