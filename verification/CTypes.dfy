/** The fixed-width C integer types the modelled code uses.

    They are subset types of `int`: every assignment to one is checked to fit, so a
    computation written with plain `+` and `*` is also proved not to wrap.  Where the C
    code does wrap or truncate, one of the conversions below says so. */
module CTypes {

  type uint8 = x: int | 0 <= x < 0x100
  type uint16 = x: int | 0 <= x < 0x1_0000
  type uint32 = x: int | 0 <= x < 0x1_0000_0000
  type uint64 = x: int | 0 <= x < 0x1_0000_0000_0000_0000
  type int8 = x: int | -0x80 <= x < 0x80
  type int16 = x: int | -0x8000 <= x < 0x8000
  type int32 = x: int | -0x8000_0000 <= x < 0x8000_0000
  type int64 = x: int | -0x8000_0000_0000_0000 <= x < 0x8000_0000_0000_0000

  const TWO64 := 0x1_0000_0000_0000_0000

  /** Conversion to `s16`: the value of the low 16 bits read in two's complement. */
  function ToInt16(x: int): int16 {
    (x + 0x8000) % 0x1_0000 - 0x8000
  }

  /** Truncating at every step is truncating once. */
  lemma ToInt16Again(x: int, k: int)
    ensures ToInt16(ToInt16(x) - k) == ToInt16(x - k)
  {
  }

  /** Conversion to `int`. */
  function ToInt32(x: int): int32 {
    (x + 0x8000_0000) % 0x1_0000_0000 - 0x8000_0000
  }

  /** Conversion to `long long`. */
  function ToInt64(x: int): int64 {
    (x + 0x8000_0000_0000_0000) % TWO64 - 0x8000_0000_0000_0000
  }

  /** Conversion to `unsigned long long`. */
  function ToUint64(x: int): uint64 {
    x % TWO64
  }

  /** The characters of a C string, without its terminating NUL. */
  type cstring = s: string | IsCString(s)

  predicate IsCString(s: string) {
    forall i :: 0 <= i < |s| ==> '\0' < s[i] < 256 as char
  }

  lemma CStringConcat(s: cstring, t: cstring)
    ensures IsCString(s + t)
  {
  }

  /** `*(s + i)`: the terminating NUL sits just past the last character. */
  function CharAt(s: cstring, i: nat): (c: char)
    requires i <= |s|
    ensures c == '\0' <==> i == |s|
    ensures c < 256 as char
  {
    if i < |s| then s[i] else '\0'
  }

  lemma MulMono(a: nat, b: nat, c: nat)
    requires a <= b
    ensures a * c <= b * c
  {
  }

  lemma MulStrict(a: nat, b: nat, c: nat)
    ensures a < b ==> a * c + c <= b * c
  {
    if a < b {
      MulMono(a + 1, b, c);
      assert (a + 1) * c == a * c + c;
    }
  }

  function Min(a: int, b: int): int {
    if a <= b then a else b
  }

  function Max(a: int, b: int): int {
    if a >= b then a else b
  }
}
