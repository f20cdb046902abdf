/** Shared vocabulary: optional values, the C integer limits the source relies on,
    ASCII character classes, C's truncating division, and powers of ten. */
module Base {

  datatype Option<+T> = None | Some(value: T)

  const Int32Min: int := -0x8000_0000
  const Int32Max: int := 0x7FFF_FFFF
  const Int64Min: int := -0x8000_0000_0000_0000
  const Int64Max: int := 0x7FFF_FFFF_FFFF_FFFF

  predicate IsInt64(v: int) { Int64Min <= v <= Int64Max }

  /** The integer types ParseInt is instantiated with: `int`, and the 64-bit
      `year_t` / `int_fast64_t`. Only the minimum matters to the parser. */
  datatype IntType = Int32 | Int64 {
    function Min(): (m: int)
      ensures m < -9
    {
      match this
      case Int32 => Int32Min
      case Int64 => Int64Min
    }
    function Max(): (m: int)
      ensures m == -Min() - 1
    {
      match this
      case Int32 => Int32Max
      case Int64 => Int64Max
    }
  }

  /** `std::isdigit` in the "C" locale. */
  predicate IsDigit(c: char) { '0' <= c <= '9' }

  /** `std::isspace` in the "C" locale: space, \t, \n, \v, \f, \r. */
  predicate IsSpace(c: char) { c == ' ' || 9 <= c as int <= 13 }

  function DigitValue(c: char): (d: nat)
    requires IsDigit(c)
    ensures d < 10
  {
    c as int - '0' as int
  }

  function DigitChar(d: nat): (c: char)
    requires d < 10
    ensures IsDigit(c) && DigitValue(c) == d
  {
    "0123456789"[d]
  }

  /** The character a C pointer into a NUL-terminated buffer reads: past the end
      of the range it is the terminator. */
  function CharAt(s: seq<char>, i: int): (c: char)
    ensures 0 <= i < |s| ==> c == s[i]
  {
    if 0 <= i < |s| then s[i] else '\0'
  }

  /** C++ `/` and `%`, which truncate toward zero (Dafny's are Euclidean). */
  function CDiv(a: int, b: int): (q: int)
    requires b > 0
    ensures a >= 0 ==> 0 <= a - q * b < b
    ensures a < 0 ==> -b < a - q * b <= 0
  {
    if a >= 0 then a / b else -((-a) / b)
  }

  function CRem(a: int, b: int): (r: int)
    requires b > 0
    ensures a == CDiv(a, b) * b + r
    ensures -b < r < b
    ensures (a >= 0 ==> 0 <= r) && (a < 0 ==> r <= 0)
  {
    a - CDiv(a, b) * b
  }

  /** Division by ten is determined by its defining equation. */
  lemma DivMod10(a: int, q: int, r: int)
    requires a == 10 * q + r && 0 <= r < 10
    ensures a / 10 == q && a % 10 == r
  {
  }

  function Pow10(n: nat): (p: nat)
    ensures p >= 1
  {
    if n == 0 then 1 else 10 * Pow10(n - 1)
  }

  lemma {:induction false} Pow10Monotone(a: nat, b: nat)
    requires a <= b
    ensures Pow10(a) <= Pow10(b)
  {
    if a < b {
      Pow10Monotone(a, b - 1);
    }
  }

  lemma {:induction false} Pow10Add(a: nat, b: nat)
    ensures Pow10(a + b) == Pow10(a) * Pow10(b)
  {
    if b > 0 {
      Pow10Add(a, b - 1);
      assert Pow10(a + b) == 10 * Pow10(a + b - 1);
    }
  }

  /** Sub-second precision: `femtoseconds`, 10^15 to the second. */
  const FemtoDigits: nat := 15

  /** One second in femtoseconds. */
  const FemtosPerSecond: nat := 1_000_000_000_000_000

  lemma FemtosPerSecondIsPow10()
    ensures FemtosPerSecond == Pow10(FemtoDigits)
  {
    Exp10TableEntry(FemtoDigits);
  }

  /** The largest power of ten an `int_fast64_t` holds: 10^18 <= 2^63 - 1 < 10^19. */
  const Digits10x64: nat := 18

  /** `kExp10`: 10^n for every n an `int_fast64_t` can represent. */
  const Exp10Table: seq<int> := [
    1,
    10,
    100,
    1000,
    10000,
    100000,
    1000000,
    10000000,
    100000000,
    1000000000,
    10000000000,
    100000000000,
    1000000000000,
    10000000000000,
    100000000000000,
    1000000000000000,
    10000000000000000,
    100000000000000000,
    1000000000000000000
  ]

  lemma Exp10TableSteps()
    ensures |Exp10Table| == Digits10x64 + 1
    ensures Exp10Table[0] == 1
    ensures forall n :: 0 <= n < Digits10x64 ==> Exp10Table[n + 1] == 10 * Exp10Table[n]
  {
  }

  lemma {:induction false} Exp10TableEntry(n: nat)
    requires n <= Digits10x64
    ensures |Exp10Table| == Digits10x64 + 1 && Exp10Table[n] == Pow10(n)
  {
    Exp10TableSteps();
    if n > 0 {
      Exp10TableEntry(n - 1);
    }
  }

  /** 10^18 is the largest power of ten an `int_fast64_t` holds. */
  lemma Pow10FitsInt64()
    ensures Pow10(Digits10x64) <= Int64Max < 10 * Pow10(Digits10x64)
  {
    Exp10TableEntry(Digits10x64);
  }

  /** `kExp10` holds exactly the powers of ten an `int_fast64_t` can represent. */
  lemma Exp10TableIsPow10()
    ensures |Exp10Table| == Digits10x64 + 1
    ensures forall n :: 0 <= n <= Digits10x64 ==> Exp10Table[n] == Pow10(n)
    ensures Pow10(Digits10x64) <= Int64Max < Pow10(Digits10x64 + 1)
  {
    Exp10TableSteps();
    forall n | 0 <= n <= Digits10x64
      ensures Exp10Table[n] == Pow10(n)
    {
      Exp10TableEntry(n);
    }
    Exp10TableEntry(Digits10x64);
    assert Pow10(Digits10x64 + 1) == 10 * Pow10(Digits10x64);
  }
}
