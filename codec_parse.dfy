/** The field parsers of `parse`: `ParseInt`, `ParseSubSeconds` and
    `ParseZone` are loops over the input and are proved against the
    specification functions `ParseIntSpec`, `SubSecondsSpec` and `ZoneSpec`;
    `ParseOffset` is straight-line code over `ParseIntSpec`. A parser works on
    the remaining input `s` and returns the value together with the number of
    characters it consumed, or `None` where the source returns `nullptr`. */
module NumParse {
  import opened Base
  import opened DigitWriters

  /** The length of the longest prefix of s made of digits. */
  function DigitSpan(s: seq<char>): (n: nat)
    ensures n <= |s| && AllDigits(s[..n])
    ensures n < |s| ==> !IsDigit(s[n])
  {
    if s == [] || !IsDigit(s[0]) then 0
    else
      var k := DigitSpan(s[1..]);
      assert s[..1 + k] == [s[0]] + s[1..][..k];
      1 + k
  }

  lemma {:induction false} DigitSpanAtLeast(s: seq<char>, k: nat)
    requires k <= |s| && AllDigits(s[..k])
    ensures k <= DigitSpan(s)
  {
    if k > 0 {
      assert s[1..][..k - 1] == s[..k][1..];
      DigitSpanAtLeast(s[1..], k - 1);
    }
  }

  /** How many digits the loop of `ParseInt` reads: the whole digit run, but
      at most `width` of them when `width` is positive. */
  function RunLength(s: seq<char>, width: int): (n: nat)
    ensures n <= DigitSpan(s)
    ensures width > 0 ==> n <= width
  {
    var span := DigitSpan(s);
    if width > 0 && width < span then width else span
  }

  /** Whether `ParseInt` reads a leading '-'. */
  predicate MinusSign(s: seq<char>) { |s| > 0 && s[0] == '-' }

  /** The digits `ParseInt` reads: after the optional '-', which counts
      against a positive width (except a width of 1, which then fails), as
      many digits as `RunLength` allows. */
  function IntDigits(s: seq<char>, width: int): (d: seq<char>)
    ensures AllDigits(d)
    ensures |d| == RunLength(s[if MinusSign(s) then 1 else 0..], if MinusSign(s) && width > 1 then width - 1 else width)
  {
    var off := if MinusSign(s) then 1 else 0;
    var t := s[off..];
    t[..RunLength(t, if MinusSign(s) && width > 1 then width - 1 else width)]
  }

  /** The checks `ParseInt` makes once the digits are read, on their count
      and magnitude: a '-' that uses up a width of one, no digit at all, a
      magnitude that T cannot hold (the negative range being one larger),
      "-0", and a value outside [min, max]. */
  function IntChecks(neg: bool, width: int, count: nat, mag: nat, min: int, max: int, t: IntType): Option<(int, nat)>
  {
    if neg && width == 1 then None
    else if count == 0 then None
    else if mag > -t.Min() then None
    else if !neg && mag == -t.Min() then None
    else if neg && mag == 0 then None
    else
      var v: int := if neg then 0 - mag else mag;
      if min <= v <= max then Some((v, (if neg then 1 else 0) + count)) else None
  }

  /** `ParseInt<T>(s, width, min, max)`. */
  function ParseIntSpec(s: seq<char>, width: int, min: int, max: int, t: IntType): Option<(int, nat)>
  {
    var digits := IntDigits(s, width);
    IntChecks(MinusSign(s), width, |digits|, DecValue(digits), min, max, t)
  }

  lemma ParseIntSpecOf(s: seq<char>, width: int, min: int, max: int, t: IntType, digits: seq<char>)
    requires IntDigits(s, width) == digits
    ensures ParseIntSpec(s, width, min, max, t)
            == IntChecks(MinusSign(s), width, |digits|, DecValue(digits), min, max, t)
  {
  }

  /** The checks accept a non-empty digit string whose signed value T holds
      and [min, max] contains, except "-0". */
  lemma IntChecksAccept(neg: bool, width: int, count: nat, mag: nat, min: int, max: int, t: IntType)
    requires count >= 1 && !(neg && width == 1) && (neg ==> mag > 0)
    requires var v := if neg then 0 - mag else mag;
             t.Min() <= v <= t.Max() && min <= v <= max
    ensures IntChecks(neg, width, count, mag, min, max, t)
            == Some((if neg then 0 - mag else mag, (if neg then 1 else 0) + count))
  {
  }

  lemma DecValueExtend(t: seq<char>, k: nat)
    requires k < |t| && AllDigits(t[..k + 1])
    ensures AllDigits(t[..k]) && IsDigit(t[k])
    ensures DecValue(t[..k + 1]) == DecValue(t[..k]) * 10 + DigitValue(t[k])
  {
    assert t[..k + 1][..k] == t[..k];
  }

  /** A longer digit prefix never has a smaller value. */
  lemma {:induction false} DecValuePrefixMonotone(t: seq<char>, i: nat, j: nat)
    requires i <= j <= |t| && AllDigits(t[..j])
    ensures AllDigits(t[..i]) && DecValue(t[..i]) <= DecValue(t[..j])
    decreases j
  {
    if i < j {
      assert t[..j][..j - 1] == t[..j - 1];
      DecValuePrefixMonotone(t, i, j - 1);
    }
  }

  /** The two overflow tests of the digit loop, on the negated value, fail
      exactly when the magnitude would pass -kmin. */
  lemma OverflowTests(value: int, d: nat, kmin: int)
    requires kmin < 0 && kmin <= value <= 0 && d < 10
    ensures value < CDiv(kmin, 10) || value * 10 < kmin + d <==> -value * 10 + d > -kmin
    ensures value >= CDiv(kmin, 10) ==> value * 10 >= kmin
  {
  }

  /** One step of the digit loop: value * 10 - d, refused when it would
      pass kmin. */
  method AccumulateDigit(value: int, d: nat, kmin: int) returns (ok: bool, next: int)
    requires kmin < 0 && kmin <= value <= 0 && d < 10
    ensures ok <==> -value * 10 + d <= -kmin
    ensures ok ==> next == value * 10 - d && kmin <= next
  {
    OverflowTests(value, d, kmin);
    if value < CDiv(kmin, 10) {
      return false, value;
    }
    next := value * 10;
    if next < kmin + d {
      return false, value;
    }
    next := next - d;
    ok := true;
  }

  /** The digit loop of `ParseInt`, over the text after the sign. It
      accumulates the negated value (the negative range of T is the larger
      one) and stops with failure as soon as the next step would pass kmin,
      so no intermediate value leaves T. */
  method AccumulateDigits(t: seq<char>, width: int, kmin: int) returns (ok: bool, value: int, cp: nat)
    requires kmin < 0
    ensures AllDigits(t[..RunLength(t, width)])
    ensures ok <==> DecValue(t[..RunLength(t, width)]) <= -kmin
    ensures ok ==> cp == RunLength(t, width) && value + DecValue(t[..cp]) == 0
  {
    ghost var n := RunLength(t, width);
    value := 0;
    cp := 0;
    var w := width;
    while cp != |t|
      invariant cp <= n && AllDigits(t[..cp])
      invariant value + DecValue(t[..cp]) == 0 && kmin <= value
      invariant width > 0 ==> w == width - cp && w > 0
      invariant width <= 0 ==> w == width
      decreases |t| - cp
    {
      if !IsDigit(t[cp]) {
        break;
      }
      DigitSpanAtLeast(t, cp + 1);
      DecValueExtend(t, cp);
      var d := DigitValue(t[cp]);
      ok, value := AccumulateDigit(value, d, kmin);
      if !ok {
        DecValuePrefixMonotone(t, cp + 1, n);
        return;
      }
      cp := cp + 1;
      if w > 0 {
        w := w - 1;
        if w == 0 {
          break;
        }
      }
    }
    ok := true;
  }

  /** Parses a decimal integer of type T (32 or 64 bits), of at most `width`
      characters when `width` is positive, and in [min, max]. */
  method ParseInt(s: seq<char>, width: int, min: int, max: int, t: IntType) returns (r: Option<(int, nat)>)
    ensures r == ParseIntSpec(s, width, min, max, t)
  {
    var kmin := t.Min();
    var neg := false;
    var begin := 0;
    var w := width;
    if |s| > 0 && s[0] == '-' {
      begin := 1;
      neg := true;
      if w == 1 {
        return None;
      }
      if w > 1 {
        w := w - 1;
      }
    }
    var ok, value, n := AccumulateDigits(s[begin..], w, kmin);
    if !ok {
      return None;
    }
    var cp := begin + n;
    if cp == begin {
      return None;
    }
    if !neg && value == kmin {
      return None;
    }
    if neg && value == 0 {
      return None;
    }
    if !neg {
      value := -value;  // make positive
    }
    if !(min <= value && value <= max) {
      return None;
    }
    return Some((value, cp));
  }

  /** What a successful `ParseInt` promises: the value lies in [min, max] and
      in T; at least one digit and at most `width` characters are consumed;
      the consumed text is a '-' exactly when the value is negative (so "-0"
      is refused), then digits spelling its magnitude; and it stops at a
      non-digit, at the end of the input or when the width is used up. */
  lemma ParseIntSuccess(s: seq<char>, width: int, min: int, max: int, t: IntType)
    requires ParseIntSpec(s, width, min, max, t).Some?
    ensures var (v, n) := ParseIntSpec(s, width, min, max, t).value;
            var off := if v < 0 then 1 else 0;
            && min <= v <= max && t.Min() <= v <= t.Max()
            && off < n <= |s| && (width > 0 ==> n <= width)
            && (v < 0 <==> s[0] == '-')
            && AllDigits(s[off..n]) && DecValue(s[off..n]) == Abs(v)
            && (n == |s| || !IsDigit(s[n]) || n == width)
  {
    var off: nat := if MinusSign(s) then 1 else 0;
    var k := |IntDigits(s, width)|;
    assert s[off..off + k] == IntDigits(s, width);
    assert off + k < |s| ==> s[off + k] == s[off..][k];
  }

  /** The bounds part of `ParseIntSuccess`. */
  lemma ParseIntRange(s: seq<char>, width: int, min: int, max: int, t: IntType)
    requires ParseIntSpec(s, width, min, max, t).Some?
    ensures var (v, n) := ParseIntSpec(s, width, min, max, t).value;
            min <= v <= max && 0 < n <= |s| && (width > 0 ==> n <= width)
  {
    ParseIntSuccess(s, width, min, max, t);
  }

  /** `ParseInt` fails when no digit follows the optional '-', and when a
      '-' uses up a width of one. */
  lemma ParseIntNeedsDigit(s: seq<char>, width: int, min: int, max: int, t: IntType)
    ensures var off := if |s| > 0 && s[0] == '-' then 1 else 0;
            (off == |s| || !IsDigit(s[off])) ==> ParseIntSpec(s, width, min, max, t).None?
    ensures |s| > 0 && s[0] == '-' && width == 1 ==> ParseIntSpec(s, width, min, max, t).None?
  {
  }

  /** The length of the longest prefix of s made of characters that are not
      white space. */
  function WordSpan(s: seq<char>): (n: nat)
    ensures n <= |s|
    ensures forall i :: 0 <= i < n ==> !IsSpace(s[i])
    ensures n < |s| ==> IsSpace(s[n])
  {
    if s == [] || IsSpace(s[0]) then 0 else 1 + WordSpan(s[1..])
  }

  /** `ParseZone`: the zone name is the text up to the next white space, and
      must not be empty. */
  function ZoneSpec(s: seq<char>): Option<(seq<char>, nat)>
  {
    var n := WordSpan(s);
    if n == 0 then None else Some((s[..n], n))
  }

  method ParseZone(s: seq<char>) returns (r: Option<(seq<char>, nat)>)
    ensures r == ZoneSpec(s)
  {
    var dp := 0;
    while dp != |s|
      invariant dp <= WordSpan(s)
      decreases |s| - dp
    {
      if IsSpace(s[dp]) {
        break;
      }
      dp := dp + 1;
    }
    if dp == 0 {
      return None;
    }
    return Some((s[..dp], dp));
  }

  /** `ParseSubSeconds`: the whole digit run is consumed but only its first
      fifteen digits count, read as femtoseconds (units of 10^-15 s). */
  function SubSecondsSpec(s: seq<char>): Option<(int, nat)>
  {
    var n := DigitSpan(s);
    var k := if n < FemtoDigits then n else FemtoDigits;
    if n == 0 then None else Some((DecValue(s[..k]) * Pow10(FemtoDigits - k), n))
  }

  method ParseSubSeconds(s: seq<char>) returns (r: Option<(int, nat)>)
    ensures r == SubSecondsSpec(s)
  {
    var v := 0;
    var exp := 0;
    var cp := 0;
    while cp != |s|
      invariant cp <= DigitSpan(s)
      invariant exp == (if cp < FemtoDigits then cp else FemtoDigits)
      invariant v == DecValue(s[..exp])
      decreases |s| - cp
    {
      if !IsDigit(s[cp]) {
        break;
      }
      DigitSpanAtLeast(s, cp + 1);
      if exp < FemtoDigits {
        DecValueExtend(s, exp);
        exp := exp + 1;
        v := v * 10;
        v := v + DigitValue(s[cp]);
      }
      cp := cp + 1;
    }
    if cp == 0 {
      return None;
    }
    Exp10TableEntry(FemtoDigits - exp);
    v := v * Exp10Table[FemtoDigits - exp];
    return Some((v, cp));
  }

  /** `ParseOffset(data, mode)`: "Z", or a sign and two hour digits in
      [00, 23], then optionally two minute digits and two second digits, each
      optionally preceded by the mode's separator (which is consumed even when
      the field after it is missing). A minute or second field that
      `ParseInt` reads as a single digit is not consumed, yet its value is kept.
      `CharAt` stands for reading the input one past its end, where the
      input string's terminator lies. */
  function ParseOffset(s: seq<char>, mode: seq<char>): Option<(int, nat)>
  {
    if |s| == 0 then None
    else if s[0] == 'Z' then Some((0, 1))
    else if s[0] != '+' && s[0] != '-' then None
    else
      var sep := CharAt(mode, 0);
      var hours := ParseIntSpec(s[1..], 2, 0, 23, Int32);
      if hours.None? || hours.value.1 != 2 then None
      else
        var hoursEnd: nat := if sep != '\0' && CharAt(s, 3) == sep then 4 else 3;
        var mins := ParseIntSpec(s[hoursEnd..], 2, 0, 59, Int32);
        var minutes := if mins.Some? then mins.value.0 else 0;
        var (seconds, end) :=
          if mins.Some? && mins.value.1 == 2 then
            var minutesEnd: nat := if sep != '\0' && CharAt(s, hoursEnd + 2) == sep then hoursEnd + 3 else hoursEnd + 2;
            var secs := ParseIntSpec(s[minutesEnd..], 2, 0, 59, Int32);
            (if secs.Some? then secs.value.0 else 0,
             if secs.Some? && secs.value.1 == 2 then minutesEnd + 2 else minutesEnd)
          else (0, hoursEnd);
        var total := (hours.value.0 * 60 + minutes) * 60 + seconds;
        Some((if s[0] == '-' then -total else total, end))
  }
}
