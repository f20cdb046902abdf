/** The digit writers of the formatter: `Format64`, `Format02d` and
    `FormatOffset` fill a scratch buffer backwards, one `*--ep = c` at a time.
    Here the written part of the buffer is the sequence `text`, and each
    store prepends a character to it. Each writer is proved against a text
    function (`Format64Text`, `TwoDigits`, `FormatOffsetText`) whose meaning
    is stated in the lemmas beside it. */
module DigitWriters {
  import opened Base

  /** The shortest decimal spelling of n: no leading zeros, "0" for zero. */
  function Digits(n: nat): (s: seq<char>)
    ensures 1 <= |s| && AllDigits(s)
    ensures n >= 10 ==> s[0] != '0'
    decreases n
  {
    if n < 10 then [DigitChar(n)] else Digits(n / 10) + [DigitChar(n % 10)]
  }

  /** The digits still to be written by the do-while loop of `Format64`. */
  function PendingDigits(n: nat): seq<char>
  {
    if n == 0 then [] else Digits(n)
  }

  predicate AllDigits(s: seq<char>)
  {
    forall i :: 0 <= i < |s| ==> IsDigit(s[i])
  }

  /** The value of a decimal digit string, most significant digit first. */
  function DecValue(s: seq<char>): nat
    requires AllDigits(s)
  {
    if s == [] then 0 else DecValue(s[..|s| - 1]) * 10 + DigitValue(s[|s| - 1])
  }

  /** k digits hold a value below 10^k. */
  lemma {:induction false} DecValueBound(s: seq<char>)
    requires AllDigits(s)
    ensures DecValue(s) < Pow10(|s|)
  {
    if s != [] {
      DecValueBound(s[..|s| - 1]);
    }
  }

  function Zeros(k: nat): (z: seq<char>)
    ensures |z| == k && forall i :: 0 <= i < k ==> z[i] == '0'
  {
    if k == 0 then [] else Zeros(k - 1) + ['0']
  }

  function Abs(v: int): nat { if v < 0 then -v else v }

  /** What `Format64(ep, width, v)` writes: an optional '-', zero padding, and
      the decimal digits of |v|. The width counts the sign. */
  function Format64Text(v: int, width: int): seq<char>
  {
    var pad := width - (if v < 0 then 1 else 0) - |Digits(Abs(v))|;
    (if v < 0 then "-" else "") + Zeros(if pad > 0 then pad else 0) + Digits(Abs(v))
  }

  /** `Format64` spells v exactly: one '-' exactly when v is negative, then a
      digit string whose value is |v|, zero-padded on the left so that the
      whole text fills the width, and never truncated when it does not fit. */
  lemma Format64TextMeaning(v: int, width: int)
    ensures var r := Format64Text(v, width);
            var sign := if v < 0 then 1 else 0;
            && |r| == (if width > sign + |Digits(Abs(v))| then width else sign + |Digits(Abs(v))|)
            && (|r| > 0 && r[0] == '-' <==> v < 0)
            && AllDigits(r[sign..])
            && DecValue(r[sign..]) == Abs(v)
  {
    var r := Format64Text(v, width);
    var sign := if v < 0 then "-" else "";
    var body := Digits(Abs(v));
    var pad := width - |sign| - |body|;
    var z := Zeros(if pad > 0 then pad else 0);
    assert r == sign + z + body;
    assert r[|sign|..] == z + body;
    if v >= 0 {
      assert r == z + body;
      assert r[0] == '0' || IsDigit(r[0]);
    }
    DecValueOfDigits(Abs(v));
    DecValueLeadingZeros(|z|, body);
  }

  lemma {:induction false} DecValueOfDigits(n: nat)
    ensures DecValue(Digits(n)) == n
    decreases n
  {
    if n >= 10 {
      var s := Digits(n);
      assert s[..|s| - 1] == Digits(n / 10);
      DecValueOfDigits(n / 10);
    }
  }

  lemma {:induction false} DecValueLeadingZeros(k: nat, s: seq<char>)
    requires AllDigits(s)
    ensures AllDigits(Zeros(k) + s) && DecValue(Zeros(k) + s) == DecValue(s)
    decreases |s|
  {
    var t := Zeros(k) + s;
    if s == [] {
      assert t == Zeros(k);
      ZerosValue(k);
    } else {
      assert t[..|t| - 1] == Zeros(k) + s[..|s| - 1];
      DecValueLeadingZeros(k, s[..|s| - 1]);
    }
  }

  lemma {:induction false} ZerosValue(k: nat)
    ensures AllDigits(Zeros(k)) && DecValue(Zeros(k)) == 0
  {
    if k > 0 {
      assert Zeros(k)[..k - 1] == Zeros(k - 1);
      ZerosValue(k - 1);
    }
  }

  /** A number below 10^k needs at most k digits, and conversely. */
  lemma {:induction false} DigitsLength(n: nat, k: nat)
    requires k >= 1
    ensures |Digits(n)| <= k <==> n < Pow10(k)
    decreases n
  {
    if n >= 10 {
      if k == 1 {
        assert Pow10(1) == 10;
      } else {
        DigitsLength(n / 10, k - 1);
      }
    } else {
      Pow10Monotone(1, k);
    }
  }

  lemma PendingDigitsStep(u: nat)
    requires u > 0
    ensures PendingDigits(u) == PendingDigits(u / 10) + [DigitChar(u % 10)]
  {
  }

  /** `Format02d` renders [0 .. 99] as %02d, which is `Format64Text(v, 2)`. */
  lemma TwoDigitsShape(v: int)
    requires 0 <= v < 100
    ensures Format64Text(v, 2) == [DigitChar(v / 10), DigitChar(v % 10)]
  {
    if v < 10 {
      assert Zeros(1) == ['0'];
      assert Digits(v) == [DigitChar(v)];
      assert DigitChar(0) == '0';
    } else {
      assert Digits(v / 10) == [DigitChar(v / 10)];
    }
  }

  lemma PrependDigit(u: nat, written: seq<char>)
    requires u > 0
    ensures PendingDigits(u) + written == PendingDigits(u / 10) + ([DigitChar(u % 10)] + written)
  {
    var a, d := PendingDigits(u / 10), [DigitChar(u % 10)];
    assert PendingDigits(u) == a + d;
    assert (a + d) + written == a + (d + written);
  }

  lemma DigitsAppend(q: nat, d: nat)
    requires q > 0 && d < 10
    ensures Digits(q * 10 + d) == Digits(q) + [DigitChar(d)]
  {
    assert (q * 10 + d) / 10 == q && (q * 10 + d) % 10 == d;
  }

  lemma Int64MinDivision()
    ensures CRem(Int64Min, 10) == -8 && CDiv(Int64Min, 10) == -922337203685477580
  {
  }

  /** The do-while loop of `Format64`: writes the digits of u0 in front of
      `tail`, least significant first. */
  method PrependDigits(u0: nat, tail: seq<char>) returns (text: seq<char>)
    ensures text == Digits(u0) + tail
  {
    var u := u0;
    PrependDigit(if u == 0 then 1 else u, tail);
    text := [DigitChar(u % 10)] + tail;
    u := u / 10;
    while u != 0
      invariant Digits(u0) + tail == PendingDigits(u) + text
      decreases u
    {
      PrependDigit(u, text);
      text := [DigitChar(u % 10)] + text;
      u := u / 10;
    }
  }

  /** `while (--width >= 0) *--ep = '0'`. */
  method PrependZeros(width: int, tail: seq<char>) returns (text: seq<char>)
    ensures text == Zeros(if width > 0 then width else 0) + tail
  {
    var w := width;
    text := tail;
    w := w - 1;
    while w >= 0
      invariant -1 <= w < width || (w == width - 1 && text == tail)
      invariant text == Zeros(width - 1 - w) + tail || (width <= 0 && text == tail)
      decreases w
    {
      ZerosCons(width - w);
      text := ['0'] + text;
      w := w - 1;
    }
  }

  /** The INT64_MIN branch of `Format64`: the minimum cannot be negated, so
      its last digit is split off with C's truncating `%` and `/` first. */
  method SplitMinimum(v: int) returns (q: int, lastDigit: nat)
    requires v == Int64Min
    ensures lastDigit < 10 && q < 0
    ensures Digits(-v) == Digits(-q) + [DigitChar(lastDigit)]
  {
    Int64MinDivision();
    var d := -CRem(v, 10);
    q := CDiv(v, 10);
    if d < 0 {
      q := q + 1;
      d := d + 10;
    }
    lastDigit := d;
    DigitsAppend(-q, lastDigit);
  }

  /** Formats a 64-bit integer in the given field width, INT64_MIN included,
      whose magnitude is not representable. The text is produced right to
      left, as the source fills its buffer backwards from `ep`: each write
      `*--ep = c` puts c in front of what is already written, and the width
      counts down once per character. */
  method Format64(width: int, v: int) returns (text: seq<char>)
    requires IsInt64(v)
    ensures text == Format64Text(v, width)
  {
    var w := width;
    var neg := false;
    var u := v;
    var tail: seq<char> := [];
    if u < 0 {
      w := w - 1;
      neg := true;
      if u == Int64Min {
        var lastDigit;
        u, lastDigit := SplitMinimum(u);
        w := w - 1;
        tail := [DigitChar(lastDigit)];
      }
      u := -u;
    }
    text := PrependDigits(u, tail);
    assert text == Digits(Abs(v));
    w := w - |Digits(u)|;
    assert w == width - (if v < 0 then 1 else 0) - |Digits(Abs(v))|;
    text := PrependZeros(w, text);
    if neg {
      text := ['-'] + text;
    }
  }

  lemma {:induction false} ZerosCons(k: nat)
    requires k > 0
    ensures Zeros(k) == ['0'] + Zeros(k - 1)
  {
    if k > 1 {
      ZerosCons(k - 1);
    }
  }

  /** The two characters `Format02d` writes: (v / 10) % 10, then v % 10. */
  function TwoDigits(v: nat): seq<char>
  {
    [DigitChar((v / 10) % 10), DigitChar(v % 10)]
  }

  lemma TwoDigitsModulo(v: nat)
    ensures TwoDigits(v) == TwoDigits(v % 100)
  {
    var q, r := v / 100, v % 100;
    DivMod10(v, 10 * q + r / 10, r % 10);
    DivMod10(10 * q + r / 10, q, r / 10);
    DivMod10(r, r / 10, r % 10);
  }

  lemma TwoDigitsValue(v: nat)
    requires v < 100
    ensures AllDigits(TwoDigits(v)) && DecValue(TwoDigits(v)) == v
  {
    var t := TwoDigits(v);
    var hi, lo := v / 10, v % 10;
    assert t[..1] == [DigitChar(hi)];
    assert t[..1][..0] == [];
    assert DecValue(t[..1]) == hi;
    assert DecValue(t) == hi * 10 + lo;
  }

  /** `Format02d` holds v modulo 100 in exactly two digits: for the values
      [0, 99] its callers pass, that is %02d. */
  lemma TwoDigitsMeaning(v: nat)
    ensures TwoDigits(v) == Format64Text(v % 100, 2)
    ensures AllDigits(TwoDigits(v)) && DecValue(TwoDigits(v)) == v % 100
  {
    TwoDigitsModulo(v);
    TwoDigitsShape(v % 100);
    TwoDigitsValue(v % 100);
  }

  /** Formats [0 .. 99] as %02d, writing the last digit first. */
  method Format02d(v: int) returns (text: seq<char>)
    requires v >= 0
    ensures text == TwoDigits(v)
  {
    text := [DigitChar(v % 10)];
    text := [DigitChar((v / 10) % 10)] + text;
  }

  /** The separator a mode string starts with: '\0' when the mode is empty. */
  function ModeSep(mode: seq<char>): char { CharAt(mode, 0) }

  /** "*" after the separator: seconds are shown. */
  predicate ModeExt(mode: seq<char>) { ModeSep(mode) != '\0' && CharAt(mode, 1) == '*' }

  /** ":*:": zero minutes and seconds are dropped from the right. */
  predicate ModeCcc(mode: seq<char>) { ModeExt(mode) && CharAt(mode, 2) == ':' }

  /** What `FormatOffset(ep, offset, mode)` writes, for the modes "" (+hhmm),
      ":" (+hh:mm), ":*" (+hh:mm:ss) and ":*:" (+hh[:mm[:ss]]). A sign '-' is
      written only for a negative offset some of whose shown fields are non-zero. */
  function FormatOffsetText(offset: int, mode: seq<char>): seq<char>
  {
    var a := Abs(offset);
    var sep := ModeSep(mode);
    [if OffsetMinus(offset, mode) then '-' else '+']
    + TwoDigits(a / 3600)
    + (if ShowsMinutes(offset, mode) then SepText(sep) + TwoDigits((a / 60) % 60) else [])
    + (if ShowsSeconds(offset, mode) then [sep] + TwoDigits(a % 60) else [])
  }

  /** The separator, or nothing for the mode "". */
  function SepText(sep: char): seq<char> { if sep == '\0' then [] else [sep] }

  /** Seconds are shown by ":*", and by ":*:" when they are not zero. */
  predicate ShowsSeconds(offset: int, mode: seq<char>)
  {
    ModeExt(mode) && (!ModeCcc(mode) || Abs(offset) % 60 != 0)
  }

  /** Minutes are dropped only by ":*:", when minutes and seconds are zero. */
  predicate ShowsMinutes(offset: int, mode: seq<char>)
  {
    !ModeCcc(mode) || (Abs(offset) / 60) % 60 != 0 || Abs(offset) % 60 != 0
  }

  /** The sign is '-' for a negative offset unless every shown field is zero. */
  predicate OffsetMinus(offset: int, mode: seq<char>)
  {
    offset < 0 && (ShowsSeconds(offset, mode) || Abs(offset) / 3600 != 0 || (Abs(offset) / 60) % 60 != 0)
  }

  /** The hours, minutes and seconds of |offset|, by repeated division. */
  method SplitOffset(offset: int) returns (hours: nat, minutes: nat, seconds: nat)
    requires Int32Min < offset <= Int32Max
    ensures seconds == Abs(offset) % 60 && minutes == (Abs(offset) / 60) % 60
    ensures hours == Abs(offset) / 3600
  {
    var off := offset;
    if off < 0 {
      off := -off;
    }
    seconds := off % 60;
    off := off / 60;
    minutes := off % 60;
    off := off / 60;
    hours := off;
  }

  /** Formats a UTC offset. The offset is negated first, so it must not be the
      minimum `int`. */
  method FormatOffset(offset: int, mode: seq<char>) returns (text: seq<char>)
    requires Int32Min < offset <= Int32Max
    ensures text == FormatOffsetText(offset, mode)
  {
    var sign := '+';
    var hours, minutes, seconds := SplitOffset(offset);
    if offset < 0 {
      sign := '-';
    }
    var sep := CharAt(mode, 0);
    var ext := sep != '\0' && CharAt(mode, 1) == '*';
    var ccc := ext && CharAt(mode, 2) == ':';
    ghost var secText := if ShowsSeconds(offset, mode) then [sep] + TwoDigits(seconds) else [];
    ghost var minText := if ShowsMinutes(offset, mode) then SepText(sep) + TwoDigits(minutes) else [];
    var t: seq<char>;
    text := [];
    if ext && (!ccc || seconds != 0) {
      t := Format02d(seconds);
      text := t + text;
      text := [sep] + text;
    } else {
      // Without seconds, a sub-minute negative offset gets a positive sign.
      if hours == 0 && minutes == 0 {
        sign := '+';
      }
    }
    assert text == secText && (sign == '-' <==> OffsetMinus(offset, mode));
    if !ccc || minutes != 0 || seconds != 0 {
      t := Format02d(minutes);
      text := t + text;
      if sep != '\0' {
        text := [sep] + text;
      }
    }
    assert text == minText + secText;
    t := Format02d(hours);
    text := t + text;
    text := [sign] + text;
    assert text == [sign] + TwoDigits(hours) + minText + secText;
  }
}
