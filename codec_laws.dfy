/** How the writers and the parsers fit together: what `parse` reads back
    from what `format` writes for %Y, %E4Y, %s, the two-digit fields, the
    fractional seconds and the UTC offsets. */
module CodecLaws {
  import opened Base
  import opened DigitWriters
  import opened NumParse

  /** A digit run ends where the digits end. */
  lemma {:induction false} DigitSpanOfDigits(a: seq<char>, b: seq<char>)
    requires AllDigits(a) && (b == [] || !IsDigit(b[0]))
    ensures DigitSpan(a + b) == |a|
    decreases |a|
  {
    if a == [] {
      assert a + b == b;
    } else {
      assert (a + b)[1..] == a[1..] + b;
      DigitSpanOfDigits(a[1..], b);
    }
  }

  function SignText(neg: bool): seq<char> { if neg then "-" else "" }

  lemma SignSplit(s: seq<char>, neg: bool, body: seq<char>, rest: seq<char>)
    requires s == SignText(neg) + body + rest && |body| >= 1 && body[0] != '-'
    ensures MinusSign(s) == neg
    ensures s[if neg then 1 else 0..] == body + rest
    ensures (body + rest)[..|body|] == body
    ensures |s| - |rest| == (if neg then 1 else 0) + |body|
  {
  }

  /** When the input is an optional '-' and a digit string that the width
      lets `ParseInt` read whole, it returns the signed value of the digits. */
  lemma ParseSignedDigits(s: seq<char>, width: int, min: int, max: int, t: IntType,
                          neg: bool, body: seq<char>, rest: seq<char>)
    requires s == SignText(neg) + body + rest
    requires AllDigits(body) && |body| >= 1
    requires RunLength(body + rest, if neg && width > 1 then width - 1 else width) == |body|
    requires !(neg && width == 1) && (neg ==> DecValue(body) > 0)
    requires var v := if neg then 0 - DecValue(body) else DecValue(body);
             t.Min() <= v <= t.Max() && min <= v <= max
    ensures ParseIntSpec(s, width, min, max, t)
            == Some((if neg then 0 - DecValue(body) else DecValue(body), |s| - |rest|))
  {
    SignSplit(s, neg, body, rest);
    IntDigitsOf(s, width, neg, body, rest);
    ParseIntSpecOf(s, width, min, max, t, body);
    IntChecksAccept(neg, width, |body|, DecValue(body), min, max, t);
  }

  lemma IntDigitsOf(s: seq<char>, width: int, neg: bool, body: seq<char>, rest: seq<char>)
    requires MinusSign(s) == neg && s[if neg then 1 else 0..] == body + rest
    requires (body + rest)[..|body|] == body
    requires RunLength(body + rest, if neg && width > 1 then width - 1 else width) == |body|
    ensures IntDigits(s, width) == body
  {
  }

  /** The unsigned part of `Format64Text`: the text after the optional '-'. */
  lemma Format64Body(v: int, width: int)
    ensures var text := Format64Text(v, width);
            var off := if v < 0 then 1 else 0;
            && off <= |text| && text == SignText(v < 0) + text[off..]
            && AllDigits(text[off..]) && |text[off..]| >= 1 && DecValue(text[off..]) == Abs(v)
  {
    var text := Format64Text(v, width);
    var off: nat := if v < 0 then 1 else 0;
    Format64TextMeaning(v, width);
    TextSplit(text, off, v < 0);
  }

  /** `ParseInt` reads back what `Format64` writes: with width 0 (%Y, %s)
      when the text is not followed by a digit, and with a positive width
      (%E4Y) when the value fits in that width, whatever follows. */
  lemma ParseFormat64(v: int, width: int, rest: seq<char>, min: int, max: int, t: IntType)
    requires t.Min() <= v <= t.Max() && min <= v <= max
    requires width <= 0 ==> rest == [] || !IsDigit(rest[0])
    requires width > 0 ==> |Format64Text(v, width)| == width
    ensures ParseIntSpec(Format64Text(v, width) + rest, width, min, max, t)
            == Some((v, |Format64Text(v, width)|))
  {
    Format64Body(v, width);
    ParseSignedText(Format64Text(v, width), v, width, rest, min, max, t);
  }

  /** `ParseInt` reads back a sign and the digits of |v|. */
  lemma ParseSignedText(text: seq<char>, v: int, width: int, rest: seq<char>, min: int, max: int, t: IntType)
    requires t.Min() <= v <= t.Max() && min <= v <= max
    requires var off := if v < 0 then 1 else 0;
             && off <= |text| && text == SignText(v < 0) + text[off..]
             && AllDigits(text[off..]) && |text[off..]| >= 1 && DecValue(text[off..]) == Abs(v)
    requires width <= 0 ==> rest == [] || !IsDigit(rest[0])
    requires width > 0 ==> |text| == width
    ensures ParseIntSpec(text + rest, width, min, max, t) == Some((v, |text|))
  {
    var off: nat := if v < 0 then 1 else 0;
    var body := text[off..];
    BodyRun(body, rest, width, v < 0);
    var e := if v < 0 then 0 - DecValue(body) else DecValue(body);
    assert e == v;
    var s := text + rest;
    assert |s| - |rest| == |text|;
    ParseSignedDigits(s, width, min, max, t, v < 0, body, rest);
  }

  /** The digit run `ParseInt` reads after the sign is the whole body. */
  lemma BodyRun(body: seq<char>, rest: seq<char>, width: int, neg: bool)
    requires AllDigits(body) && |body| >= 1
    requires width <= 0 ==> rest == [] || !IsDigit(rest[0])
    requires width > 0 ==> |body| + (if neg then 1 else 0) == width
    ensures !(neg && width == 1)
    ensures RunLength(body + rest, if neg && width > 1 then width - 1 else width) == |body|
  {
    if width <= 0 {
      DigitSpanOfDigits(body, rest);
    } else {
      DigitSpanAtLeast(body + rest, |body|);
    }
  }

  lemma TextSplit(text: seq<char>, off: nat, neg: bool)
    requires off == (if neg then 1 else 0) <= |text| && (neg ==> text[0] == '-')
    ensures text == SignText(neg) + text[off..]
  {
  }

  /** `ParseInt(s, 2, 0, max)` reads back a `Format02d` field. */
  lemma ParseTwoDigits(v: nat, max: int, rest: seq<char>)
    requires v <= max && v < 100
    ensures ParseIntSpec(TwoDigits(v) + rest, 2, 0, max, Int32) == Some((v, 2))
  {
    TwoDigitsMeaning(v);
    assert v % 100 == v;
    ParseFormat64(v, 2, rest, 0, max, Int32);
  }

  /** A digit string is determined by its length and its value. */
  lemma {:induction false} DecValueInjective(a: seq<char>, b: seq<char>)
    requires AllDigits(a) && AllDigits(b) && |a| == |b| && DecValue(a) == DecValue(b)
    ensures a == b
    decreases |a|
  {
    if a != [] {
      var k := |a| - 1;
      DivMod10(DecValue(a), DecValue(a[..k]), DigitValue(a[k]));
      DivMod10(DecValue(b), DecValue(b[..k]), DigitValue(b[k]));
      DecValueInjective(a[..k], b[..k]);
      assert a == a[..k] + [a[k]] && b == b[..k] + [b[k]];
    }
  }

  /** Printing the value of a digit string in its own width gives it back,
      leading zeros included. */
  lemma FixedWidthText(x: seq<char>)
    requires AllDigits(x) && |x| >= 1
    ensures Format64Text(DecValue(x), |x|) == x
  {
    var v := DecValue(x);
    DecValueBound(x);
    DigitsLength(v, |x|);
    Format64TextMeaning(v, |x|);
    DecValueInjective(Format64Text(v, |x|), x);
  }

  lemma ZerosSnoc(a: seq<char>, j: nat)
    requires AllDigits(a) && j > 0
    ensures var t := a + Zeros(j);
            && AllDigits(t) && |t| > 0 && t[..|t| - 1] == a + Zeros(j - 1)
            && t[|t| - 1] == '0' && AllDigits(a + Zeros(j - 1))
  {
    assert a + Zeros(j) == (a + Zeros(j - 1)) + ['0'];
  }

  lemma ScaleByTen(x: nat, j: nat)
    requires j > 0
    ensures x * Pow10(j - 1) * 10 == x * Pow10(j)
  {
  }

  /** Appending zeros multiplies the value by a power of ten. */
  lemma {:induction false} DecValueZerosRight(a: seq<char>, j: nat)
    requires AllDigits(a)
    ensures AllDigits(a + Zeros(j)) && DecValue(a + Zeros(j)) == DecValue(a) * Pow10(j)
  {
    if j == 0 {
      assert a + Zeros(0) == a;
    } else {
      ZerosSnoc(a, j);
      DecValueZerosRight(a, j - 1);
      var t := a + Zeros(j);
      assert DecValue(t) == DecValue(a + Zeros(j - 1)) * 10 + DigitValue('0');
      ScaleByTen(DecValue(a), j);
    }
  }

  lemma PrefixDigits(s: seq<char>, n: nat, k: nat)
    requires k <= n <= |s| && AllDigits(s[..n])
    ensures AllDigits(s[..k])
  {
    assert forall i :: 0 <= i < k ==> s[..k][i] == s[..n][i];
  }

  /** Up to w digits, scaled to w digits and spelled back in w digits: the
      same digits, right-padded with zeros. */
  lemma PaddedDigits(d: seq<char>, w: nat)
    requires AllDigits(d) && 1 <= w && |d| <= w
    ensures DecValue(d) * Pow10(w - |d|) < Pow10(w)
    ensures Format64Text(DecValue(d) * Pow10(w - |d|), w) == d + Zeros(w - |d|)
  {
    var x := d + Zeros(w - |d|);
    DecValueZerosRight(d, w - |d|);
    DecValueBound(x);
    FixedWidthText(x);
  }

  /** The femtoseconds `ParseSubSeconds` returns lie in [0, 10^15), and their
      fifteen-digit spelling is the first fifteen input digits, padded on the
      right with zeros: later digits are dropped, not rounded. The whole
      digit run is consumed. */
  lemma SubSecondsMeaning(s: seq<char>)
    requires SubSecondsSpec(s).Some?
    ensures var (v, n) := SubSecondsSpec(s).value;
            var k := if n < FemtoDigits then n else FemtoDigits;
            && n == DigitSpan(s) && 1 <= n
            && 0 <= v < Pow10(FemtoDigits)
            && Format64Text(v, FemtoDigits) == s[..k] + Zeros(FemtoDigits - k)
  {
    var w := FemtoDigits;
    var n := DigitSpan(s);
    var k := if n < w then n else w;
    TruncatedDigits(s, n, k, w);
  }

  /** `ParseSubSeconds` fails exactly when no digit starts the input. */
  lemma SubSecondsNeedDigit(s: seq<char>)
    ensures SubSecondsSpec(s).None? <==> s == [] || !IsDigit(s[0])
  {
    if s != [] && IsDigit(s[0]) {
      assert s[..1] == [s[0]];
      DigitSpanAtLeast(s, 1);
    }
  }

  /** `ParseZone` fails exactly when the input is empty or starts with white
      space; otherwise the name is the whole run of characters that are not
      white space. */
  lemma ZoneSpecMeaning(s: seq<char>)
    ensures ZoneSpec(s).None? <==> s == [] || IsSpace(s[0])
    ensures ZoneSpec(s).Some? ==>
              var (z, n) := ZoneSpec(s).value;
              && 1 <= n == |z| && z == s[..n]
              && (forall i :: 0 <= i < n ==> !IsSpace(z[i]))
              && (n == |s| || IsSpace(s[n]))
  {
  }

  lemma TruncatedDigits(s: seq<char>, n: nat, k: nat, w: nat)
    requires n == DigitSpan(s) && 1 <= w && k == (if n < w then n else w)
    ensures 0 <= DecValue(s[..k]) * Pow10(w - k) < Pow10(w)
    ensures Format64Text(DecValue(s[..k]) * Pow10(w - k), w) == s[..k] + Zeros(w - k)
  {
    PrefixDigits(s, n, k);
    var d := s[..k];
    assert |d| == k;
    PaddedDigits(d, w);
    var v := DecValue(d);
    var p := Pow10(w - k);
    MulNonNegative(v, p);
  }

  lemma MulNonNegative(a: nat, b: nat)
    ensures 0 <= a * b
  {
  }
}
