/** The fractional seconds of %E*S, %E*f, %E#S and %E#f. `format` spells the
    femtoseconds in fifteen digits; the star forms drop the trailing zeros,
    and the digit forms keep the first n digits, zeros after the fifteenth,
    at most eighteen of them. */
module FractionLaws {
  import opened Base
  import opened DigitWriters
  import opened NumParse
  import opened CodecLaws
  import opened Formatter

  /** Stripping trailing zeros leaves a prefix that ends in another digit,
      and the zeros it took off. */
  lemma {:induction false} StripZerosMeaning(t: seq<char>)
    ensures var r := StripZeros(t);
            t == r + Zeros(|t| - |r|) && (r == [] || r[|r| - 1] != '0')
    decreases |t|
  {
    if t != [] && t[|t| - 1] == '0' {
      var u := t[..|t| - 1];
      SplitLast(t);
      var r := StripZeros(u);
      assert StripZeros(t) == r;
      StripZerosMeaning(u);
      var z := Zeros(|u| - |r|);
      assert Zeros(|t| - |r|) == z + ['0'];
      ConcatAssoc(r, z, ['0']);
    } else {
      assert StripZeros(t) == t;
      assert t + Zeros(0) == t;
    }
  }

  lemma SplitLast(t: seq<char>)
    requires |t| > 0
    ensures t == t[..|t| - 1] + [t[|t| - 1]]
  {
  }

  /** The fifteen digits of a fraction of a second: their value is the
      femtoseconds. */
  lemma FemtoText(fs: nat)
    requires fs < FemtosPerSecond
    ensures var t := Format64Text(fs, FemtoDigits);
            |t| == FemtoDigits && AllDigits(t) && DecValue(t) == fs
  {
    FemtosPerSecondIsPow10();
    DigitsLength(fs, FemtoDigits);
    Format64TextMeaning(fs, FemtoDigits);
    var t := Format64Text(fs, FemtoDigits);
    assert t[0..] == t;
  }

  lemma AtLeastOne(a: nat, b: nat)
    requires a >= 1 && b >= 1
    ensures a * b >= 1
  {
  }

  /** The fraction digits without their trailing zeros: the fewest digits
      that, read as the start of a fifteen-digit fraction, give back the
      femtoseconds. None for a whole second; otherwise the last is not
      zero. */
  lemma StrippedFraction(fs: nat)
    requires fs < FemtosPerSecond
    ensures var x := StripZeros(Format64Text(fs, FemtoDigits));
            && AllDigits(x) && |x| <= FemtoDigits
            && (x == [] <==> fs == 0) && (x == [] || x[|x| - 1] != '0')
            && DecValue(x) * Pow10(FemtoDigits - |x|) == fs
  {
    var t := Format64Text(fs, FemtoDigits);
    var x := StripZeros(t);
    FemtoText(fs);
    StripZerosMeaning(t);
    assert AllDigits(x) by {
      assert forall i :: 0 <= i < |x| ==> x[i] == t[i];
    }
    DecValueZerosRight(x, FemtoDigits - |x|);
    NoDigitsNoValue(x, Pow10(FemtoDigits - |x|), fs);
  }

  /** A digit string that does not end in '0' is empty exactly when its
      value is zero. */
  lemma NoDigitsNoValue(x: seq<char>, p: nat, v: nat)
    requires AllDigits(x) && p >= 1 && DecValue(x) * p == v && (x == [] || x[|x| - 1] != '0')
    ensures x == [] <==> v == 0
  {
    if x != [] {
      var last := x[|x| - 1];
      assert IsDigit(last) && DigitValue(last) >= 1;
      assert DecValue(x) == DecValue(x[..|x| - 1]) * 10 + DigitValue(last);
      AtLeastOne(DecValue(x), p);
    }
  }

  /** The digits %E*f writes: "0" for a whole second, and otherwise those of
      `StrippedFraction`. */
  lemma StarFractionDigits(al: Lookup)
    ensures var w := StarFraction('f', al);
            && AllDigits(w) && 1 <= |w| <= FemtoDigits
            && (al.femtos == 0 <==> w == "0")
            && (al.femtos != 0 ==> w[|w| - 1] != '0' && DecValue(w) * Pow10(FemtoDigits - |w|) == al.femtos)
  {
    StrippedFraction(al.femtos);
  }

  /** `ParseSubSeconds` reads back what %E*f writes: every digit written is
      consumed, and the value is the femtoseconds, when no digit follows. */
  lemma StarFractionReadBack(al: Lookup, rest: seq<char>)
    requires rest == [] || !IsDigit(rest[0])
    ensures var w := StarFraction('f', al);
            SubSecondsSpec(w + rest) == Some((al.femtos, |w|))
  {
    var w := StarFraction('f', al);
    StarFractionDigits(al);
    if al.femtos == 0 {
      assert DecValue(w) == 0 by {
        assert w == "0" && w[..0] == [];
      }
    }
    SubSecondsOfDigits(w, rest, al.femtos);
  }

  /** At most fifteen digits, followed by a non-digit, are read as their
      value scaled to femtoseconds. */
  lemma SubSecondsOfDigits(w: seq<char>, rest: seq<char>, v: int)
    requires AllDigits(w) && 1 <= |w| <= FemtoDigits && DecValue(w) * Pow10(FemtoDigits - |w|) == v
    requires rest == [] || !IsDigit(rest[0])
    ensures SubSecondsSpec(w + rest) == Some((v, |w|))
  {
    DigitSpanOfDigits(w, rest);
    assert (w + rest)[..|w|] == w;
  }

  /** %E*S is the two-digit second, then '.' and the digits of %E*f unless
      the fraction is zero. */
  lemma StarSecondsShape(al: Lookup)
    ensures StarFraction('S', al)
            == TwoDigits(al.second) + (if al.femtos == 0 then [] else "." + StarFraction('f', al))
  {
    var x := StripZeros(Format64Text(al.femtos, FemtoDigits));
    StrippedFraction(al.femtos);
    assert StarFraction('f', al) == if x == [] then "0" else x;
    assert StarFraction('S', al) == TwoDigits(al.second) + (if x != [] then "." + x else []);
  }

  /** A digit string split in two: the value of the front, shifted, plus the
      value of the back. */
  lemma {:induction false} DecValueSplit(a: seq<char>, b: seq<char>)
    requires AllDigits(a) && AllDigits(b)
    ensures AllDigits(a + b) && DecValue(a + b) == DecValue(a) * Pow10(|b|) + DecValue(b)
    decreases |b|
  {
    assert forall i :: 0 <= i < |a + b| ==> (a + b)[i] == if i < |a| then a[i] else b[i - |a|];
    if b == [] {
      assert a + b == a;
    } else {
      var u := b[..|b| - 1];
      var ab := a + b;
      assert ab[..|ab| - 1] == a + u;
      DecValueSplit(a, u);
      assert DecValue(ab) == DecValue(a + u) * 10 + DigitValue(b[|b| - 1]);
      ScaleByTen(DecValue(a), |b|);
    }
  }

  lemma DivUnique(a: nat, p: nat, q: nat, r: nat)
    requires p > 0 && r < p && a == q * p + r
    ensures a / p == q
  {
    var q2, r2 := a / p, a % p;
    assert a == q2 * p + r2;
    if q2 > q {
      MulStep(q, q2, p);
    } else if q2 < q {
      MulStep(q2, q, p);
    }
  }

  lemma MulStep(x: nat, y: nat, p: nat)
    requires x < y
    ensures x * p + p <= y * p
  {
    MulNonNegative(y - x - 1, p);
    assert y * p == x * p + p + (y - x - 1) * p;
  }

  lemma ZerosPrefix(m: nat, j: nat)
    requires j <= m
    ensures Zeros(m)[..j] == Zeros(j)
  {
  }

  /** The digits %E#f writes for a precision n: the first min(n, 18) digits
      of the fraction, spelled in fifteen digits and padded with zeros. No
      digits at all when n is not positive. */
  lemma DigitsFractionDigits(n: int, al: Lookup)
    ensures var k := if n > Digits10x64 then Digits10x64 else if n > 0 then n else 0;
            var w := DigitsFraction(n, 'f', al);
            && |w| == k && AllDigits(w)
            && w == (Format64Text(al.femtos, FemtoDigits) + Zeros(Digits10x64 - FemtoDigits))[..k]
  {
    var k: nat := if n > Digits10x64 then Digits10x64 else if n > 0 then n else 0;
    var t := Format64Text(al.femtos, FemtoDigits);
    var padded := t + Zeros(Digits10x64 - FemtoDigits);
    FemtoText(al.femtos);
    if n <= 0 {
      assert padded[..0] == [];
    } else if k > FemtoDigits {
      LongFraction(al.femtos, k);
      ZerosPrefix(Digits10x64 - FemtoDigits, k - FemtoDigits);
      assert padded[..k] == t + Zeros(Digits10x64 - FemtoDigits)[..k - FemtoDigits];
    } else {
      ShortFraction(al.femtos, k);
      assert padded[..k] == t[..k];
    }
  }

  /** More than fifteen digits: the fifteen, then zeros. */
  lemma LongFraction(fs: nat, k: nat)
    requires fs < FemtosPerSecond && FemtoDigits < k <= Digits10x64
    ensures Format64Text(FracValue(fs, k), k) == Format64Text(fs, FemtoDigits) + Zeros(k - FemtoDigits)
  {
    var t := Format64Text(fs, FemtoDigits);
    FemtoText(fs);
    PaddedDigits(t, k);
    assert FracValue(fs, k) == DecValue(t) * Pow10(k - FemtoDigits);
  }

  /** At most fifteen digits: the first k of the fifteen, the rest dropped
      rather than rounded. */
  lemma ShortFraction(fs: nat, k: nat)
    requires fs < FemtosPerSecond && 0 < k <= FemtoDigits
    ensures Format64Text(FracValue(fs, k), k) == Format64Text(fs, FemtoDigits)[..k]
  {
    var t := Format64Text(fs, FemtoDigits);
    FemtoText(fs);
    var a := t[..k];
    var p := Pow10(FemtoDigits - k);
    PrefixValue(t, k);
    assert FracValue(fs, k) == fs / p;
    FixedWidthText(a);
  }

  /** The first k digits of a digit string are its value divided by
      10^(|t| - k). */
  lemma PrefixValue(t: seq<char>, k: nat)
    requires AllDigits(t) && k <= |t|
    ensures AllDigits(t[..k]) && DecValue(t[..k]) == DecValue(t) / Pow10(|t| - k)
  {
    var a, b := t[..k], t[k..];
    assert t == a + b;
    assert AllDigits(a) && AllDigits(b) by {
      assert forall i :: 0 <= i < |a| ==> a[i] == t[i];
      assert forall i :: 0 <= i < |b| ==> b[i] == t[k + i];
    }
    DecValueSplit(a, b);
    DecValueBound(b);
    DivUnique(DecValue(t), Pow10(|t| - k), DecValue(a), DecValue(b));
  }

  /** %E#S is the two-digit second, then '.' and the digits of %E#f when
      the precision is positive. */
  lemma DigitsSecondsShape(n: int, al: Lookup)
    ensures DigitsFraction(n, 'S', al)
            == TwoDigits(al.second) + (if n > 0 then "." + DigitsFraction(n, 'f', al) else [])
  {
  }
}
