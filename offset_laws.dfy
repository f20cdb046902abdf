/** What `ParseOffset` reads, and what it reads back from `FormatOffset`.
    The %z family formats with one mode and parses with another: %z writes
    "" and reads "", %:z and %Ez write ":" and read ":", %::z and %E*z write
    ":*" and read ":", %:::z writes ":*:" and reads ":". Parsing needs only
    the separator to agree. */
module OffsetLaws {
  import opened Base
  import opened DigitWriters
  import opened NumParse
  import opened CodecLaws

  /** A field that does not start with a digit is not a field: `ParseInt`
      with minimum 0 refuses it, a '-' included. */
  lemma NoField(r: seq<char>, max: int)
    requires r == [] || !IsDigit(r[0])
    ensures ParseIntSpec(r, 2, 0, max, Int32).None?
  {
    ParseIntNeedsDigit(r, 2, 0, max, Int32);
    if ParseIntSpec(r, 2, 0, max, Int32).Some? {
      ParseIntSuccess(r, 2, 0, max, Int32);
    }
  }

  /** Where a formatted offset ends: neither a digit nor the separator
      follows, so `ParseOffset` reads no further field. */
  predicate Delimited(rest: seq<char>, sep: char)
  {
    rest == [] || (!IsDigit(rest[0]) && (sep == '\0' || rest[0] != sep))
  }

  function Signed(c: char, total: int): int { if c == '-' then -total else total }

  /** Where the fields of "+hh[sep]mm[sep]ss" + rest start. */
  lemma FullShape(c: char, hh: seq<char>, sp: seq<char>, mm: seq<char>, ss: seq<char>, rest: seq<char>)
    requires |hh| == 2 && |mm| == 2 && |ss| == 2 && |sp| <= 1
    ensures var s := [c] + hh + sp + mm + sp + ss + rest;
            && s[0] == c && |s| == 7 + 2 * |sp| + |rest|
            && s[1..] == hh + (sp + mm + sp + ss + rest)
            && s[3 + |sp|..] == mm + (sp + ss + rest)
            && s[5 + 2 * |sp|..] == ss + rest
            && (sp != [] ==> s[3] == sp[0] && s[6] == sp[0])
            && (sp == [] ==> s[3] == mm[0] && s[5] == ss[0])
  {
  }

  /** Where the fields of "+hh[sep]mm" + rest start. */
  lemma MinutesShape(c: char, hh: seq<char>, sp: seq<char>, mm: seq<char>, rest: seq<char>)
    requires |hh| == 2 && |mm| == 2 && |sp| <= 1
    ensures var s := [c] + hh + sp + mm + rest;
            && s[0] == c && |s| == 5 + |sp| + |rest|
            && s[1..] == hh + (sp + mm + rest)
            && s[3 + |sp|..] == mm + rest
            && s[5 + |sp|..] == rest
            && (sp != [] ==> s[3] == sp[0])
            && (sp == [] ==> s[3] == mm[0])
            && CharAt(s, 5 + |sp|) == CharAt(rest, 0)
  {
  }

  /** Where the field of "+hh" + rest ends. */
  lemma HoursShape(c: char, hh: seq<char>, rest: seq<char>)
    requires |hh| == 2
    ensures var s := [c] + hh + rest;
            && s[0] == c && |s| == 3 + |rest|
            && s[1..] == hh + rest && s[3..] == rest && CharAt(s, 3) == CharAt(rest, 0)
  {
  }

  /** `ParseOffset` when only the hours field is present. */
  lemma ParseOffsetHoursField(s: seq<char>, pm: seq<char>, h: nat, he: nat, v: int)
    requires |s| >= 3 && (s[0] == '+' || s[0] == '-')
    requires ParseIntSpec(s[1..], 2, 0, 23, Int32) == Some((h, 2))
    requires he == (if ModeSep(pm) != '\0' && CharAt(s, 3) == ModeSep(pm) then 4 else 3) <= |s|
    requires ParseIntSpec(s[he..], 2, 0, 59, Int32).None?
    requires v == Signed(s[0], h * 3600)
    ensures ParseOffset(s, pm) == Some((v, he))
  {
  }

  /** `ParseOffset` when the hours and minutes fields are present. */
  lemma ParseOffsetTwoFields(s: seq<char>, pm: seq<char>, h: nat, m: nat, he: nat, me: nat)
    requires |s| >= 5 && (s[0] == '+' || s[0] == '-')
    requires ParseIntSpec(s[1..], 2, 0, 23, Int32) == Some((h, 2))
    requires he == (if ModeSep(pm) != '\0' && CharAt(s, 3) == ModeSep(pm) then 4 else 3) <= |s|
    requires ParseIntSpec(s[he..], 2, 0, 59, Int32) == Some((m, 2))
    requires me == (if ModeSep(pm) != '\0' && CharAt(s, he + 2) == ModeSep(pm) then he + 3 else he + 2) <= |s|
    requires ParseIntSpec(s[me..], 2, 0, 59, Int32).None?
    ensures ParseOffset(s, pm) == Some((Signed(s[0], (h * 60 + m) * 60), me))
  {
  }

  /** "+hh" or "-hh" alone. */
  lemma ParseHoursOnly(s: seq<char>, c: char, h: nat, rest: seq<char>, pm: seq<char>)
    requires (c == '+' || c == '-') && h <= 23 && Delimited(rest, ModeSep(pm))
    requires s == [c] + TwoDigits(h) + rest
    ensures ParseOffset(s, pm) == Some((Signed(c, h * 3600), 3))
  {
    HoursShape(c, TwoDigits(h), rest);
    ParseTwoDigits(h, 23, rest);
    NoField(rest, 59);
    ParseOffsetHoursField(s, pm, h, 3, Signed(c, h * 3600));
  }

  /** "+hh[sep]mm". */
  lemma ParseHoursMinutes(s: seq<char>, c: char, h: nat, m: nat, rest: seq<char>, pm: seq<char>)
    requires (c == '+' || c == '-') && h <= 23 && m <= 59 && Delimited(rest, ModeSep(pm))
    requires s == [c] + TwoDigits(h) + SepText(ModeSep(pm)) + TwoDigits(m) + rest
    ensures ParseOffset(s, pm) == Some((Signed(c, (h * 60 + m) * 60), 5 + |SepText(ModeSep(pm))|))
  {
    var sp := SepText(ModeSep(pm));
    var hh, mm := TwoDigits(h), TwoDigits(m);
    MinutesShape(c, hh, sp, mm, rest);
    ParseTwoDigits(h, 23, sp + mm + rest);
    ParseTwoDigits(m, 59, rest);
    NoField(rest, 59);
    ParseOffsetTwoFields(s, pm, h, m, 3 + |sp|, 5 + |sp|);
  }

  /** `ParseOffset` when all three fields are complete. */
  lemma ParseOffsetAllFields(s: seq<char>, pm: seq<char>, h: nat, m: nat, sec: nat, he: nat, me: nat)
    requires |s| >= 7 && (s[0] == '+' || s[0] == '-')
    requires ParseIntSpec(s[1..], 2, 0, 23, Int32) == Some((h, 2))
    requires he == (if ModeSep(pm) != '\0' && CharAt(s, 3) == ModeSep(pm) then 4 else 3) <= |s|
    requires ParseIntSpec(s[he..], 2, 0, 59, Int32) == Some((m, 2))
    requires me == (if ModeSep(pm) != '\0' && CharAt(s, he + 2) == ModeSep(pm) then he + 3 else he + 2) <= |s|
    requires ParseIntSpec(s[me..], 2, 0, 59, Int32) == Some((sec, 2))
    ensures ParseOffset(s, pm) == Some((Signed(s[0], (h * 60 + m) * 60 + sec), me + 2))
  {
  }

  /** "+hh[sep]mm[sep]ss", whatever follows. */
  lemma ParseFullOffset(s: seq<char>, c: char, h: nat, m: nat, sec: nat, rest: seq<char>, pm: seq<char>,
                         v: int, n: nat)
    requires (c == '+' || c == '-') && h <= 23 && m <= 59 && sec <= 59
    requires s == [c] + TwoDigits(h) + SepText(ModeSep(pm)) + TwoDigits(m)
                  + SepText(ModeSep(pm)) + TwoDigits(sec) + rest
    requires v == Signed(c, (h * 60 + m) * 60 + sec) && n == 7 + 2 * |SepText(ModeSep(pm))|
    ensures ParseOffset(s, pm) == Some((v, n))
  {
    var sp := SepText(ModeSep(pm));
    var hh, mm, ss := TwoDigits(h), TwoDigits(m), TwoDigits(sec);
    FullShape(c, hh, sp, mm, ss, rest);
    ParseTwoDigits(h, 23, sp + mm + sp + ss + rest);
    ParseTwoDigits(m, 59, sp + ss + rest);
    ParseTwoDigits(sec, 59, rest);
    ParseOffsetAllFields(s, pm, h, m, sec, 3 + |sp|, 5 + 2 * |sp|);
  }

  /** The fields of an offset of less than a day. */
  lemma OffsetFields(o: int)
    requires -86400 < o < 86400
    ensures Abs(o) / 3600 <= 23 && (Abs(o) / 60) % 60 <= 59 && Abs(o) % 60 <= 59
    ensures Abs(o) == (Abs(o) / 3600 * 60 + (Abs(o) / 60) % 60) * 60 + Abs(o) % 60
  {
  }

  /** The value `ParseOffset` recovers from `FormatOffset(o, mode)`: o itself
      when the seconds are shown, and otherwise o truncated toward zero to
      whole minutes. */
  function RecoveredOffset(o: int, mode: seq<char>): int
  {
    if ShowsSeconds(o, mode) then o else CDiv(o, 60) * 60
  }

  /** `FormatOffset` writes '-' exactly when the offset its text denotes is
      negative: a negative offset whose shown fields are all zero is written
      with '+'. */
  lemma OffsetSign(o: int, mode: seq<char>)
    requires Int32Min < o <= Int32Max
    ensures FormatOffsetText(o, mode)[0] == '-' <==> RecoveredOffset(o, mode) < 0
  {
    var a := Abs(o);
    if !ShowsSeconds(o, mode) && o < 0 {
      var q: int := a / 60;
      assert q == (a / 3600) * 60 + q % 60 by {
        assert a / 3600 == q / 60;
      }
      assert CDiv(o, 60) == -q;
    }
  }

  /** Ten seconds west of UTC, to the minute: "+00:00", not "-00:00". */
  lemma NearZeroOffset()
    ensures FormatOffsetText(-10, ":") == "+00:00"
    ensures FormatOffsetText(-10, ":*") == "-00:00:10"
    ensures FormatOffsetText(-3600, ":*:") == "-01"
  {
    assert TwoDigits(0) == "00" && TwoDigits(1) == "01" && TwoDigits(10) == "10";
    assert !ShowsSeconds(-10, ":") && ShowsMinutes(-10, ":") && !OffsetMinus(-10, ":");
    assert ShowsSeconds(-10, ":*") && OffsetMinus(-10, ":*");
    assert !ShowsSeconds(-3600, ":*:") && !ShowsMinutes(-3600, ":*:") && OffsetMinus(-3600, ":*:");
  }

  /** `ParseOffset` reads back what `FormatOffset` writes, for every offset of
      less than a day and every mode, when parsing with the same separator: it
      consumes the whole text and returns `RecoveredOffset`. Unless seconds
      were written the text must be delimited, since a following digit or
      separator would be read as one more field. */
  lemma ParseFormatOffset(o: int, mode: seq<char>, pm: seq<char>, rest: seq<char>)
    requires -86400 < o < 86400 && ModeSep(pm) == ModeSep(mode)
    requires !ShowsSeconds(o, mode) ==> Delimited(rest, ModeSep(mode))
    ensures ParseOffset(FormatOffsetText(o, mode) + rest, pm)
            == Some((RecoveredOffset(o, mode), |FormatOffsetText(o, mode)|))
  {
    if ShowsSeconds(o, mode) {
      RecoverSeconds(o, mode, pm, rest);
    } else if ShowsMinutes(o, mode) {
      RecoverMinutes(o, mode, pm, rest);
    } else {
      RecoverHours(o, mode, pm, rest);
    }
  }

  lemma RecoverSeconds(o: int, mode: seq<char>, pm: seq<char>, rest: seq<char>)
    requires -86400 < o < 86400 && ModeSep(pm) == ModeSep(mode) && ShowsSeconds(o, mode)
    ensures ParseOffset(FormatOffsetText(o, mode) + rest, pm) == Some((o, |FormatOffsetText(o, mode)|))
  {
    var a := Abs(o);
    var h, m, sec := a / 3600, (a / 60) % 60, a % 60;
    OffsetFields(o);
    var c := if o < 0 then '-' else '+';
    SecondsText(o, mode, rest);
    ParseFullOffset(FormatOffsetText(o, mode) + rest, c, h, m, sec, rest, pm, o, |FormatOffsetText(o, mode)|);
  }

  /** The text of an offset whose seconds are shown. */
  lemma SecondsText(o: int, mode: seq<char>, rest: seq<char>)
    requires ShowsSeconds(o, mode)
    ensures var a := Abs(o);
            var sp := SepText(ModeSep(mode));
            && sp == [ModeSep(mode)]
            && FormatOffsetText(o, mode) + rest
               == [if o < 0 then '-' else '+'] + TwoDigits(a / 3600) + sp + TwoDigits((a / 60) % 60)
                  + sp + TwoDigits(a % 60) + rest
            && |FormatOffsetText(o, mode)| == 7 + 2 * |sp|
  {
  }

  lemma RecoverMinutes(o: int, mode: seq<char>, pm: seq<char>, rest: seq<char>)
    requires -86400 < o < 86400 && ModeSep(pm) == ModeSep(mode)
    requires !ShowsSeconds(o, mode) && ShowsMinutes(o, mode) && Delimited(rest, ModeSep(mode))
    ensures ParseOffset(FormatOffsetText(o, mode) + rest, pm)
            == Some((CDiv(o, 60) * 60, |FormatOffsetText(o, mode)|))
  {
    var a := Abs(o);
    var h, m, sec := a / 3600, (a / 60) % 60, a % 60;
    OffsetFields(o);
    var sp := SepText(ModeSep(mode));
    var c := if OffsetMinus(o, mode) then '-' else '+';
    var text := FormatOffsetText(o, mode);
    assert text == [c] + TwoDigits(h) + sp + TwoDigits(m);
    assert text + rest == [c] + TwoDigits(h) + sp + TwoDigits(m) + rest;
    ParseHoursMinutes(text + rest, c, h, m, rest, pm);
    MinutesOf(o, h, m, sec);
  }

  lemma RecoverHours(o: int, mode: seq<char>, pm: seq<char>, rest: seq<char>)
    requires -86400 < o < 86400 && ModeSep(pm) == ModeSep(mode)
    requires !ShowsSeconds(o, mode) && !ShowsMinutes(o, mode) && Delimited(rest, ModeSep(mode))
    ensures ParseOffset(FormatOffsetText(o, mode) + rest, pm)
            == Some((CDiv(o, 60) * 60, |FormatOffsetText(o, mode)|))
  {
    var a := Abs(o);
    var h, m, sec := a / 3600, (a / 60) % 60, a % 60;
    OffsetFields(o);
    var c := if OffsetMinus(o, mode) then '-' else '+';
    var text := FormatOffsetText(o, mode);
    assert text == [c] + TwoDigits(h);
    assert text + rest == [c] + TwoDigits(h) + rest;
    ParseHoursOnly(text + rest, c, h, rest, pm);
    MinutesOf(o, h, m, sec);
  }

  /** Truncating an offset to whole minutes drops its seconds field. */
  lemma MinutesOf(o: int, h: nat, m: nat, sec: nat)
    requires -86400 < o < 86400
    requires h == Abs(o) / 3600 && m == (Abs(o) / 60) % 60 && sec == Abs(o) % 60
    ensures CDiv(o, 60) * 60 == Signed(if o < 0 then '-' else '+', (h * 60 + m) * 60)
    ensures h == 0 && m == 0 ==> CDiv(o, 60) * 60 == 0
  {
    OffsetFields(o);
    DivMod60(Abs(o), h * 60 + m, sec);
  }

  lemma DivMod60(a: int, q: int, r: int)
    requires a == 60 * q + r && 0 <= r < 60
    ensures a / 60 == q
  {
  }

  /** What a successful `ParseOffset` promises: "Z" means zero; otherwise
      a sign, two hour digits in [00, 23] and fields that keep the magnitude
      below a day, '-' exactly when the result is negative or a negative
      zero. At least three characters are consumed, at most nine. */
  lemma ParseOffsetSuccess(s: seq<char>, pm: seq<char>)
    requires ParseOffset(s, pm).Some?
    ensures var (v, n) := ParseOffset(s, pm).value;
            && n <= |s|
            && (s[0] == 'Z' ==> v == 0 && n == 1)
            && (s[0] != 'Z' ==>
                  && (s[0] == '+' || s[0] == '-')
                  && 3 <= n <= 9
                  && AllDigits(s[1..3]) && DecValue(s[1..3]) <= 23
                  && -86400 < v < 86400
                  && (v < 0 ==> s[0] == '-') && (v > 0 ==> s[0] == '+'))
  {
    if s[0] != 'Z' {
      var h, m, sec := ParseOffsetParts(s, pm);
    }
  }

  /** A successful signed `ParseOffset` in terms of its three fields. */
  lemma ParseOffsetParts(s: seq<char>, pm: seq<char>) returns (h: nat, m: nat, sec: nat)
    requires ParseOffset(s, pm).Some? && s[0] != 'Z'
    ensures var (v, n) := ParseOffset(s, pm).value;
            && (s[0] == '+' || s[0] == '-') && 3 <= n <= 9 && n <= |s|
            && AllDigits(s[1..3]) && DecValue(s[1..3]) == h
            && h <= 23 && m <= 59 && sec <= 59
            && v == Signed(s[0], (h * 60 + m) * 60 + sec)
  {
    ParseOffsetLength(s, pm);
    h, m, sec := ParseOffsetFields(s, pm);
  }

  /** A signed offset consumes between three and nine characters. */
  lemma ParseOffsetLength(s: seq<char>, pm: seq<char>)
    requires ParseOffset(s, pm).Some? && s[0] != 'Z'
    ensures 3 <= ParseOffset(s, pm).value.1 <= 9 && ParseOffset(s, pm).value.1 <= |s|
  {
    var sep := CharAt(pm, 0);
    var he: nat := if sep != '\0' && CharAt(s, 3) == sep then 4 else 3;
    var mins := ParseIntSpec(s[he..], 2, 0, 59, Int32);
    if mins.Some? && mins.value.1 == 2 {
      ParseIntRange(s[he..], 2, 0, 59, Int32);
      var me: nat := if sep != '\0' && CharAt(s, he + 2) == sep then he + 3 else he + 2;
      var secs := ParseIntSpec(s[me..], 2, 0, 59, Int32);
      if secs.Some? {
        ParseIntRange(s[me..], 2, 0, 59, Int32);
      }
    }
  }

  lemma ParseOffsetFields(s: seq<char>, pm: seq<char>) returns (h: nat, m: nat, sec: nat)
    requires ParseOffset(s, pm).Some? && s[0] != 'Z'
    ensures var (v, n) := ParseOffset(s, pm).value;
            && (s[0] == '+' || s[0] == '-')
            && AllDigits(s[1..3]) && DecValue(s[1..3]) == h
            && h <= 23 && m <= 59 && sec <= 59
            && v == Signed(s[0], (h * 60 + m) * 60 + sec)
  {
    var hours := ParseIntSpec(s[1..], 2, 0, 23, Int32);
    ParseIntSuccess(s[1..], 2, 0, 23, Int32);
    assert s[1..][0..2] == s[1..3];
    h := hours.value.0;
    var sep := CharAt(pm, 0);
    var he: nat := if sep != '\0' && CharAt(s, 3) == sep then 4 else 3;
    var mins := ParseIntSpec(s[he..], 2, 0, 59, Int32);
    m, sec := 0, 0;
    if mins.Some? {
      ParseIntRange(s[he..], 2, 0, 59, Int32);
      m := mins.value.0;
      if mins.value.1 == 2 {
        var me: nat := if sep != '\0' && CharAt(s, he + 2) == sep then he + 3 else he + 2;
        var secs := ParseIntSpec(s[me..], 2, 0, 59, Int32);
        if secs.Some? {
          ParseIntRange(s[me..], 2, 0, 59, Int32);
          sec := secs.value.0;
        }
      }
    }
  }

  /** A minute field of a single digit is not consumed, yet its value is
      added: `ParseInt` stores the value before the length test rejects it.
      So "+01" followed by "5" and the end of the input reads as +01:05
      while only "+01" is consumed. */
  lemma ShortMinutesKept(c: char, h: nat, d: nat, pm: seq<char>)
    requires (c == '+' || c == '-') && h <= 23 && d < 10 && ModeSep(pm) != DigitChar(d)
    ensures ParseOffset([c] + TwoDigits(h) + [DigitChar(d)], pm) == Some((Signed(c, (h * 60 + d) * 60), 3))
  {
    var s := [c] + TwoDigits(h) + [DigitChar(d)];
    HoursShape(c, TwoDigits(h), [DigitChar(d)]);
    ParseTwoDigits(h, 23, [DigitChar(d)]);
    OneDigitField(d);
    ParseOffsetShortMinutes(s, pm, h, 3, d, Signed(c, (h * 60 + d) * 60));
  }

  /** A single digit read as a two-digit field. */
  lemma OneDigitField(d: nat)
    requires d < 10
    ensures ParseIntSpec([DigitChar(d)], 2, 0, 59, Int32) == Some((d, 1))
  {
    var body := [DigitChar(d)];
    assert body == SignText(false) + body + [];
    assert DecValue(body) == d by {
      assert body[..0] == [];
    }
    assert DigitSpan(body) == 1 by {
      assert body[1..] == [];
    }
    assert RunLength(body + [], 2) == 1 by {
      assert body + [] == body;
    }
    ParseSignedDigits(body, 2, 0, 59, Int32, false, body, []);
  }

  /** `ParseOffset` when the minute field is a single digit. */
  lemma ParseOffsetShortMinutes(s: seq<char>, pm: seq<char>, h: nat, he: nat, m: nat, v: int)
    requires |s| >= 3 && (s[0] == '+' || s[0] == '-')
    requires ParseIntSpec(s[1..], 2, 0, 23, Int32) == Some((h, 2))
    requires he == (if ModeSep(pm) != '\0' && CharAt(s, 3) == ModeSep(pm) then 4 else 3) <= |s|
    requires ParseIntSpec(s[he..], 2, 0, 59, Int32) == Some((m, 1))
    requires v == Signed(s[0], (h * 60 + m) * 60)
    ensures ParseOffset(s, pm) == Some((v, he))
  {
  }

  /** The separator is consumed even when no field follows it: "+01:" at the
      end of the input reads as +01:00 and all four characters are consumed. */
  lemma SeparatorConsumed(c: char, h: nat, pm: seq<char>)
    requires (c == '+' || c == '-') && h <= 23 && ModeSep(pm) != '\0'
    ensures ParseOffset([c] + TwoDigits(h) + [ModeSep(pm)], pm) == Some((Signed(c, h * 3600), 4))
  {
    var s := [c] + TwoDigits(h) + [ModeSep(pm)];
    HoursShape(c, TwoDigits(h), [ModeSep(pm)]);
    assert s[4..] == [];
    ParseTwoDigits(h, 23, [ModeSep(pm)]);
    NoField([], 59);
    ParseOffsetHoursField(s, pm, h, 4, Signed(c, h * 3600));
  }
}
