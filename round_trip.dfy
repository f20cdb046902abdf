/** `parse` reads back what `format` writes: the date format "%Y-%m-%d"
    for every real date with a 64-bit year, and the seconds and fraction of
    %E*S and %E*f. */
module RoundTrip {
  import opened Base
  import opened DigitWriters
  import opened NumParse
  import opened FormatScan
  import opened Formatter
  import opened FormatLaws
  import opened FractionLaws
  import opened Civil
  import opened CivilLaws
  import opened Parser
  import opened ParseLaws

  /** The state after "%Y-%m-%d" has read a year, a month and a day. */
  function DateState(year: int, month: int, day: int): State
  {
    Initial.(year := year, sawYear := true, tm := Initial.tm.(mon := month - 1, mday := day))
  }

  /** The text of a year never starts with white space. */
  lemma YearTextStart(y: int)
    ensures var t := Format64Text(y, 0); |t| >= 1 && !IsSpace(t[0]) && (|t| > 0 ==> t[0] != '%')
  {
    var t := Format64Text(y, 0);
    Format64TextMeaning(y, 0);
    if y >= 0 {
      assert t[0..] == t;
      assert IsDigit(t[0]);
    }
  }

  /** "%Y-" on a year followed by '-'. */
  lemma DateYear(fmt: seq<char>, inp: seq<char>, sp: Strptime, pm: Meridiem, year: int, rest: seq<char>)
    requires |fmt| > 3 && fmt[0] == '%' && fmt[1] == 'Y' && fmt[2] == '-' && StrptimeOk(sp) && IsInt64(year)
    requires inp == Format64Text(year, 0) + "-" + rest
    ensures var n := |Format64Text(year, 0)|;
            ParseLoop(fmt, inp, 0, 0, Initial, sp, pm)
            == ParseLoop(fmt, inp, 3, n + 1, Initial.(year := year, sawYear := true), sp, pm)
  {
    var t := Format64Text(year, 0);
    var n := |t|;
    YearTextStart(year);
    assert inp[..n] == t && inp[n] == '-';
    assert inp[0..n] == t;
    YearRoundTrip(inp, 0, 2, Initial, year);
    var st1 := Initial.(year := year, sawYear := true);
    assert Store(Initial, YearField, year) == st1;
    IntTurn(fmt, inp, 0, 0, Initial, sp, pm);
    assert ParseLoop(fmt, inp, 0, 0, Initial, sp, pm) == ParseLoop(fmt, inp, 2, n, st1, sp, pm);
    LiteralTurn(fmt, inp, 2, n, st1, sp, pm);
  }

  /** "%m-%d" on two digits, '-' and two digits. */
  lemma DateMonthDay(fmt: seq<char>, inp: seq<char>, sp: Strptime, pm: Meridiem, i: nat, st: State,
                     month: nat, day: nat)
    requires fmt == "%Y-%m-%d" && StrptimeOk(sp)
    requires 1 <= month <= 12 && 1 <= day <= 31
    requires i + 5 == |inp| && inp[i..] == TwoDigits(month) + "-" + TwoDigits(day)
    ensures ParseLoop(fmt, inp, 3, i, st, sp, pm)
            == Some((st.(tm := st.tm.(mon := month - 1, mday := day)), |inp|))
  {
    MonthDayText(inp, i, month, day);
    DateMonth(fmt, inp, sp, pm, i, st, month);
    var st2 := st.(tm := st.tm.(mon := month - 1));
    DateDay(fmt, inp, sp, pm, i + 3, st2, day);
    assert st2.(tm := st2.tm.(mday := day)) == st.(tm := st.tm.(mon := month - 1, mday := day));
  }

  /** Where the month, the '-' and the day lie in "mm-dd". */
  lemma MonthDayText(inp: seq<char>, i: nat, month: nat, day: nat)
    requires 1 <= month <= 12 && 1 <= day <= 31
    requires i + 5 == |inp| && inp[i..] == TwoDigits(month) + "-" + TwoDigits(day)
    ensures inp[i..i + 2] == TwoDigits(month) && inp[i + 2] == '-' && inp[i + 3..] == TwoDigits(day)
  {
    assert inp[i..i + 2] == inp[i..][..2];
    assert inp[i + 3..] == inp[i..][3..];
  }

  /** "%m-" on two digits and '-'. */
  lemma DateMonth(fmt: seq<char>, inp: seq<char>, sp: Strptime, pm: Meridiem, i: nat, st: State, month: nat)
    requires |fmt| > 6 && fmt[3] == '%' && fmt[4] == 'm' && fmt[5] == '-' && StrptimeOk(sp) && 1 <= month <= 12
    requires i + 3 <= |inp| && inp[i..i + 2] == TwoDigits(month) && inp[i + 2] == '-'
    ensures ParseLoop(fmt, inp, 3, i, st, sp, pm)
            == ParseLoop(fmt, inp, 6, i + 3, st.(tm := st.tm.(mon := month - 1)), sp, pm)
  {
    TwoDigitRoundTrip(inp, i, 5, st, MonthField, month, 1, 12);
    var st2 := st.(tm := st.tm.(mon := month - 1));
    assert Store(st, MonthField, month) == st2;
    IntTurn(fmt, inp, 3, i, st, sp, pm);
    assert ParseLoop(fmt, inp, 3, i, st, sp, pm) == ParseLoop(fmt, inp, 5, i + 2, st2, sp, pm);
    LiteralTurn(fmt, inp, 5, i + 2, st2, sp, pm);
  }

  /** "%d" on the last two digits. */
  lemma DateDay(fmt: seq<char>, inp: seq<char>, sp: Strptime, pm: Meridiem, i: nat, st: State, day: nat)
    requires fmt == "%Y-%m-%d" && StrptimeOk(sp) && 1 <= day <= 31
    requires i + 2 == |inp| && inp[i..] == TwoDigits(day)
    ensures ParseLoop(fmt, inp, 6, i, st, sp, pm) == Some((st.(tm := st.tm.(mday := day)), |inp|))
  {
    assert inp[i..i + 2] == TwoDigits(day);
    TwoDigitRoundTrip(inp, i, 8, st, DayField, day, 1, 31);
    var st3 := st.(tm := st.tm.(mday := day));
    IntTurn(fmt, inp, 6, i, st, sp, pm);
  }

  /** The loop reads the year, the month and the day of a formatted date. */
  lemma DateLoop(fmt: seq<char>, inp: seq<char>, sp: Strptime, pm: Meridiem, year: int, month: nat, day: nat)
    requires fmt == "%Y-%m-%d" && StrptimeOk(sp) && IsInt64(year) && 1 <= month <= 12 && 1 <= day <= 31
    requires inp == Format64Text(year, 0) + "-" + TwoDigits(month) + "-" + TwoDigits(day)
    ensures ParseLoop(fmt, inp, 0, 0, Initial, sp, pm) == Some((DateState(year, month, day), |inp|))
  {
    var rest := TwoDigits(month) + "-" + TwoDigits(day);
    assert inp == Format64Text(year, 0) + "-" + rest;
    DateYear(fmt, inp, sp, pm, year, rest);
    var n := |Format64Text(year, 0)|;
    assert inp[n + 1..] == rest;
    DateMonthDay(fmt, inp, sp, pm, n + 1, Initial.(year := year, sawYear := true), month, day);
  }

  /** Parsing "%Y-%m-%d" back from what `format` wrote for a real date gives
      that date at midnight, to be looked up in the given zone, with no
      offset and no fraction. */
  lemma DateRoundTrip(fmt: seq<char>, al: Lookup, tm: Strftime, sp: Strptime, pm: Meridiem)
    requires fmt == "%Y-%m-%d" && StrptimeOk(sp) && al.day <= DaysInMonth(al.year, al.month)
    ensures ParseSpec(fmt, FormatSpec(fmt, al, tm), sp, pm)
            == CivilTime(CivilSecond(al.year, al.month, al.day, 0, 0, 0), 0, false, 0)
  {
    DateExample(fmt, al, tm);
    var inp := FormatSpec(fmt, al, tm);
    YearTextStart(al.year);
    assert SpaceEnd(inp, 0) == 0;
    DateLoop(fmt, inp, sp, pm, al.year, al.month, al.day);
    var st := DateState(al.year, al.month, al.day);
    assert SpaceEnd(inp, |inp|) == |inp|;
    ReconcileOutcome(st, inp, |inp|);
    var cs := CivilSecond(al.year, al.month, al.day, 0, 0, 0);
    assert FieldsSecond(st) == cs;
    WithinCivilRange(cs);
  }
  /** %E*S reads back what `format` writes for it: the second, then the
      fraction when one was written. With a zero fraction nothing follows
      the seconds, and the state keeps the fraction it had. */
  lemma StarSecondsRoundTrip(inp: seq<char>, ii: nat, fe: nat, st: State, al: Lookup, rest: seq<char>)
    requires ii <= |inp| && inp[ii..] == StarFraction('S', al) + rest
    requires rest == [] || (!IsDigit(rest[0]) && rest[0] != '.')
    ensures var st1 := st.(tm := st.tm.(sec := al.second));
            SecondsStep(inp, ii, fe, st)
            == Next(fe, ii + |StarFraction('S', al)|, if al.femtos == 0 then st1 else st1.(subseconds := al.femtos))
  {
    StarSecondsShape(al);
    var w := StarFraction('f', al);
    var ss := TwoDigits(al.second);
    if al.femtos == 0 {
      assert inp[ii..] == ss + rest by {
        assert StarFraction('S', al) == ss + [] == ss;
      }
      SecondsOnly(inp, ii, fe, st, al.second, rest);
    } else {
      assert inp[ii..] == ss + ("." + w + rest) by {
        assert StarFraction('S', al) + rest == (ss + ("." + w)) + rest == ss + ("." + w + rest);
      }
      StarFractionReadBack(al, rest);
      SecondsThenFraction(inp, ii, fe, st, al.second, w, al.femtos, rest);
    }
  }

  /** Two second digits followed by neither a digit nor '.'. */
  lemma SecondsOnly(inp: seq<char>, ii: nat, fe: nat, st: State, sec: nat, rest: seq<char>)
    requires sec <= 59 && ii <= |inp| && inp[ii..] == TwoDigits(sec) + rest
    requires rest == [] || (!IsDigit(rest[0]) && rest[0] != '.')
    ensures |TwoDigits(sec)| == 2
    ensures SecondsStep(inp, ii, fe, st) == Next(fe, ii + 2, st.(tm := st.tm.(sec := sec)))
  {
    TwoDigitsMeaning(sec);
    SecondsText(inp, ii, TwoDigits(sec), rest);
    TwoDigitRoundTrip(inp, ii, fe, st, SecondField, sec, 0, 60);
    assert Store(st, SecondField, sec) == st.(tm := st.tm.(sec := sec));
  }

  /** Two second digits, '.', and a fraction `ParseSubSeconds` reads whole. */
  lemma SecondsThenFraction(inp: seq<char>, ii: nat, fe: nat, st: State, sec: nat, w: seq<char>, fs: int,
                            rest: seq<char>)
    requires sec <= 59 && ii <= |inp| && inp[ii..] == TwoDigits(sec) + ("." + w + rest)
    requires SubSecondsSpec(w + rest) == Some((fs, |w|))
    ensures |TwoDigits(sec)| == 2
    ensures SecondsStep(inp, ii, fe, st)
            == Next(fe, ii + 3 + |w|, st.(tm := st.tm.(sec := sec), subseconds := fs))
  {
    TwoDigitsMeaning(sec);
    SecondsText(inp, ii, TwoDigits(sec), "." + w + rest);
    TwoDigitRoundTrip(inp, ii, fe, st, SecondField, sec, 0, 60);
    var st1 := st.(tm := st.tm.(sec := sec));
    assert Store(st, SecondField, sec) == st1;
    assert inp[ii + 2] == '.' && inp[ii + 3..] == w + rest by {
      assert inp[ii + 2..] == "." + (w + rest);
    }
  }

  /** Where the two second digits and what follows them lie. */
  lemma SecondsText(inp: seq<char>, ii: nat, t: seq<char>, tail: seq<char>)
    requires ii <= |inp| && |t| == 2 && inp[ii..] == t + tail
    ensures ii + 2 <= |inp| && inp[ii..ii + 2] == t && inp[ii + 2..] == tail
  {
    assert inp[ii..ii + 2] == inp[ii..][..2];
    assert inp[ii + 2..] == inp[ii..][2..];
  }

  /** %E*f reads back what `format` writes for it, "0" for a zero fraction
      included, when no digit follows. */
  lemma StarFractionRoundTrip(inp: seq<char>, ii: nat, fe: nat, st: State, al: Lookup, rest: seq<char>)
    requires ii <= |inp| && inp[ii..] == StarFraction('f', al) + rest
    requires rest == [] || !IsDigit(rest[0])
    ensures FractionStep(inp, ii, fe, st) == Next(fe, ii + |StarFraction('f', al)|, st.(subseconds := al.femtos))
  {
    var w := StarFraction('f', al);
    StarFractionDigits(al);
    StarFractionReadBack(al, rest);
    assert inp[ii] == inp[ii..][0] == w[0];
  }

  /** "%Y%m%d" writes the year, the month and the day with nothing between
      them. */
  lemma CompactDateText(fmt: seq<char>, al: Lookup, tm: Strftime)
    requires fmt == "%Y%m%d"
    ensures FormatSpec(fmt, al, tm) == Format64Text(al.year, 0) + TwoDigits(al.month) + TwoDigits(al.day)
  {
    SimpleSpecifier(fmt, 0, 0);
    HandledText(fmt, 0, Year, 2, al, tm);
    CompactMonthDay(fmt, al, tm);
  }

  lemma CompactMonthDay(fmt: seq<char>, al: Lookup, tm: Strftime)
    requires fmt == "%Y%m%d"
    ensures RenderAll(FormatFrom(fmt, 2, 2), al, tm) == TwoDigits(al.month) + TwoDigits(al.day)
  {
    SimpleSpecifier(fmt, 2, 2);
    HandledText(fmt, 2, Month, 4, al, tm);
    SimpleSpecifier(fmt, 4, 4);
    HandledText(fmt, 4, Day, 6, al, tm);
    assert FormatFrom(fmt, 6, 6) == [];
  }

  /** A positive year followed by two two-digit fields spells one number. */
  lemma CompactDigits(y: nat, m: nat, d: nat)
    requires y >= 1 && m < 100 && d < 100
    ensures Format64Text(y * 10000 + m * 100 + d, 0) == Format64Text(y, 0) + TwoDigits(m) + TwoDigits(d)
  {
    TwoDigitsAppend(y, m);
    TwoDigitsAppend(y * 100 + m, d);
    assert (y * 100 + m) * 100 + d == y * 10000 + m * 100 + d;
  }

  /** Two more digits after the digits of q. */
  lemma TwoDigitsAppend(q: nat, v: nat)
    requires q >= 1 && v < 100
    ensures Digits(q * 100 + v) == Digits(q) + TwoDigits(v)
  {
    var hi, lo := v / 10, v % 10;
    assert v == hi * 10 + lo && hi < 10 && hi % 10 == hi;
    DigitsAppend(q, hi);
    DigitsAppend(q * 10 + hi, lo);
    assert (q * 10 + hi) * 10 + lo == q * 100 + v;
    assert TwoDigits(v) == [DigitChar(hi), DigitChar(lo)];
  }

  /** "%Y%m%d" does not read back what it writes: %Y reads every digit
      `format` wrote, as one year, and nothing is left for %m and %d, so the
      date comes back as January 1 of the year yyyymmdd. */
  lemma CompactDateMisread(fmt: seq<char>, al: Lookup, tm: Strftime, sp: Strptime, pm: Meridiem)
    requires fmt == "%Y%m%d" && StrptimeOk(sp) && al.year >= 1 && IsInt64(al.year * 10000 + al.month * 100 + al.day)
    ensures var n := al.year * 10000 + al.month * 100 + al.day;
            ParseSpec(fmt, FormatSpec(fmt, al, tm), sp, pm) == CivilTime(CivilSecond(n, 1, 1, 0, 0, 0), 0, false, 0)
  {
    var n := al.year * 10000 + al.month * 100 + al.day;
    var inp := FormatSpec(fmt, al, tm);
    CompactDateText(fmt, al, tm);
    CompactDigits(al.year, al.month, al.day);
    assert inp == Format64Text(n, 0);
    YearTextStart(n);
    assert SpaceEnd(inp, 0) == 0;
    assert inp[0..|inp|] == inp;
    YearRoundTrip(inp, 0, 2, Initial, n);
    IntTurn(fmt, inp, 0, 0, Initial, sp, pm);
    var st := Initial.(year := n, sawYear := true);
    assert ParseLoop(fmt, inp, 0, 0, Initial, sp, pm) == Some((st, |inp|));
    assert SpaceEnd(inp, |inp|) == |inp|;
    ReconcileOutcome(st, inp, |inp|);
    var cs := CivilSecond(n, 1, 1, 0, 0, 0);
    assert FieldsSecond(st) == cs;
    WithinCivilRange(cs);
  }

  /** The example: 2024-03-05 comes back as January 1 of the year 20240305. */
  lemma CompactDateExample(fmt: seq<char>, al: Lookup, tm: Strftime, sp: Strptime, pm: Meridiem)
    requires fmt == "%Y%m%d" && StrptimeOk(sp) && al.year == 2024 && al.month == 3 && al.day == 5
    ensures ParseSpec(fmt, FormatSpec(fmt, al, tm), sp, pm)
            == CivilTime(CivilSecond(20240305, 1, 1, 0, 0, 0), 0, false, 0)
  {
    CompactDateMisread(fmt, al, tm, sp, pm);
  }

  /** "%Y-%m-%e" writes the day of %e with a space for its leading zero. */
  lemma SpacedDayText(fmt: seq<char>, al: Lookup, tm: Strftime)
    requires fmt == "%Y-%m-%e"
    ensures FormatSpec(fmt, al, tm)
            == Format64Text(al.year, 0) + "-" + TwoDigits(al.month) + "-" + SpaceLeading(TwoDigits(al.day))
  {
    SimpleSpecifier(fmt, 0, 0);
    HandledText(fmt, 0, Year, 2, al, tm);
    assert LiteralEnd(fmt, 3) == 3;
    LiteralRun(fmt, 2, al, tm);
    assert fmt[2..3] == "-";
    SpacedMonthDayText(fmt, al, tm);
  }

  lemma SpacedMonthDayText(fmt: seq<char>, al: Lookup, tm: Strftime)
    requires fmt == "%Y-%m-%e"
    ensures RenderAll(FormatFrom(fmt, 3, 3), al, tm) == TwoDigits(al.month) + "-" + SpaceLeading(TwoDigits(al.day))
  {
    SimpleSpecifier(fmt, 3, 3);
    HandledText(fmt, 3, Month, 5, al, tm);
    assert LiteralEnd(fmt, 6) == 6;
    LiteralRun(fmt, 5, al, tm);
    assert fmt[5..6] == "-";
    SimpleSpecifier(fmt, 6, 6);
    HandledText(fmt, 6, DaySpace, 8, al, tm);
    assert FormatFrom(fmt, 8, 8) == [];
  }

  /** "%Y-%m-%e" does not read back what it writes for a day below 10:
      %e reads the day with `ParseInt`, which takes no space, so `parse`
      fails on the space that `format` wrote. */
  lemma SpacedDayRejected(fmt: seq<char>, al: Lookup, tm: Strftime, sp: Strptime, pm: Meridiem)
    requires fmt == "%Y-%m-%e" && StrptimeOk(sp) && al.day < 10
    ensures ParseSpec(fmt, FormatSpec(fmt, al, tm), sp, pm) == Failed(Malformed)
  {
    var inp := FormatSpec(fmt, al, tm);
    SpacedDayText(fmt, al, tm);
    YearTextStart(al.year);
    assert SpaceEnd(inp, 0) == 0;
    SpacedDayLoop(fmt, inp, sp, pm, al.year, al.month, al.day);
  }

  /** The loop reads the year and the month, and stops at the space. */
  lemma SpacedDayLoop(fmt: seq<char>, inp: seq<char>, sp: Strptime, pm: Meridiem, year: int, month: nat, day: nat)
    requires fmt == "%Y-%m-%e" && StrptimeOk(sp) && IsInt64(year) && 1 <= month <= 12 && day < 10
    requires inp == Format64Text(year, 0) + "-" + TwoDigits(month) + "-" + SpaceLeading(TwoDigits(day))
    ensures ParseLoop(fmt, inp, 0, 0, Initial, sp, pm) == None
  {
    var rest := TwoDigits(month) + "-" + SpaceLeading(TwoDigits(day));
    assert inp == Format64Text(year, 0) + "-" + rest;
    DateYear(fmt, inp, sp, pm, year, rest);
    var i := |Format64Text(year, 0)| + 1;
    assert inp[i..] == rest;
    SpacedMonthDay(fmt, inp, sp, pm, i, Initial.(year := year, sawYear := true), month, day);
  }

  /** "%m-%e" on two digits, '-', a space and a digit. */
  lemma SpacedMonthDay(fmt: seq<char>, inp: seq<char>, sp: Strptime, pm: Meridiem, i: nat, st: State,
                       month: nat, day: nat)
    requires fmt == "%Y-%m-%e" && StrptimeOk(sp) && 1 <= month <= 12 && day < 10
    requires i + 5 == |inp| && inp[i..] == TwoDigits(month) + "-" + SpaceLeading(TwoDigits(day))
    ensures ParseLoop(fmt, inp, 3, i, st, sp, pm) == None
  {
    assert TwoDigits(day) == ['0', DigitChar(day)];
    assert inp[i..i + 2] == inp[i..][..2];
    assert inp[i + 3..] == inp[i..][3..];
    DateMonth(fmt, inp, sp, pm, i, st, month);
    SpacedDayStep(fmt, inp, sp, pm, i + 3, st.(tm := st.tm.(mon := month - 1)), day);
  }

  /** %e on a space fails. */
  lemma SpacedDayStep(fmt: seq<char>, inp: seq<char>, sp: Strptime, pm: Meridiem, i: nat, st: State, day: nat)
    requires fmt == "%Y-%m-%e" && StrptimeOk(sp) && day < 10
    requires i + 2 == |inp| && inp[i..] == SpaceLeading(TwoDigits(day))
    ensures ParseLoop(fmt, inp, 6, i, st, sp, pm) == None
  {
    assert TwoDigits(day) == ['0', DigitChar(day)];
    assert inp[i] == ' ';
    IntTurn(fmt, inp, 6, i, st, sp, pm);
    ParseIntNeedsDigit(inp[i..], 2, 1, 31, Int32);
  }
}
