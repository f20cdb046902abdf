/** What `parse` promises: the checks after the loop, in their order, and
    what the loop does with white space, literal text and the specifiers it
    reads itself. */
module ParseLaws {
  import opened Base
  import opened DigitWriters
  import opened NumParse
  import opened CodecLaws
  import opened OffsetLaws
  import opened Civil
  import opened CivilLaws
  import opened Parser
  import opened FormatLaws

  /** The hour after the 12-hour adjustment: a morning hour read in 12-hour
      mode moves to the afternoon when "%p" read an afternoon marker. */
  function AdjustedHour(st: State): (h: int)
    requires StateOk(st)
    ensures 0 <= h <= 23
    ensures h == st.tm.hour || (h == st.tm.hour + 12 && st.twelveHour && st.afternoon)
    ensures st.twelveHour && st.afternoon && st.tm.hour < 12 ==> h == st.tm.hour + 12
  {
    if st.twelveHour && st.afternoon && st.tm.hour < 12 then st.tm.hour + 12 else st.tm.hour
  }

  /** The civil second the fields spell out: the year of %Y or %E4Y when one
      was read and tm_year + 1900 otherwise, the month counted from 1, and a
      leap second 60 read as 59. */
  function FieldsSecond(st: State): (cs: CivilSecond)
    requires StateOk(st)
    ensures InFieldRanges(cs) && IsInt64(cs.year)
  {
    var year := if st.sawYear then st.year else st.tm.year + 1900;
    var sec := if st.tm.sec == 60 then 59 else st.tm.sec;
    CivilSecond(year, st.tm.mon + 1, st.tm.mday, AdjustedHour(st), st.tm.min, sec)
  }

  /** The offset to subtract: one second less for a leap second, which thus
      lands on the following ":00". */
  function FieldsOffset(st: State): int
  {
    if st.tm.sec == 60 then st.offset - 1 else st.offset
  }

  /** Any text left after the final white space is an error, whatever the
      fields hold. */
  lemma TrailingDataRejected(st: State, inp: seq<char>, ii: nat)
    requires ii <= |inp| && StateOk(st)
    ensures Reconcile(st, inp, ii) == Failed(TrailingData) <==> SpaceEnd(inp, ii) != |inp|
  {
  }

  /** Once the input is used up, %s decides the result alone: the Unix
      seconds it read, with no fraction. */
  lemma PercentSWins(st: State, inp: seq<char>, ii: nat)
    requires ii <= |inp| && StateOk(st)
    ensures Reconcile(st, inp, ii).UnixTime? <==> SpaceEnd(inp, ii) == |inp| && st.sawPercentS
    ensures Reconcile(st, inp, ii).UnixTime? ==> Reconcile(st, inp, ii).seconds == st.percentS
  {
  }

  /** tm_year is a 32-bit field, so the "Out-of-range year" check never
      fires. */
  lemma YearAlwaysInRange(st: State, inp: seq<char>, ii: nat)
    requires ii <= |inp| && StateOk(st)
    ensures Reconcile(st, inp, ii) != Failed(YearRange)
  {
  }

  /** Otherwise the fields are accepted exactly when they name a real date
      and the second, once the offset is subtracted, stays within the range
      of `civil_second`; the result is then that civil second, the offset,
      UTC exactly when an offset was read, and the fraction, dropped for a
      leap second. */
  lemma ReconcileOutcome(st: State, inp: seq<char>, ii: nat)
    requires ii <= |inp| && StateOk(st)
    requires SpaceEnd(inp, ii) == |inp| && !st.sawPercentS
    ensures var cs, off := FieldsSecond(st), FieldsOffset(st);
            Reconcile(st, inp, ii)
            == if IsValidCivil(cs) && SecondNumber(CivilMin) <= SecondNumber(cs) - off <= SecondNumber(CivilMax)
               then CivilTime(cs, off, st.sawOffset, if st.tm.sec == 60 then 0 else st.subseconds)
               else Failed(FieldRange)
  {
    var cs, off := FieldsSecond(st), FieldsOffset(st);
    assert Reconcile(st, inp, ii) == Settle(cs, off, st.sawOffset, if st.tm.sec == 60 then 0 else st.subseconds);
    SettleOutcome(cs, off, st.sawOffset, if st.tm.sec == 60 then 0 else st.subseconds);
  }

  /** The normalisation check passes exactly on a real date, and the shift
      check exactly when the shifted second is within range. */
  lemma SettleOutcome(cs: CivilSecond, off: int, inUtc: bool, femtos: int)
    requires InFieldRanges(cs) && IsInt64(cs.year)
    ensures Settle(cs, off, inUtc, femtos)
            == if IsValidCivil(cs) && SecondNumber(CivilMin) <= SecondNumber(cs) - off <= SecondNumber(CivilMax)
               then CivilTime(cs, off, inUtc, femtos)
               else Failed(FieldRange)
  {
    NormalizeIdentity(cs);
    if IsValidCivil(cs) {
      ShiftFitsMeaning(cs, off);
    }
  }

  /** A day past the end of its month ("Sep 31", "Feb 29" of a common year)
      is rejected rather than carried into the next month. */
  lemma NoDayOverflow(st: State, inp: seq<char>, ii: nat)
    requires ii <= |inp| && StateOk(st)
    requires SpaceEnd(inp, ii) == |inp| && !st.sawPercentS
    requires st.tm.mday > DaysInMonth(FieldsSecond(st).year, st.tm.mon + 1)
    ensures Reconcile(st, inp, ii) == Failed(FieldRange)
  {
    ReconcileOutcome(st, inp, ii);
  }

  /** A leap second names the first second of the next minute: the second
      on the line is the one 60 would have named. */
  lemma LeapSecondRollsForward(st: State)
    requires StateOk(st) && st.tm.sec == 60
    ensures var cs := FieldsSecond(st);
            SecondNumber(cs) - FieldsOffset(st) == SecondNumber(cs.(second := 60)) - st.offset
  {
  }

  /** A run of white space in the format matches any run of white space in
      the input, an empty one included. */
  lemma SpacesMatchAnyRun(fmt: seq<char>, inp: seq<char>, fi: nat, ii: nat, st: State, sp: Strptime, pm: Meridiem)
    requires fi < |fmt| && ii <= |inp| && StrptimeOk(sp) && IsSpace(fmt[fi])
    ensures ParseLoop(fmt, inp, fi, ii, st, sp, pm)
            == ParseLoop(fmt, inp, SpaceEnd(fmt, fi), SpaceEnd(inp, ii), st, sp, pm)
  {
    if ii == |inp| {
      assert SpaceEnd(inp, ii) == ii;
    }
  }

  /** Format text without '%' or white space counts as literal text. */
  predicate PlainText(fmt: seq<char>)
  {
    forall i :: 0 <= i < |fmt| ==> fmt[i] != '%' && !IsSpace(fmt[i])
  }

  /** Literal text must match the input character for character until
      either runs out, and changes nothing. */
  lemma {:induction false} LiteralText(fmt: seq<char>, inp: seq<char>, fi: nat, ii: nat, st: State, sp: Strptime, pm: Meridiem)
    requires fi <= |fmt| && ii <= |inp| && StrptimeOk(sp) && PlainText(fmt)
    ensures var k := if |fmt| - fi < |inp| - ii then |fmt| - fi else |inp| - ii;
            var r := ParseLoop(fmt, inp, fi, ii, st, sp, pm);
            && (r.Some? <==> fmt[fi..fi + k] == inp[ii..ii + k])
            && (r.Some? ==> r.value == (st, ii + k))
    decreases |fmt| - fi
  {
    var k := if |fmt| - fi < |inp| - ii then |fmt| - fi else |inp| - ii;
    if k > 0 {
      assert fmt[fi] != '%' && !IsSpace(fmt[fi]);
      LiteralTurn(fmt, inp, fi, ii, st, sp, pm);
      LiteralText(fmt, inp, fi + 1, ii + 1, st, sp, pm);
      assert fmt[fi..fi + k] == [fmt[fi]] + fmt[fi + 1..fi + k];
      assert inp[ii..ii + k] == [inp[ii]] + inp[ii + 1..ii + k];
    }
  }

  /** A character other than '%' or white space must match the input. */
  lemma LiteralTurn(fmt: seq<char>, inp: seq<char>, fi: nat, ii: nat, st: State, sp: Strptime, pm: Meridiem)
    requires fi < |fmt| && ii < |inp| && StrptimeOk(sp) && fmt[fi] != '%' && !IsSpace(fmt[fi])
    ensures StepSpec(fmt, inp, fi, ii, st, sp, pm) == if fmt[fi] == inp[ii] then Next(fi + 1, ii + 1, st) else Fail
  {
  }

  /** A specifier read with `ParseInt` is read from the input at ii, and the
      format goes on after it. */
  lemma IntTurn(fmt: seq<char>, inp: seq<char>, fi: nat, ii: nat, st: State, sp: Strptime, pm: Meridiem)
    requires fi + 1 < |fmt| && ii < |inp| && StrptimeOk(sp) && fmt[fi] == '%'
    requires IntSpecifier(fmt[fi + 1]).Some?
    ensures var spec := IntSpecifier(fmt[fi + 1]).value;
            StepSpec(fmt, inp, fi, ii, st, sp, pm)
            == IntStep(inp, ii, spec.width, spec.min, spec.max, spec.t, fi + 2, st, spec.field)
  {
    assert StepSpec(fmt, inp, fi, ii, st, sp, pm) == SpecifierStep(fmt, inp, fi, ii, st, sp, pm);
  }

  /** "%E*S" and "%E*f" read the seconds and the fraction, or only the
      fraction. */
  lemma StarTurn(fmt: seq<char>, inp: seq<char>, fi: nat, ii: nat, st: State, sp: Strptime, pm: Meridiem)
    requires fi + 3 < |fmt| && ii < |inp| && StrptimeOk(sp)
    requires fmt[fi] == '%' && fmt[fi + 1] == 'E' && fmt[fi + 2] == '*' && (fmt[fi + 3] == 'S' || fmt[fi + 3] == 'f')
    ensures StepSpec(fmt, inp, fi, ii, st, sp, pm)
            == if fmt[fi + 3] == 'S' then SecondsStep(inp, ii, fi + 4, st) else FractionStep(inp, ii, fi + 4, st)
  {
    assert IntSpecifier('E').None?;
    assert StepSpec(fmt, inp, fi, ii, st, sp, pm) == SpecifierStep(fmt, inp, fi, ii, st, sp, pm);
    assert SpecifierStep(fmt, inp, fi, ii, st, sp, pm) == ExtensionStep(fmt, inp, fi, ii, st, sp, pm);
  }

  /** A "%E" hands the turn to the extension step. */
  lemma ExtensionDispatch(fmt: seq<char>, inp: seq<char>, fi: nat, ii: nat, st: State, sp: Strptime, pm: Meridiem)
    requires fi + 1 < |fmt| && ii < |inp| && StrptimeOk(sp) && fmt[fi] == '%' && fmt[fi + 1] == 'E'
    ensures StepSpec(fmt, inp, fi, ii, st, sp, pm) == ExtensionStep(fmt, inp, fi, ii, st, sp, pm)
  {
    assert IntSpecifier('E').None?;
    assert StepSpec(fmt, inp, fi, ii, st, sp, pm) == SpecifierStep(fmt, inp, fi, ii, st, sp, pm);
  }

  /** "%E#S" and "%E#f" read as "%E*S" and "%E*f" do when `ParseInt`
      reads the precision, a number of at most 1024; the precision itself is
      ignored. */
  lemma DigitsTurn(fmt: seq<char>, inp: seq<char>, fi: nat, ii: nat, st: State, sp: Strptime, pm: Meridiem, np: nat)
    requires fi + 2 < np < |fmt| && ii < |inp| && StrptimeOk(sp) && fmt[fi] == '%' && fmt[fi + 1] == 'E'
    requires AllDigits(fmt[fi + 2..np]) && DecValue(fmt[fi + 2..np]) <= 1024 && (fmt[np] == 'S' || fmt[np] == 'f')
    ensures StepSpec(fmt, inp, fi, ii, st, sp, pm)
            == if fmt[np] == 'S' then SecondsStep(inp, ii, np + 1, st) else FractionStep(inp, ii, np + 1, st)
  {
    DigitsPrecision(fmt, fi + 2, np);
    PrecisionEndTurn(fmt, inp, fi, ii, st, sp, pm, np);
  }

  /** The same, given where `PrecisionEnd` finds the precision's end. */
  lemma PrecisionEndTurn(fmt: seq<char>, inp: seq<char>, fi: nat, ii: nat, st: State, sp: Strptime, pm: Meridiem, np: nat)
    requires fi + 2 < np < |fmt| && ii < |inp| && StrptimeOk(sp) && fmt[fi] == '%' && fmt[fi + 1] == 'E'
    requires PrecisionEnd(fmt, fi + 2) == Some(np) && IsDigit(fmt[fi + 2]) && (np > fi + 3 ==> IsDigit(fmt[fi + 3]))
    requires fmt[np] == 'S' || fmt[np] == 'f'
    ensures StepSpec(fmt, inp, fi, ii, st, sp, pm)
            == if fmt[np] == 'S' then SecondsStep(inp, ii, np + 1, st) else FractionStep(inp, ii, np + 1, st)
  {
    ExtensionDispatch(fmt, inp, fi, ii, st, sp, pm);
    DigitExtension(fmt, inp, fi, ii, st, sp, pm);
    PrecisionTurn(fmt, inp, fi, ii, st, sp, pm, np);
  }

  /** The precision's digits are where `PrecisionEnd` finds them. */
  lemma DigitsPrecision(fmt: seq<char>, c: nat, np: nat)
    requires c < np < |fmt| && AllDigits(fmt[c..np]) && DecValue(fmt[c..np]) <= 1024 && !IsDigit(fmt[np])
    ensures PrecisionEnd(fmt, c) == Some(np) && IsDigit(fmt[c]) && (np > c + 1 ==> IsDigit(fmt[c + 1]))
  {
    WidthOfDigits(fmt, c, np);
    assert fmt[c] == fmt[c..np][0];
    if np > c + 1 {
      assert fmt[c + 1] == fmt[c..np][1];
    }
  }

  /** A precision followed by 'S' or 'f' reads the seconds or the fraction. */
  lemma PrecisionTurn(fmt: seq<char>, inp: seq<char>, fi: nat, ii: nat, st: State, sp: Strptime, pm: Meridiem, np: nat)
    requires fi + 2 < np < |fmt| && ii < |inp| && StrptimeOk(sp) && fmt[fi] == '%'
    requires fmt[np] == 'S' || fmt[np] == 'f'
    ensures DigitsExtension(fmt, inp, fi, ii, st, sp, pm, Some(np))
            == if fmt[np] == 'S' then SecondsStep(inp, ii, np + 1, st) else FractionStep(inp, ii, np + 1, st)
  {
  }

  /** A "%E" followed by a digit, other than "%E4Y", goes to the precision
      step. */
  lemma DigitExtension(fmt: seq<char>, inp: seq<char>, fi: nat, ii: nat, st: State, sp: Strptime, pm: Meridiem)
    requires fi + 2 < |fmt| && ii < |inp| && StrptimeOk(sp) && fmt[fi] == '%' && IsDigit(fmt[fi + 2])
    requires fmt[fi + 2] == '4' && fi + 3 < |fmt| ==> fmt[fi + 3] != 'Y'
    ensures ExtensionStep(fmt, inp, fi, ii, st, sp, pm)
            == DigitsExtension(fmt, inp, fi, ii, st, sp, pm, PrecisionEnd(fmt, fi + 2))
  {
  }

  /** "%:z" reads the offset with ':' as its separator. */
  lemma OneColonTurn(fmt: seq<char>, inp: seq<char>, fi: nat, ii: nat, st: State, sp: Strptime, pm: Meridiem)
    requires fi + 2 < |fmt| && ii < |inp| && StrptimeOk(sp)
    requires fmt[fi] == '%' && fmt[fi + 1] == ':' && fmt[fi + 2] == 'z'
    ensures StepSpec(fmt, inp, fi, ii, st, sp, pm) == OffsetStep(inp, ii, ":", fi + 3, st)
  {
    assert IntSpecifier(':').None?;
    assert SpecifierStep(fmt, inp, fi, ii, st, sp, pm) == OffsetStep(inp, ii, ":", fi + 3, st);
    assert StepSpec(fmt, inp, fi, ii, st, sp, pm) == SpecifierStep(fmt, inp, fi, ii, st, sp, pm);
  }

  /** "%::z" reads the offset with ':' as its separator. */
  lemma TwoColonTurn(fmt: seq<char>, inp: seq<char>, fi: nat, ii: nat, st: State, sp: Strptime, pm: Meridiem)
    requires fi + 3 < |fmt| && ii < |inp| && StrptimeOk(sp)
    requires fmt[fi] == '%' && fmt[fi + 1] == ':' && fmt[fi + 2] == ':' && fmt[fi + 3] == 'z'
    ensures StepSpec(fmt, inp, fi, ii, st, sp, pm) == OffsetStep(inp, ii, ":", fi + 4, st)
  {
    assert IntSpecifier(':').None?;
    assert SpecifierStep(fmt, inp, fi, ii, st, sp, pm) == OffsetStep(inp, ii, ":", fi + 4, st);
    assert StepSpec(fmt, inp, fi, ii, st, sp, pm) == SpecifierStep(fmt, inp, fi, ii, st, sp, pm);
  }

  /** "%:::z" reads the offset with ':' as its separator. */
  lemma ThreeColonTurn(fmt: seq<char>, inp: seq<char>, fi: nat, ii: nat, st: State, sp: Strptime, pm: Meridiem)
    requires fi + 4 < |fmt| && ii < |inp| && StrptimeOk(sp)
    requires fmt[fi] == '%' && fmt[fi + 1] == ':' && fmt[fi + 2] == ':' && fmt[fi + 3] == ':' && fmt[fi + 4] == 'z'
    ensures StepSpec(fmt, inp, fi, ii, st, sp, pm) == OffsetStep(inp, ii, ":", fi + 5, st)
  {
    assert IntSpecifier(':').None?;
    assert SpecifierStep(fmt, inp, fi, ii, st, sp, pm) == OffsetStep(inp, ii, ":", fi + 5, st);
    assert StepSpec(fmt, inp, fi, ii, st, sp, pm) == SpecifierStep(fmt, inp, fi, ii, st, sp, pm);
  }

  /** "%Ez", "%E*z", "%:z", "%::z" and "%:::z" all read the offset with ':'
      as its separator, so they accept the same inputs. */
  lemma OffsetTurn(fmt: seq<char>, inp: seq<char>, fi: nat, ii: nat, st: State, sp: Strptime, pm: Meridiem, n: nat)
    requires fi + n <= |fmt| && ii < |inp| && StrptimeOk(sp)
    requires fmt[fi..fi + n] in ["%Ez", "%E*z", "%:z", "%::z", "%:::z"]
    ensures StepSpec(fmt, inp, fi, ii, st, sp, pm) == OffsetStep(inp, ii, ":", fi + n, st)
  {
    var s := fmt[fi..fi + n];
    assert fmt[fi] == s[0] && fmt[fi + 1] == s[1] && fmt[fi + 2] == s[2];
    if s == "%Ez" || s == "%E*z" {
      if s == "%E*z" {
        assert fmt[fi + 3] == s[3];
      }
      ExtensionDispatch(fmt, inp, fi, ii, st, sp, pm);
    } else if s == "%:z" {
      OneColonTurn(fmt, inp, fi, ii, st, sp, pm);
    } else if s == "%::z" {
      assert fmt[fi + 3] == s[3];
      TwoColonTurn(fmt, inp, fi, ii, st, sp, pm);
    } else {
      assert fmt[fi + 3] == s[3] && fmt[fi + 4] == s[4];
      ThreeColonTurn(fmt, inp, fi, ii, st, sp, pm);
    }
  }

  /** "%%" matches a single '%' in the input. */
  lemma EscapeMatchesPercent(fmt: seq<char>, inp: seq<char>, fi: nat, ii: nat, st: State, sp: Strptime, pm: Meridiem)
    requires fi + 1 < |fmt| && fmt[fi] == '%' && fmt[fi + 1] == '%' && ii < |inp| && StrptimeOk(sp)
    ensures StepSpec(fmt, inp, fi, ii, st, sp, pm) == if inp[ii] == '%' then Next(fi + 2, ii + 1, st) else Fail
  {
  }

  /** Only "%p" sets the afternoon flag, from the text strptime consumed for
      it; strptime's result is taken for every other field. */
  lemma FallbackMeridiem(fmt: seq<char>, inp: seq<char>, fi: nat, fe: nat, ii: nat, st: State, sp: Strptime, pm: Meridiem)
    requires fi <= fe <= |fmt| && ii <= |inp| && StrptimeOk(sp)
    ensures var r := Fallback(fmt, inp, fi, fe, ii, st, sp, pm);
            var v := sp(fmt[fi..fe], inp[ii..], st.tm);
            && (r.Next? <==> v.Some?)
            && (r.Next? ==> r.ii == ii + v.value.1 && r.st.tm == v.value.0
                            && r.st.afternoon == (if fmt[fi..fe] == "%p" then pm(inp[ii..r.ii]) else st.afternoon)
                            && r.st.(tm := st.tm, afternoon := st.afternoon) == st)
  {
  }

  /** %Y reads back the year `format` writes, leaving the text after it. */
  lemma YearRoundTrip(inp: seq<char>, ii: nat, fe: nat, st: State, y: int)
    requires IsInt64(y)
    requires var t := Format64Text(y, 0);
             ii + |t| <= |inp| && inp[ii..ii + |t|] == t && (ii + |t| == |inp| || !IsDigit(inp[ii + |t|]))
    ensures var n := |Format64Text(y, 0)|;
            IntStep(inp, ii, 0, Int64Min, Int64Max, Int64, fe, st, YearField)
            == Next(fe, ii + n, st.(year := y, sawYear := true))
  {
    var t := Format64Text(y, 0);
    var rest := inp[ii + |t|..];
    assert inp[ii..] == t + rest;
    ParseFormat64(y, 0, rest, Int64Min, Int64Max, Int64);
  }

  /** %m, %d, %H, %M and %S read back the two digits `format` writes. */
  lemma TwoDigitRoundTrip(inp: seq<char>, ii: nat, fe: nat, st: State, f: IntField, v: nat, min: int, max: int)
    requires min <= v <= max && v < 100
    requires ii + 2 <= |inp| && inp[ii..ii + 2] == TwoDigits(v)
    ensures IntStep(inp, ii, 2, min, max, Int32, fe, st, f) == Next(fe, ii + 2, Store(st, f, v))
  {
    var rest := inp[ii + 2..];
    assert inp[ii..] == TwoDigits(v) + rest;
    TwoDigitsMeaning(v);
    assert v % 100 == v;
    ParseFormat64(v, 2, rest, min, max, Int32);
  }

  /** %Ez, %:z and %E*z read back the offset `format` writes for %Ez, %:z,
      %E*z, %::z or %:::z, to the precision the text shows. */
  lemma OffsetRoundTrip(inp: seq<char>, ii: nat, fe: nat, st: State, o: int, mode: seq<char>)
    requires -86400 < o < 86400 && ModeSep(mode) == ':'
    requires var t := FormatOffsetText(o, mode);
             && ii + |t| <= |inp| && inp[ii..ii + |t|] == t
             && (!ShowsSeconds(o, mode) ==> Delimited(inp[ii + |t|..], ':'))
    ensures var n := |FormatOffsetText(o, mode)|;
            OffsetStep(inp, ii, ":", fe, st)
            == Next(fe, ii + n, st.(offset := RecoveredOffset(o, mode), sawOffset := true))
  {
    var t := FormatOffsetText(o, mode);
    var rest := inp[ii + |t|..];
    assert inp[ii..] == t + rest;
    ParseFormatOffset(o, mode, ":", rest);
  }
}
