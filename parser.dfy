/** `parse(format, input, tz)`: the loop that walks the format string and the
    input in lockstep, and the reconciliation of the fields it gathers.
    strptime, which `parse` falls back on for the specifiers it does not
    handle, is the function parameter `sp`; the re-parse that tells whether
    the text a "%p" consumed means the afternoon is the parameter `pm`. The
    final conversion through the time zone is not part of this model: a
    successful parse yields the civil second, the offset to subtract from it,
    whether that happens in UTC or in the given zone, and the fraction. */
module Parser {
  import opened Base
  import opened DigitWriters
  import opened NumParse
  import opened CodecLaws
  import opened OffsetLaws
  import opened FormatScan
  import opened Civil

  /** The fields of `std::tm` that `parse` reads: tm_year counts from 1900
      and tm_mon from 0. */
  datatype Tm = Tm(year: int, mon: int, mday: int, hour: int, min: int, sec: int)

  /** The ranges strptime and the handled specifiers keep the fields in. */
  predicate TmInRange(tm: Tm)
  {
    && Int32Min <= tm.year <= Int32Max && 0 <= tm.mon <= 11 && 1 <= tm.mday <= 31
    && 0 <= tm.hour <= 23 && 0 <= tm.min <= 59 && 0 <= tm.sec <= 60
  }

  /** `strptime(input, spec, &tm)`: the new fields and the number of
      characters consumed, or `None` for a null result. */
  type Strptime = (seq<char>, seq<char>, Tm) -> Option<(Tm, nat)>

  /** The re-parse of `"1"` followed by what "%p" consumed, through "%I%p":
      whether it gives hour 13. */
  type Meridiem = seq<char> -> bool

  predicate StrptimeKeeps(r: Option<(Tm, nat)>, s: seq<char>)
  {
    r.Some? ==> r.value.1 <= |s| && TmInRange(r.value.0)
  }

  /** strptime stops within its input and leaves the fields in range. */
  ghost predicate StrptimeOk(sp: Strptime)
  {
    forall spec, s, tm :: StrptimeKeeps(sp(spec, s, tm), s)
  }

  /** The local variables of `parse` that the loop updates. */
  datatype State = State(
    tm: Tm,
    year: int, sawYear: bool,
    subseconds: int,
    sawOffset: bool, offset: int,
    zone: seq<char>,
    twelveHour: bool, afternoon: bool,
    sawPercentS: bool, percentS: int)

  /** The defaults: 1970-01-01 00:00:00 in the given zone. */
  const Initial: State :=
    State(Tm(1970 - 1900, 0, 1, 0, 0, 0), 1970, false, 0, false, 0, "UTC", false, false, false, 0)

  /** The ranges every field stays in while the loop runs. */
  predicate StateOk(st: State)
  {
    && TmInRange(st.tm) && IsInt64(st.year) && 0 <= st.subseconds < FemtosPerSecond
    && -86400 < st.offset < 86400 && IsInt64(st.percentS)
  }

  /** The outcome of one turn of the loop: an error, or the new format
      position, input position and state. */
  datatype Step = Fail | Next(fi: nat, ii: nat, st: State)

  /** The turn moves on in the format and stays within both strings. */
  predicate Advances(r: Step, fmt: seq<char>, inp: seq<char>, fi: nat, ii: nat)
  {
    r.Next? ==> fi < r.fi <= |fmt| && ii <= r.ii <= |inp|
  }

  /** Where the run of white space starting at i ends. */
  function SpaceEnd(s: seq<char>, i: nat): (j: nat)
    requires i <= |s|
    ensures i <= j <= |s| && (j < |s| ==> !IsSpace(s[j]))
    ensures forall k :: i <= k < j ==> IsSpace(s[k])
    decreases |s| - i
  {
    if i == |s| || !IsSpace(s[i]) then i else SpaceEnd(s, i + 1)
  }

  /** One turn of the loop, at format position fi and input position ii,
      both strings having text left. White space in the format matches any
      run of white space in the input, none included; any other character
      but '%' must match the input exactly. */
  function StepSpec(fmt: seq<char>, inp: seq<char>, fi: nat, ii: nat, st: State, sp: Strptime, pm: Meridiem): (r: Step)
    requires fi < |fmt| && ii < |inp| && StrptimeOk(sp)
    ensures Advances(r, fmt, inp, fi, ii)
    ensures StateOk(st) && r.Next? ==> StateOk(r.st)
  {
    if IsSpace(fmt[fi]) then Next(SpaceEnd(fmt, fi), SpaceEnd(inp, ii), st)
    else if fmt[fi] != '%' then (if fmt[fi] != inp[ii] then Fail else Next(fi + 1, ii + 1, st))
    else if fi + 1 == |fmt| then Fail
    else SpecifierStep(fmt, inp, fi, ii, st, sp, pm)
  }

  /** The specifier switch, fmt[fi] being '%'. */
  function SpecifierStep(fmt: seq<char>, inp: seq<char>, fi: nat, ii: nat, st: State, sp: Strptime, pm: Meridiem): (r: Step)
    requires fi + 1 < |fmt| && fmt[fi] == '%' && ii < |inp| && StrptimeOk(sp)
    ensures Advances(r, fmt, inp, fi, ii)
    ensures StateOk(st) && r.Next? ==> StateOk(r.st)
  {
    var f2 := fi + 2;
    var ch := fmt[fi + 1];
    var spec := IntSpecifier(ch);
    if spec.Some? then IntStep(inp, ii, spec.value.width, spec.value.min, spec.value.max, spec.value.t, f2, st, spec.value.field)
    else if ch == 'I' || ch == 'l' || ch == 'r' then Fallback(fmt, inp, fi, f2, ii, st.(twelveHour := true), sp, pm)
    else if ch == 'R' || ch == 'T' || ch == 'c' || ch == 'X' then
      Fallback(fmt, inp, fi, f2, ii, st.(twelveHour := false), sp, pm)
    else if ch == 'z' then OffsetStep(inp, ii, "", f2, st)
    else if ch == 'Z' then ZoneStep(inp, ii, f2, st)
    else if ch == ':' then
      var n := if f2 < |fmt| && fmt[f2] == 'z' then 1
               else if f2 + 1 < |fmt| && fmt[f2] == ':' && fmt[f2 + 1] == 'z' then 2
               else if f2 + 2 < |fmt| && fmt[f2] == ':' && fmt[f2 + 1] == ':' && fmt[f2 + 2] == 'z' then 3
               else 0;
      if n == 0 then Fallback(fmt, inp, fi, f2, ii, st, sp, pm) else OffsetStep(inp, ii, ":", f2 + n, st)
    else if ch == '%' then (if inp[ii] != '%' then Fail else Next(f2, ii + 1, st))
    else if ch == 'E' then ExtensionStep(fmt, inp, fi, ii, st, sp, pm)
    else if ch == 'O' then
      var st1 := if CharAt(fmt, f2) == 'H' then st.(twelveHour := false)
                 else if CharAt(fmt, f2) == 'I' then st.(twelveHour := true) else st;
      Fallback(fmt, inp, fi, if f2 != |fmt| then f2 + 1 else f2, ii, st1, sp, pm)
    else Fallback(fmt, inp, fi, f2, ii, st, sp, pm)
  }

  /** The "%E" extensions, fmt[fi..fi + 2] being "%E". */
  function ExtensionStep(fmt: seq<char>, inp: seq<char>, fi: nat, ii: nat, st: State, sp: Strptime, pm: Meridiem): (r: Step)
    requires fi + 1 < |fmt| && fmt[fi] == '%' && ii < |inp| && StrptimeOk(sp)
    ensures Advances(r, fmt, inp, fi, ii)
    ensures StateOk(st) && r.Next? ==> StateOk(r.st)
  {
    var c := fi + 2;
    if c < |fmt| && fmt[c] == 'z' then OffsetStep(inp, ii, ":", c + 1, st)
    else if c + 1 < |fmt| && fmt[c] == '*' && fmt[c + 1] == 'z' then OffsetStep(inp, ii, ":", c + 2, st)
    else if c + 1 < |fmt| && fmt[c] == '*' && fmt[c + 1] == 'S' then SecondsStep(inp, ii, c + 2, st)
    else if c + 1 < |fmt| && fmt[c] == '*' && fmt[c + 1] == 'f' then FractionStep(inp, ii, c + 2, st)
    else if c + 1 < |fmt| && fmt[c] == '4' && fmt[c + 1] == 'Y' then Year4Step(inp, ii, c + 2, st)
    else DigitsExtension(fmt, inp, fi, ii, st, sp, pm, PrecisionEnd(fmt, c))
  }

  /** %E#S and %E#f, whose precision is ignored; any other "%E" goes to
      strptime with the character after it. */
  function DigitsExtension(fmt: seq<char>, inp: seq<char>, fi: nat, ii: nat, st: State, sp: Strptime, pm: Meridiem,
                           e: Option<nat>): (r: Step)
    requires fi + 1 < |fmt| && fmt[fi] == '%' && ii < |inp| && StrptimeOk(sp)
    requires e.Some? ==> fi + 2 < e.value <= |fmt|
    ensures Advances(r, fmt, inp, fi, ii)
    ensures StateOk(st) && r.Next? ==> StateOk(r.st)
  {
    if e.Some? && e.value != |fmt| && fmt[e.value] == 'S' then SecondsStep(inp, ii, e.value + 1, st)
    else if e.Some? && e.value != |fmt| && fmt[e.value] == 'f' then FractionStep(inp, ii, e.value + 1, st)
    else ExtensionFallback(fmt, inp, fi, ii, st, sp, pm)
  }

  /** Any other "%E" specifier goes to strptime as the three characters
      from '%'; "%Ec" and "%EX" read the hour as %H does. */
  function ExtensionFallback(fmt: seq<char>, inp: seq<char>, fi: nat, ii: nat, st: State, sp: Strptime, pm: Meridiem): (r: Step)
    requires fi + 1 < |fmt| && fmt[fi] == '%' && ii < |inp| && StrptimeOk(sp)
    ensures Advances(r, fmt, inp, fi, ii)
    ensures StateOk(st) && r.Next? ==> StateOk(r.st)
  {
    var c := fi + 2;
    var st1 := if CharAt(fmt, c) == 'c' || CharAt(fmt, c) == 'X' then st.(twelveHour := false) else st;
    Fallback(fmt, inp, fi, if c != |fmt| then c + 1 else c, ii, st1, sp, pm)
  }

  /** Where the digits of the precision in "%E#" end, when `ParseInt`
      reads a number in [0, 1024] there. */
  function PrecisionEnd(fmt: seq<char>, c: nat): (e: Option<nat>)
    requires c <= |fmt|
    ensures e.Some? ==> c < e.value <= |fmt| && IsDigit(fmt[c])
  {
    if c < |fmt| && IsDigit(fmt[c]) then
      var w := WidthDigits(fmt, c);
      if w.Some? then Some(c + w.value.1) else None
    else None
  }

  /** Which field an integer specifier stores into. */
  datatype IntField = YearField | MonthField | DayField | HourField | MinuteField | SecondField | PercentSField

  /** How a specifier that `parse` reads with `ParseInt` calls it. */
  datatype IntSpec = IntSpec(width: int, min: int, max: int, t: IntType, field: IntField)

  /** The specifiers read with `ParseInt`, with their widths and ranges;
      %s reads a 64-bit integer. */
  function IntSpecifier(ch: char): (r: Option<IntSpec>)
    ensures r.Some? ==> StoreFits(r.value.field, r.value.min, r.value.max)
  {
    if ch == 'Y' then Some(IntSpec(0, Int64Min, Int64Max, Int64, YearField))
    else if ch == 'm' then Some(IntSpec(2, 1, 12, Int32, MonthField))
    else if ch == 'd' || ch == 'e' then Some(IntSpec(2, 1, 31, Int32, DayField))
    else if ch == 'H' then Some(IntSpec(2, 0, 23, Int32, HourField))
    else if ch == 'M' then Some(IntSpec(2, 0, 59, Int32, MinuteField))
    else if ch == 'S' then Some(IntSpec(2, 0, 60, Int32, SecondField))
    else if ch == 's' then Some(IntSpec(0, Int64Min, Int64Max, Int64, PercentSField))
    else None
  }

  /** Stores a value read by `ParseInt`; the month is stored from 0. A year
      marks the year as seen, %H leaves the 12-hour mode and %s marks the
      Unix seconds as seen. */
  function Store(st: State, f: IntField, v: int): State
  {
    match f
    case YearField => st.(year := v, sawYear := true)
    case MonthField => st.(tm := st.tm.(mon := v - 1))
    case DayField => st.(tm := st.tm.(mday := v))
    case HourField => st.(tm := st.tm.(hour := v), twelveHour := false)
    case MinuteField => st.(tm := st.tm.(min := v))
    case SecondField => st.(tm := st.tm.(sec := v))
    case PercentSField => st.(percentS := v, sawPercentS := true)
  }

  /** The range a specifier accepts fits the field it stores into. */
  predicate StoreFits(f: IntField, min: int, max: int)
  {
    match f
    case YearField => Int64Min <= min && max <= Int64Max
    case MonthField => 1 <= min && max <= 12
    case DayField => 1 <= min && max <= 31
    case HourField => 0 <= min && max <= 23
    case MinuteField => 0 <= min && max <= 59
    case SecondField => 0 <= min && max <= 60
    case PercentSField => Int64Min <= min && max <= Int64Max
  }

  /** A field read by `ParseInt(input, width, min, max)`. */
  function IntStep(inp: seq<char>, ii: nat, width: int, min: int, max: int, t: IntType, fe: nat, st: State, f: IntField): (r: Step)
    requires ii <= |inp|
    ensures r.Next? ==> r.fi == fe && ii < r.ii <= |inp|
    ensures StateOk(st) && StoreFits(f, min, max) && r.Next? ==> StateOk(r.st)
  {
    var v := ParseIntSpec(inp[ii..], width, min, max, t);
    if v.None? then Fail
    else
      ParseIntRange(inp[ii..], width, min, max, t);
      StoreKeepsRanges(st, f, min, max, v.value.0);
      Next(fe, ii + v.value.1, Store(st, f, v.value.0))
  }

  /** A value within the specifier's range keeps the state in range. */
  lemma StoreKeepsRanges(st: State, f: IntField, min: int, max: int, v: int)
    requires min <= v <= max
    ensures StateOk(st) && StoreFits(f, min, max) ==> StateOk(Store(st, f, v))
  {
  }

  /** %z, %:z, %::z, %:::z, %Ez and %E*z: an offset read by `ParseOffset`. */
  function OffsetStep(inp: seq<char>, ii: nat, mode: seq<char>, fe: nat, st: State): (r: Step)
    requires ii <= |inp|
    ensures r.Next? ==> r.fi == fe && ii < r.ii <= |inp|
    ensures StateOk(st) && r.Next? ==> StateOk(r.st)
  {
    var v := ParseOffset(inp[ii..], mode);
    if v.None? then Fail
    else
      ParseOffsetSuccess(inp[ii..], mode);
      Next(fe, ii + v.value.1, st.(offset := v.value.0, sawOffset := true))
  }

  /** %Z: a zone abbreviation is read and then ignored. */
  function ZoneStep(inp: seq<char>, ii: nat, fe: nat, st: State): (r: Step)
    requires ii <= |inp|
    ensures r.Next? ==> r.fi == fe && ii < r.ii <= |inp|
    ensures StateOk(st) && r.Next? ==> StateOk(r.st)
  {
    var v := ZoneSpec(inp[ii..]);
    if v.None? then Fail else Next(fe, ii + v.value.1, st.(zone := v.value.0))
  }

  /** The fraction after "." or at the start of %E*f, read by
      `ParseSubSeconds`. */
  function SubSecondsStep(inp: seq<char>, ii: nat, fe: nat, st: State): (r: Step)
    requires ii <= |inp|
    ensures r.Next? ==> r.fi == fe && ii < r.ii <= |inp|
    ensures StateOk(st) && r.Next? ==> StateOk(r.st)
  {
    var v := SubSecondsSpec(inp[ii..]);
    if v.None? then Fail
    else
      SubSecondsMeaning(inp[ii..]);
      FemtosPerSecondIsPow10();
      Next(fe, ii + v.value.1, st.(subseconds := v.value.0))
  }

  /** %E*S and %E#S: two digits of seconds, then a fraction if a '.'
      follows. */
  function SecondsStep(inp: seq<char>, ii: nat, fe: nat, st: State): (r: Step)
    requires ii <= |inp|
    ensures r.Next? ==> r.fi == fe && ii < r.ii <= |inp|
    ensures StateOk(st) && r.Next? ==> StateOk(r.st)
  {
    var s := IntStep(inp, ii, 2, 0, 60, Int32, fe, st, SecondField);
    if s.Fail? || !(s.ii < |inp| && inp[s.ii] == '.') then s
    else SubSecondsStep(inp, s.ii + 1, fe, s.st)
  }

  /** %E*f and %E#f: a fraction if a digit follows. */
  function FractionStep(inp: seq<char>, ii: nat, fe: nat, st: State): (r: Step)
    requires ii <= |inp|
    ensures r.Next? ==> r.fi == fe && ii <= r.ii <= |inp|
    ensures StateOk(st) && r.Next? ==> StateOk(r.st)
  {
    if ii < |inp| && IsDigit(inp[ii]) then SubSecondsStep(inp, ii, fe, st) else Next(fe, ii, st)
  }

  /** %E4Y: exactly four characters, a year in [-999, 9999]. */
  function Year4Step(inp: seq<char>, ii: nat, fe: nat, st: State): (r: Step)
    requires ii <= |inp|
    ensures r.Next? ==> r.fi == fe && ii < r.ii <= |inp|
    ensures StateOk(st) && r.Next? ==> StateOk(r.st)
  {
    var s := IntStep(inp, ii, 4, -999, 9999, Int64, fe, st, YearField);
    if s.Next? && s.ii - ii != 4 then Fail else s
  }

  /** strptime on the specifier fmt[fi..fe] and the rest of the input. */
  function Fallback(fmt: seq<char>, inp: seq<char>, fi: nat, fe: nat, ii: nat, st: State, sp: Strptime, pm: Meridiem): (r: Step)
    requires fi <= fe <= |fmt| && ii <= |inp| && StrptimeOk(sp)
    ensures r.Next? ==> r.fi == fe && ii <= r.ii <= |inp|
    ensures StateOk(st) && r.Next? ==> StateOk(r.st)
  {
    var spec := fmt[fi..fe];
    var v := sp(spec, inp[ii..], st.tm);
    assert StrptimeKeeps(v, inp[ii..]);
    if v.None? then Fail
    else
      var (tm, n) := v.value;
      var st1 := st.(tm := tm);
      Next(fe, ii + n, if spec == "%p" then st1.(afternoon := pm(inp[ii..ii + n])) else st1)
  }

  /** The loop from format position fi and input position ii: the state and
      input position it stops at, or `None` when `parse` fails in it. It
      stops when either string runs out. */
  function ParseLoop(fmt: seq<char>, inp: seq<char>, fi: nat, ii: nat, st: State, sp: Strptime, pm: Meridiem): (r: Option<(State, nat)>)
    requires fi <= |fmt| && ii <= |inp| && StrptimeOk(sp)
    ensures r.Some? ==> r.value.1 <= |inp|
    decreases |fmt| - fi
  {
    if ii == |inp| || fi == |fmt| then Some((st, ii))
    else
      var s := StepSpec(fmt, inp, fi, ii, st, sp, pm);
      if s.Fail? then None else ParseLoop(fmt, inp, s.fi, s.ii, s.st, sp, pm)
  }

  /** Why `parse` fails: the messages it sets. */
  datatype ParseError =
    | Malformed     // "Failed to parse input"
    | TrailingData  // "Illegal trailing data in input string"
    | YearRange     // "Out-of-range year"
    | FieldRange    // "Out-of-range field"

  /** What `parse` yields: an error; the Unix seconds of %s, with a zero
      fraction; or the civil second to look up, after subtracting the offset,
      in UTC when an offset was parsed and in the given zone otherwise, with
      its fraction. */
  datatype Parsed =
    | Failed(err: ParseError)
    | UnixTime(seconds: int)
    | CivilTime(cs: CivilSecond, offset: int, inUtc: bool, femtos: int)

  /** What `parse` does once the loop has stopped at input position ii in
      state st. */
  function Reconcile(st: State, inp: seq<char>, ii: nat): Parsed
    requires ii <= |inp| && StateOk(st)
  {
    var tm := if st.twelveHour && st.afternoon && st.tm.hour < 12 then st.tm.(hour := st.tm.hour + 12) else st.tm;
    if SpaceEnd(inp, ii) != |inp| then Failed(TrailingData)
    else if st.sawPercentS then UnixTime(st.percentS)
    else
      // A leap second of 60 normalises forward to the following ":00".
      var leap := tm.sec == 60;
      var sec := if leap then 59 else tm.sec;
      var offset := if leap then st.offset - 1 else st.offset;
      var femtos := if leap then 0 else st.subseconds;
      if !st.sawYear && tm.year > Int64Max - 1900 then Failed(YearRange)
      else
        var year := if st.sawYear then st.year else tm.year + 1900;
        Settle(CivilSecond(year, tm.mon + 1, tm.mday, tm.hour, tm.min, sec), offset, st.sawOffset, femtos)
  }

  /** The civil second built from the fields must not have been normalised,
      and subtracting the offset must keep it within the civil-second
      range. */
  function Settle(cs: CivilSecond, offset: int, inUtc: bool, femtos: int): Parsed
    requires InFieldRanges(cs)
  {
    var n := Normalize(cs);
    if n.month != cs.month || n.day != cs.day then Failed(FieldRange)
    else if !ShiftFits(cs, offset) then Failed(FieldRange)
    else CivilTime(cs, offset, inUtc, femtos)
  }

  /** `parse(format, input, tz)`: leading white space of the input is
      skipped, then the loop runs from the defaults. */
  function ParseSpec(fmt: seq<char>, inp: seq<char>, sp: Strptime, pm: Meridiem): Parsed
    requires StrptimeOk(sp)
  {
    var r := ParseLoop(fmt, inp, 0, SpaceEnd(inp, 0), Initial, sp, pm);
    if r.None? then Failed(Malformed)
    else
      LoopKeepsRanges(fmt, inp, 0, SpaceEnd(inp, 0), Initial, sp, pm);
      Reconcile(r.value.0, inp, r.value.1)
  }

  /** The loop keeps every field in range. */
  lemma {:induction false} LoopKeepsRanges(fmt: seq<char>, inp: seq<char>, fi: nat, ii: nat, st: State, sp: Strptime, pm: Meridiem)
    requires fi <= |fmt| && ii <= |inp| && StrptimeOk(sp) && StateOk(st)
    requires ParseLoop(fmt, inp, fi, ii, st, sp, pm).Some?
    ensures StateOk(ParseLoop(fmt, inp, fi, ii, st, sp, pm).value.0)
    decreases |fmt| - fi
  {
    if ii != |inp| && fi != |fmt| {
      var s := StepSpec(fmt, inp, fi, ii, st, sp, pm);
      LoopKeepsRanges(fmt, inp, s.fi, s.ii, s.st, sp, pm);
    }
  }

  // The methods below are the executable form of `parse`. The loops of
  // `consume_leading_spaces`, `ParseInt`, `ParseZone`, `ParseSubSeconds` and
  // the outer loop of `parse` do proof work of their own; the specifier
  // methods between them only mirror the step functions above, branch for
  // branch, and their contracts tie each one to its function.

  /** `consume_leading_spaces`: the position after the white space at i. */
  method SkipSpaces(s: seq<char>, i: nat) returns (j: nat)
    requires i <= |s|
    ensures j == SpaceEnd(s, i)
  {
    j := i;
    while j != |s| && IsSpace(s[j])
      invariant i <= j <= |s| && SpaceEnd(s, j) == SpaceEnd(s, i)
      decreases |s| - j
    {
      j := j + 1;
    }
  }

  /** An integer field read with `ParseInt`. */
  method ReadInt(inp: seq<char>, ii: nat, width: int, min: int, max: int, t: IntType, fe: nat, st: State, f: IntField)
    returns (r: Step)
    requires ii <= |inp|
    ensures r == IntStep(inp, ii, width, min, max, t, fe, st, f)
  {
    var v := ParseInt(inp[ii..], width, min, max, t);
    if v.None? {
      return Fail;
    }
    ParseIntRange(inp[ii..], width, min, max, t);
    r := Next(fe, ii + v.value.1, Store(st, f, v.value.0));
  }

  /** A fraction read with `ParseSubSeconds`. */
  method ReadSubSeconds(inp: seq<char>, ii: nat, fe: nat, st: State) returns (r: Step)
    requires ii <= |inp|
    ensures r == SubSecondsStep(inp, ii, fe, st)
  {
    var v := ParseSubSeconds(inp[ii..]);
    if v.None? {
      return Fail;
    }
    SubSecondsMeaning(inp[ii..]);
    r := Next(fe, ii + v.value.1, st.(subseconds := v.value.0));
  }

  /** %E*S and %E#S. */
  method ReadSeconds(inp: seq<char>, ii: nat, fe: nat, st: State) returns (r: Step)
    requires ii <= |inp|
    ensures r == SecondsStep(inp, ii, fe, st)
  {
    r := ReadInt(inp, ii, 2, 0, 60, Int32, fe, st, SecondField);
    if r.Next? && r.ii < |inp| && inp[r.ii] == '.' {
      r := ReadSubSeconds(inp, r.ii + 1, fe, r.st);
    }
  }

  /** %E*f and %E#f. */
  method ReadFraction(inp: seq<char>, ii: nat, fe: nat, st: State) returns (r: Step)
    requires ii <= |inp|
    ensures r == FractionStep(inp, ii, fe, st)
  {
    if ii < |inp| && IsDigit(inp[ii]) {
      r := ReadSubSeconds(inp, ii, fe, st);
    } else {
      r := Next(fe, ii, st);
    }
  }

  /** %E4Y. */
  method ReadYear4(inp: seq<char>, ii: nat, fe: nat, st: State) returns (r: Step)
    requires ii <= |inp|
    ensures r == Year4Step(inp, ii, fe, st)
  {
    r := ReadInt(inp, ii, 4, -999, 9999, Int64, fe, st, YearField);
    if r.Next? && r.ii - ii != 4 {
      r := Fail;  // stopped too soon
    }
  }

  /** %Z. */
  method ReadZone(inp: seq<char>, ii: nat, fe: nat, st: State) returns (r: Step)
    requires ii <= |inp|
    ensures r == ZoneStep(inp, ii, fe, st)
  {
    var v := ParseZone(inp[ii..]);
    if v.None? {
      return Fail;
    }
    r := Next(fe, ii + v.value.1, st.(zone := v.value.0));
  }

  /** The "%E" extensions. */
  method Extension(fmt: seq<char>, inp: seq<char>, fi: nat, ii: nat, st: State, sp: Strptime, pm: Meridiem)
    returns (r: Step)
    requires fi + 1 < |fmt| && fmt[fi] == '%' && ii < |inp| && StrptimeOk(sp)
    ensures r == ExtensionStep(fmt, inp, fi, ii, st, sp, pm)
  {
    var c := fi + 2;
    if c < |fmt| && fmt[c] == 'z' {
      return OffsetStep(inp, ii, ":", c + 1, st);
    }
    if c + 1 < |fmt| && fmt[c] == '*' && fmt[c + 1] == 'z' {
      return OffsetStep(inp, ii, ":", c + 2, st);
    }
    if c + 1 < |fmt| && fmt[c] == '*' && fmt[c + 1] == 'S' {
      r := ReadSeconds(inp, ii, c + 2, st);
      return;
    }
    if c + 1 < |fmt| && fmt[c] == '*' && fmt[c + 1] == 'f' {
      r := ReadFraction(inp, ii, c + 2, st);
      return;
    }
    if c + 1 < |fmt| && fmt[c] == '4' && fmt[c + 1] == 'Y' {
      r := ReadYear4(inp, ii, c + 2, st);
      return;
    }
    var e := ReadPrecision(fmt, c);
    r := DigitsSpecifier(fmt, inp, fi, ii, st, sp, pm, e);
  }

  /** The precision of "%E#", read with `ParseInt`. */
  method ReadPrecision(fmt: seq<char>, c: nat) returns (e: Option<nat>)
    requires c <= |fmt|
    ensures e == PrecisionEnd(fmt, c)
  {
    if c == |fmt| || !IsDigit(fmt[c]) {
      return None;
    }
    var w := ParseInt(fmt[c..], 0, 0, 1024, Int32);
    if w.None? {
      return None;
    }
    ParseIntRange(fmt[c..], 0, 0, 1024, Int32);
    e := Some(c + w.value.1);
  }

  /** %E#S, %E#f and the other "%E" specifiers. */
  method DigitsSpecifier(fmt: seq<char>, inp: seq<char>, fi: nat, ii: nat, st: State, sp: Strptime, pm: Meridiem,
                         e: Option<nat>)
    returns (r: Step)
    requires fi + 1 < |fmt| && fmt[fi] == '%' && ii < |inp| && StrptimeOk(sp)
    requires e.Some? ==> fi + 2 < e.value <= |fmt|
    ensures r == DigitsExtension(fmt, inp, fi, ii, st, sp, pm, e)
  {
    if e.Some? && e.value != |fmt| && fmt[e.value] == 'S' {
      r := ReadSeconds(inp, ii, e.value + 1, st);
    } else if e.Some? && e.value != |fmt| && fmt[e.value] == 'f' {
      r := ReadFraction(inp, ii, e.value + 1, st);
    } else {
      r := ExtensionFallback(fmt, inp, fi, ii, st, sp, pm);
    }
  }

  /** The specifier switch. */
  method Specifier(fmt: seq<char>, inp: seq<char>, fi: nat, ii: nat, st: State, sp: Strptime, pm: Meridiem)
    returns (r: Step)
    requires fi + 1 < |fmt| && fmt[fi] == '%' && ii < |inp| && StrptimeOk(sp)
    ensures r == SpecifierStep(fmt, inp, fi, ii, st, sp, pm)
  {
    var f2 := fi + 2;
    var ch := fmt[fi + 1];
    var spec := IntSpecifier(ch);
    if spec.Some? {
      r := ReadInt(inp, ii, spec.value.width, spec.value.min, spec.value.max, spec.value.t, f2, st, spec.value.field);
    } else if ch == 'I' || ch == 'l' || ch == 'r' {
      r := Fallback(fmt, inp, fi, f2, ii, st.(twelveHour := true), sp, pm);
    } else if ch == 'R' || ch == 'T' || ch == 'c' || ch == 'X' {
      r := Fallback(fmt, inp, fi, f2, ii, st.(twelveHour := false), sp, pm);
    } else if ch == 'z' {
      r := OffsetStep(inp, ii, "", f2, st);
    } else if ch == 'Z' {
      r := ReadZone(inp, ii, f2, st);
    } else if ch == ':' {
      if f2 < |fmt| && fmt[f2] == 'z' {
        r := OffsetStep(inp, ii, ":", f2 + 1, st);
      } else if f2 + 1 < |fmt| && fmt[f2] == ':' && fmt[f2 + 1] == 'z' {
        r := OffsetStep(inp, ii, ":", f2 + 2, st);
      } else if f2 + 2 < |fmt| && fmt[f2] == ':' && fmt[f2 + 1] == ':' && fmt[f2 + 2] == 'z' {
        r := OffsetStep(inp, ii, ":", f2 + 3, st);
      } else {
        r := Fallback(fmt, inp, fi, f2, ii, st, sp, pm);
      }
    } else if ch == '%' {
      r := if inp[ii] != '%' then Fail else Next(f2, ii + 1, st);
    } else if ch == 'E' {
      r := Extension(fmt, inp, fi, ii, st, sp, pm);
    } else if ch == 'O' {
      var st1 := st;
      if CharAt(fmt, f2) == 'H' {
        st1 := st1.(twelveHour := false);
      }
      if CharAt(fmt, f2) == 'I' {
        st1 := st1.(twelveHour := true);
      }
      r := Fallback(fmt, inp, fi, if f2 != |fmt| then f2 + 1 else f2, ii, st1, sp, pm);
    } else {
      r := Fallback(fmt, inp, fi, f2, ii, st, sp, pm);
    }
  }

  /** One turn of the loop. */
  method Turn(fmt: seq<char>, inp: seq<char>, fi: nat, ii: nat, st: State, sp: Strptime, pm: Meridiem)
    returns (r: Step)
    requires fi < |fmt| && ii < |inp| && StrptimeOk(sp)
    ensures r == StepSpec(fmt, inp, fi, ii, st, sp, pm)
  {
    if IsSpace(fmt[fi]) {
      var fe := SkipSpaces(fmt, fi);
      var ie := SkipSpaces(inp, ii);
      return Next(fe, ie, st);
    }
    if fmt[fi] != '%' {
      if fmt[fi] != inp[ii] {
        return Fail;
      }
      return Next(fi + 1, ii + 1, st);
    }
    if fi + 1 == |fmt| {
      return Fail;
    }
    r := Specifier(fmt, inp, fi, ii, st, sp, pm);
  }

  /** What `parse` does after the loop. */
  method Finish(st: State, inp: seq<char>, ii: nat) returns (r: Parsed)
    requires ii <= |inp| && StateOk(st)
    ensures r == Reconcile(st, inp, ii)
  {
    var tm := if st.twelveHour && st.afternoon && st.tm.hour < 12 then st.tm.(hour := st.tm.hour + 12) else st.tm;
    var end := SkipSpaces(inp, ii);
    if end != |inp| {
      return Failed(TrailingData);
    }
    if st.sawPercentS {
      return UnixTime(st.percentS);
    }
    var leap := tm.sec == 60;
    var sec := if leap then 59 else tm.sec;
    var offset := if leap then st.offset - 1 else st.offset;
    var femtos := if leap then 0 else st.subseconds;
    if !st.sawYear && tm.year > Int64Max - 1900 {
      return Failed(YearRange);
    }
    var year := if st.sawYear then st.year else tm.year + 1900;
    var cs := CivilSecond(year, tm.mon + 1, tm.mday, tm.hour, tm.min, sec);
    r := Check(cs, offset, st.sawOffset, femtos);
  }

  /** The normalisation and range checks on the civil second. */
  method Check(cs: CivilSecond, offset: int, inUtc: bool, femtos: int) returns (r: Parsed)
    requires InFieldRanges(cs)
    ensures r == Settle(cs, offset, inUtc, femtos)
  {
    var n := Normalize(cs);
    if n.month != cs.month || n.day != cs.day {
      return Failed(FieldRange);
    }
    if !ShiftFits(cs, offset) {
      return Failed(FieldRange);
    }
    r := CivilTime(cs, offset, inUtc, femtos);
  }

  /** `parse(format, input, tz)`: the two cursors walk the format and the
      input together until either runs out. */
  method Parse(fmt: seq<char>, inp: seq<char>, sp: Strptime, pm: Meridiem) returns (r: Parsed)
    requires StrptimeOk(sp)
    ensures r == ParseSpec(fmt, inp, sp, pm)
  {
    var i0 := SkipSpaces(inp, 0);
    var fi: nat, ii: nat, st := 0, i0, Initial;
    while ii != |inp| && fi != |fmt|
      invariant fi <= |fmt| && ii <= |inp| && StateOk(st)
      invariant ParseLoop(fmt, inp, fi, ii, st, sp, pm) == ParseLoop(fmt, inp, 0, i0, Initial, sp, pm)
      decreases |fmt| - fi
    {
      var s := Turn(fmt, inp, fi, ii, st, sp, pm);
      if s.Fail? {
        return Failed(Malformed);
      }
      fi, ii, st := s.fi, s.ii, s.st;
    }
    LoopKeepsRanges(fmt, inp, 0, i0, Initial, sp, pm);
    r := Finish(st, inp, ii);
  }
}
