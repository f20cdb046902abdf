/** `format` renders the pieces its scan of the format string yields (see
    `FormatScan`) for one absolute lookup. The strftime fallback `FormatTM`
    is the function parameter `tm`: what it appends for a stretch of the
    format string is left open. */
module Formatter {
  import opened Base
  import opened DigitWriters
  import opened NumParse
  import opened FormatScan

  /** What `FormatTM` appends for a stretch of the format string. */
  type Strftime = seq<char> -> seq<char>

  /** The fields of `tz.lookup(tp)` that `format` reads, with the Unix
      seconds of tp and the femtoseconds of the sub-second part. */
  datatype AbsoluteLookup = AbsoluteLookup(year: int, month: int, day: int, hour: int, minute: int, second: int,
                                           offset: int, abbr: seq<char>, unixSeconds: int, femtos: int)

  /** A civil time's fields are in range; the offset can be negated; the
      fraction is below one second, as `format` requires of its caller. */
  predicate ValidLookup(al: AbsoluteLookup)
  {
    && IsInt64(al.year) && 1 <= al.month <= 12 && 1 <= al.day <= 31
    && 0 <= al.hour <= 23 && 0 <= al.minute <= 59 && 0 <= al.second <= 59
    && Int32Min < al.offset <= Int32Max && IsInt64(al.unixSeconds)
    && 0 <= al.femtos < FemtosPerSecond
  }

  type Lookup = al: AbsoluteLookup | ValidLookup(al)
    witness AbsoluteLookup(1970, 1, 1, 0, 0, 0, 0, "UTC", 0, 0)

  /** %e: the day with a leading zero turned into a space. */
  function SpaceLeading(t: seq<char>): seq<char>
  {
    if |t| > 0 && t[0] == '0' then [' '] + t[1..] else t
  }

  /** The fifteen fraction digits with their trailing zeros removed. */
  function StripZeros(t: seq<char>): (r: seq<char>)
    ensures |r| <= |t| && r == t[..|r|]
  {
    if t != [] && t[|t| - 1] == '0' then StripZeros(t[..|t| - 1]) else t
  }

  /** %E*S and %E*f: the fraction in as many digits as it needs. */
  function StarFraction(which: char, al: Lookup): seq<char>
  {
    var x := StripZeros(Format64Text(al.femtos, FemtoDigits));
    if which == 'S' then TwoDigits(al.second) + (if x != [] then "." + x else [])
    else if x == [] then "0" else x
  }

  /** The fraction in units of 10^-k seconds: femtoseconds scaled down, or up
      beyond fifteen digits. */
  function FracValue(fs: nat, k: nat): int
    requires 0 < k <= Digits10x64
  {
    if k > FemtoDigits then fs * Pow10(k - FemtoDigits) else fs / Pow10(FemtoDigits - k)
  }

  /** %E#S and %E#f with n digits, of which at most eighteen are written. */
  function DigitsFraction(n: int, which: char, al: Lookup): seq<char>
  {
    var k: nat := if n > Digits10x64 then Digits10x64 else if n > 0 then n else 0;
    var digits := if n > 0 then Format64Text(FracValue(al.femtos, k), k) else [];
    if which == 'S' then TwoDigits(al.second) + (if n > 0 then "." + digits else [])
    else digits
  }

  /** The text `format` writes for a field. */
  function FieldText(f: Field, al: Lookup): seq<char>
  {
    match f
    case Year => Format64Text(al.year, 0)
    case Month => TwoDigits(al.month)
    case Day => TwoDigits(al.day)
    case DaySpace => SpaceLeading(TwoDigits(al.day))
    case Hour => TwoDigits(al.hour)
    case Minute => TwoDigits(al.minute)
    case Second => TwoDigits(al.second)
    case Offset(mode) => FormatOffsetText(al.offset, mode)
    case Abbr => al.abbr
    case Unix => Format64Text(al.unixSeconds, 0)
    case PercentSign => "%"
    case NoText => []
    case Year4 => Format64Text(al.year, 4)
    case StarFrac(which) => StarFraction(which, al)
    case DigitsFrac(n, which) => DigitsFraction(n, which, al)
  }

  function Render(p: Piece, al: Lookup, tm: Strftime): seq<char>
  {
    match p
    case Copy(text) => text
    case Strftime(spec) => tm(spec)
    case Field(f) => FieldText(f, al)
  }

  /** The text of a list of pieces. `RenderCons` and `RenderPiece` are
      separate steps so that one unfolding of `RenderAll` stops short of the
      text of a field. */
  function RenderAll(ps: seq<Piece>, al: Lookup, tm: Strftime): seq<char>
    decreases |ps|, 2
  {
    if ps == [] then [] else RenderCons(ps, al, tm)
  }

  function RenderCons(ps: seq<Piece>, al: Lookup, tm: Strftime): seq<char>
    requires ps != []
    decreases |ps|, 1
  {
    RenderPiece(ps[0], ps[1..], al, tm)
  }

  function RenderPiece(p: Piece, rest: seq<Piece>, al: Lookup, tm: Strftime): seq<char>
    decreases |rest| + 1, 0
  {
    Render(p, al, tm) + RenderAll(rest, al, tm)
  }

  /** A non-empty list renders as its first piece, then the rest. */
  lemma RenderFirst(ps: seq<Piece>, al: Lookup, tm: Strftime)
    requires ps != []
    ensures RenderAll(ps, al, tm) == Render(ps[0], al, tm) + RenderAll(ps[1..], al, tm)
  {
    assert RenderAll(ps, al, tm) == RenderCons(ps, al, tm);
    assert RenderCons(ps, al, tm) == RenderPiece(ps[0], ps[1..], al, tm);
  }

  /** Rendering a list of pieces renders each in turn. */
  lemma {:induction false} RenderAllAppend(a: seq<Piece>, b: seq<Piece>, al: Lookup, tm: Strftime)
    ensures RenderAll(a + b, al, tm) == RenderAll(a, al, tm) + RenderAll(b, al, tm)
    decreases |a|
  {
    if a == [] {
      assert a + b == b;
    } else {
      assert (a + b)[1..] == a[1..] + b;
      RenderFirst(a + b, al, tm);
      RenderFirst(a, al, tm);
      RenderAllAppend(a[1..], b, al, tm);
    }
  }

  lemma RenderOne(p: Piece, al: Lookup, tm: Strftime)
    ensures RenderAll([p], al, tm) == Render(p, al, tm)
  {
    RenderFirst([p], al, tm);
    assert [p][1..] == [];
  }

  /** What `format(fmt, tp, fs, tz)` returns, given the lookup of tp in tz. */
  function FormatSpec(fmt: seq<char>, al: Lookup, tm: Strftime): seq<char>
  {
    RenderAll(Pieces(fmt), al, tm)
  }

  lemma ConcatAssoc<T>(a: seq<T>, b: seq<T>, c: seq<T>)
    ensures a + b + c == a + (b + c)
  {
  }

  lemma EmptyPrefix<T>(a: seq<T>)
    ensures [] + a == a
  {
  }

  /** What one turn of the loop has appended and where the cursors are. */
  datatype Step = Step(out: seq<char>, pending: nat, cur: nat)

  /** `while (cp != bp && cp[-1] == '0') --cp;` */
  method TrimZeros(t: seq<char>) returns (cp: nat)
    ensures cp <= |t| && t[..cp] == StripZeros(t)
  {
    cp := |t|;
    assert t[..cp] == t;
    while cp != 0 && t[cp - 1] == '0'
      invariant cp <= |t| && StripZeros(t[..cp]) == StripZeros(t)
      decreases cp
    {
      assert t[..cp][..cp - 1] == t[..cp - 1];
      cp := cp - 1;
    }
    assert t[..cp] == StripZeros(t[..cp]);
  }

  method FormatTM(fmt: seq<char>, al: Lookup, tm: Strftime, p: nat, e: nat) returns (out: seq<char>)
    requires p <= e <= |fmt|
    ensures out == RenderAll(FlushPieces(fmt, p, e), al, tm)
  {
    out := [];
    if e != p {
      out := tm(fmt[p..e]);
      RenderOne(Strftime(fmt[p..e]), al, tm);
    }
  }

  /** The pending text, then one field: the output of a handled specifier. */
  method WriteField(fmt: seq<char>, al: Lookup, tm: Strftime, p: nat, e: nat, f: Field)
    returns (out: seq<char>, ghost ps: seq<Piece>)
    requires p <= e <= |fmt|
    ensures ps == FlushPieces(fmt, p, e) + [Field(f)] && out == RenderAll(ps, al, tm)
  {
    var flushed := FormatTM(fmt, al, tm, p, e);
    var text := FieldOut(f, al);
    out := flushed + text;
    ps := FlushPieces(fmt, p, e) + [Field(f)];
    RenderAllAppend(FlushPieces(fmt, p, e), [Field(f)], al, tm);
    RenderOne(Field(f), al, tm);
  }

  /** The text `format` writes for a handled specifier. */
  method FieldOut(f: Field, al: Lookup) returns (text: seq<char>)
    ensures text == FieldText(f, al)
  {
    match f
    case Year =>
      text := Format64(0, al.year);
    case Month =>
      text := Format02d(al.month);
    case Day =>
      text := Format02d(al.day);
    case DaySpace =>
      text := Format02d(al.day);
      if text[0] == '0' {
        text := [' '] + text[1..];  // for Windows
      }
    case Hour =>
      text := Format02d(al.hour);
    case Minute =>
      text := Format02d(al.minute);
    case Second =>
      text := Format02d(al.second);
    case Offset(mode) =>
      text := FormatOffset(al.offset, mode);
    case Abbr =>
      text := al.abbr;
    case Unix =>
      text := Format64(0, al.unixSeconds);
    case PercentSign =>
      text := "%";
    case NoText =>
      text := [];
    case Year4 =>
      text := Format64(4, al.year);
    case StarFrac(which) =>
      text := StarFractionText(which, al);
    case DigitsFrac(n, which) =>
      text := DigitsFractionText(n, which, al);
  }

  method StarFractionText(which: char, al: Lookup) returns (text: seq<char>)
    ensures text == StarFraction(which, al)
  {
    var digits := Format64(FemtoDigits, al.femtos);
    var cp := TrimZeros(digits);
    text := digits[..cp];
    if which == 'S' {
      if cp != 0 {
        text := "." + text;
      }
      var t := Format02d(al.second);
      text := t + text;
    } else if cp == 0 {
      text := "0";
    }
  }

  /** The femtoseconds scaled to n digits with the table of powers of ten. */
  method ScaledFraction(fs: nat, n: nat) returns (v: int)
    requires fs < FemtosPerSecond && 0 < n <= Digits10x64
    ensures v == FracValue(fs, n) && IsInt64(v)
  {
    if n > FemtoDigits {
      Exp10TableEntry(n - FemtoDigits);
      v := fs * Exp10Table[n - FemtoDigits];
    } else {
      Exp10TableEntry(FemtoDigits - n);
      v := fs / Exp10Table[FemtoDigits - n];
    }
    FracValueInt64(fs, n);
  }

  method DigitsFractionText(n0: int, which: char, al: Lookup) returns (text: seq<char>)
    ensures text == DigitsFraction(n0, which, al)
  {
    var n := n0;
    text := [];
    if n > 0 {
      if n > Digits10x64 {
        n := Digits10x64;
      }
      var v := ScaledFraction(al.femtos, n);
      text := Format64(n, v);
      if which == 'S' {
        text := "." + text;
      }
    }
    if which == 'S' {
      var t := Format02d(al.second);
      text := t + text;
    }
  }

  /** The scaled fraction of `%E#S` fits in an `int_fast64_t`. */
  lemma FracValueInt64(fs: nat, k: nat)
    requires fs < FemtosPerSecond && 0 < k <= Digits10x64
    ensures 0 <= FracValue(fs, k) < Pow10(k) && IsInt64(FracValue(fs, k))
  {
    FracValueBelow(fs, k);
    Pow10FitsInt64();
    Pow10Monotone(k, Digits10x64);
  }

  lemma FracValueBelow(fs: nat, k: nat)
    requires fs < FemtosPerSecond && 0 < k <= Digits10x64
    ensures 0 <= FracValue(fs, k) < Pow10(k)
  {
    FemtosPerSecondIsPow10();
    if k > FemtoDigits {
      var p := Pow10(k - FemtoDigits);
      assert FracValue(fs, k) == fs * p;
      Pow10Add(FemtoDigits, k - FemtoDigits);
      MulBelow(fs, Pow10(FemtoDigits), p);
    } else {
      var p := Pow10(FemtoDigits - k);
      assert FracValue(fs, k) == fs / p;
      Pow10Add(k, FemtoDigits - k);
      DivBelow(fs, Pow10(k), p);
    }
  }

  lemma MulBelow(a: nat, b: nat, c: nat)
    requires a < b && c >= 1
    ensures 0 <= a * c < b * c
  {
  }

  lemma DivBelow(a: nat, b: nat, c: nat)
    requires c > 0 && a < b * c
    ensures 0 <= a / c < b
  {
  }

  method Extension(fmt: seq<char>, al: Lookup, tm: Strftime, pending: nat, c: nat)
    returns (st: Step, ghost ps: seq<Piece>)
    requires pending + 2 <= c < |fmt|
    ensures st.pending <= st.cur <= |fmt| && c <= st.cur && st.out == RenderAll(ps, al, tm)
    ensures FormatExtension(fmt, pending, c) == ps + FormatFrom(fmt, st.pending, st.cur)
  {
    if fmt[c] == 'z' {
      assert FormatExtension(fmt, pending, c) == FlushPieces(fmt, pending, c - 2) + [Field(Offset(":"))] + FormatFrom(fmt, c + 1, c + 1);
      var out;
      out, ps := WriteField(fmt, al, tm, pending, c - 2, Offset(":"));
      return Step(out, c + 1, c + 1), ps;
    }
    if fmt[c] == '*' {
      assert FormatExtension(fmt, pending, c) == FormatStar(fmt, pending, c);
      st, ps := Star(fmt, al, tm, pending, c);
      return;
    }
    if fmt[c] == '4' && c + 1 != |fmt| && fmt[c + 1] == 'Y' {
      assert FormatExtension(fmt, pending, c) == FlushPieces(fmt, pending, c - 2) + [Field(Year4)] + FormatFrom(fmt, c + 2, c + 2);
      var out;
      out, ps := WriteField(fmt, al, tm, pending, c - 2, Year4);
      return Step(out, c + 2, c + 2), ps;
    }
    if IsDigit(fmt[c]) {
      assert FormatExtension(fmt, pending, c) == FormatDigitsAt(fmt, pending, c);
      st, ps := DigitsAt(fmt, al, tm, pending, c);
      return;
    }
    assert FormatExtension(fmt, pending, c) == FormatFrom(fmt, pending, c);
    EmptyPrefix(FormatFrom(fmt, pending, c));
    return Step([], pending, c), [];
  }

  method Star(fmt: seq<char>, al: Lookup, tm: Strftime, pending: nat, c: nat)
    returns (st: Step, ghost ps: seq<Piece>)
    requires pending + 2 <= c < |fmt| && fmt[c] == '*'
    ensures st.pending <= st.cur <= |fmt| && c <= st.cur && st.out == RenderAll(ps, al, tm)
    ensures FormatStar(fmt, pending, c) == ps + FormatFrom(fmt, st.pending, st.cur)
  {
    if c + 1 != |fmt| && fmt[c + 1] == 'z' {
      assert FormatStar(fmt, pending, c) == FlushPieces(fmt, pending, c - 2) + [Field(Offset(":*"))] + FormatFrom(fmt, c + 2, c + 2);
      var out;
      out, ps := WriteField(fmt, al, tm, pending, c - 2, Offset(":*"));
      return Step(out, c + 2, c + 2), ps;
    }
    if c + 1 != |fmt| && (fmt[c + 1] == 'S' || fmt[c + 1] == 'f') {
      assert FormatStar(fmt, pending, c) == FlushPieces(fmt, pending, c - 2) + [Field(StarFrac(fmt[c + 1]))] + FormatFrom(fmt, c + 2, c + 2);
      var out;
      out, ps := WriteField(fmt, al, tm, pending, c - 2, StarFrac(fmt[c + 1]));
      return Step(out, c + 2, c + 2), ps;
    }
    assert FormatStar(fmt, pending, c) == FormatFrom(fmt, pending, c);
    EmptyPrefix(FormatFrom(fmt, pending, c));
    return Step([], pending, c), [];
  }

  method DigitsAt(fmt: seq<char>, al: Lookup, tm: Strftime, pending: nat, c: nat)
    returns (st: Step, ghost ps: seq<Piece>)
    requires pending + 2 <= c < |fmt|
    ensures st.pending <= st.cur <= |fmt| && c <= st.cur && st.out == RenderAll(ps, al, tm)
    ensures FormatDigitsAt(fmt, pending, c) == ps + FormatFrom(fmt, st.pending, st.cur)
  {
    var r := ParseInt(fmt[c..], 0, 0, 1024, Int32);
    assert r == WidthDigits(fmt, c);
    st, ps := DigitsWidth(fmt, al, tm, pending, c, r);
  }

  method DigitsWidth(fmt: seq<char>, al: Lookup, tm: Strftime, pending: nat, c: nat, r: Option<(int, nat)>)
    returns (st: Step, ghost ps: seq<Piece>)
    requires pending + 2 <= c < |fmt| && (r.Some? ==> 0 < r.value.1 <= |fmt| - c)
    ensures st.pending <= st.cur <= |fmt| && c <= st.cur && st.out == RenderAll(ps, al, tm)
    ensures FormatDigits(fmt, pending, c, r) == ps + FormatFrom(fmt, st.pending, st.cur)
  {
    if r.None? || r.value.1 == |fmt| - c {
      assert FormatDigits(fmt, pending, c, r) == FormatFrom(fmt, pending, c);
      EmptyPrefix(FormatFrom(fmt, pending, c));
      return Step([], pending, c), [];
    }
    var np := c + r.value.1;
    if fmt[np] == 'S' || fmt[np] == 'f' {
      assert FormatDigits(fmt, pending, c, r) == FlushPieces(fmt, pending, c - 2) + [Field(DigitsFrac(r.value.0, fmt[np]))] + FormatFrom(fmt, np + 1, np + 1);
      var out;
      out, ps := WriteField(fmt, al, tm, pending, c - 2, DigitsFrac(r.value.0, fmt[np]));
      return Step(out, np + 1, np + 1), ps;
    }
    assert FormatDigits(fmt, pending, c, r) == FormatFrom(fmt, pending, c);
    EmptyPrefix(FormatFrom(fmt, pending, c));
    return Step([], pending, c), [];
  }

  /** How many colons precede a 'z' at cur, as %:z, %::z and %:::z read them. */
  method Colons(fmt: seq<char>, cur: nat) returns (n: nat)
    requires cur < |fmt| && fmt[cur] == ':'
    ensures n == ColonCount(fmt, cur)
  {
    n := 0;
    if cur + 1 != |fmt| {
      if fmt[cur + 1] == 'z' {
        n := 1;
      } else if fmt[cur + 1] == ':' && cur + 2 != |fmt| {
        if fmt[cur + 2] == 'z' {
          n := 2;
        } else if fmt[cur + 2] == ':' && cur + 3 != |fmt| {
          if fmt[cur + 3] == 'z' {
            n := 3;
          }
        }
      }
    }
  }

  method Dispatch(fmt: seq<char>, al: Lookup, tm: Strftime, pending: nat, cur: nat)
    returns (st: Step, ghost ps: seq<Piece>)
    requires pending < cur < |fmt|
    ensures st.pending <= st.cur <= |fmt| && cur <= st.cur && st.out == RenderAll(ps, al, tm)
    ensures FormatDispatch(fmt, pending, cur) == ps + FormatFrom(fmt, st.pending, st.cur)
  {
    var ch := fmt[cur];
    if IsSimple(ch) {
      assert FormatDispatch(fmt, pending, cur) == FlushPieces(fmt, pending, cur - 1) + [Field(SimpleField(ch))] + FormatFrom(fmt, cur + 1, cur + 1);
      var out;
      out, ps := WriteField(fmt, al, tm, pending, cur - 1, SimpleField(ch));
      return Step(out, cur + 1, cur + 1), ps;
    }
    if ch == ':' {
      var n := Colons(fmt, cur);
      if n > 0 {
        assert FormatDispatch(fmt, pending, cur) == FlushPieces(fmt, pending, cur - 1) + [Field(Offset(ColonMode(n)))] + FormatFrom(fmt, cur + n + 1, cur + n + 1);
        var out;
        out, ps := WriteField(fmt, al, tm, pending, cur - 1, Offset(ColonMode(n)));
        return Step(out, cur + n + 1, cur + n + 1), ps;
      }
    }
    if ch != 'E' {
      assert FormatDispatch(fmt, pending, cur) == FormatFrom(fmt, pending, cur);
      EmptyPrefix(FormatFrom(fmt, pending, cur));
      return Step([], pending, cur), [];
    }
    if cur + 1 == |fmt| {
      assert FormatDispatch(fmt, pending, cur) == FormatFrom(fmt, pending, cur + 1);
      EmptyPrefix(FormatFrom(fmt, pending, cur + 1));
      return Step([], pending, cur + 1), [];
    }
    assert FormatDispatch(fmt, pending, cur) == FormatExtension(fmt, pending, cur + 1);
    st, ps := Extension(fmt, al, tm, pending, cur + 1);
  }

  lemma RenderCopy(text: seq<char>, al: Lookup, tm: Strftime)
    ensures RenderAll(CopyPieces(text), al, tm) == text
  {
    if text != [] {
      RenderOne(Copy(text), al, tm);
    }
  }

  /** One turn of the outer loop. */
  method Iterate(fmt: seq<char>, al: Lookup, tm: Strftime, pending: nat, cur: nat)
    returns (st: Step, ghost ps: seq<Piece>)
    requires pending <= cur < |fmt|
    ensures st.pending <= st.cur <= |fmt| && cur < st.cur && st.out == RenderAll(ps, al, tm)
    ensures FormatFrom(fmt, pending, cur) == ps + FormatFrom(fmt, st.pending, st.cur)
  {
    var sc := ScanText(fmt, pending, cur);
    assert FormatFrom(fmt, pending, cur) == FormatTurn(fmt, pending, cur);
    assert FormatTurn(fmt, pending, cur) == FormatScanned(fmt, pending, cur);
    RenderCopy(sc.out, al, tm);
    // Loop unless we have an unescaped percent.
    if sc.cur == |fmt| || (sc.cur - sc.percent) % 2 == 0 {
      return Step(sc.out, sc.pending, sc.cur), CopyPieces(sc.out);
    }
    var d, dps := Dispatch(fmt, al, tm, sc.pending, sc.cur);
    st, ps := Step(sc.out + d.out, d.pending, d.cur), CopyPieces(sc.out) + dps;
    RenderAllAppend(CopyPieces(sc.out), dps, al, tm);
    ConcatAssoc(CopyPieces(sc.out), dps, FormatFrom(fmt, st.pending, st.cur));
  }

  /** `format(fmt, tp, fs, tz)`, given the lookup of tp in tz. */
  method Format(fmt: seq<char>, al: Lookup, tm: Strftime) returns (result: seq<char>)
    ensures result == FormatSpec(fmt, al, tm)
  {
    result := [];
    ghost var done: seq<Piece> := [];
    var pending: nat, cur: nat := 0, 0;
    while cur != |fmt|
      invariant pending <= cur <= |fmt|
      invariant result == RenderAll(done, al, tm)
      invariant done + FormatFrom(fmt, pending, cur) == Pieces(fmt)
      decreases |fmt| - cur
    {
      var st, ps := Iterate(fmt, al, tm, pending, cur);
      RenderAllAppend(done, ps, al, tm);
      ConcatAssoc(done, ps, FormatFrom(fmt, st.pending, st.cur));
      result := result + st.out;
      done := done + ps;
      pending, cur := st.pending, st.cur;
    }
    // Formats any remaining data.
    var rest := FormatTM(fmt, al, tm, pending, |fmt|);
    RenderAllAppend(done, FlushPieces(fmt, pending, |fmt|), al, tm);
    result := result + rest;
  }
}
