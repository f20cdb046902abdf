/** What `format` promises about its output, stated on the pieces of
    `FormatScan` and on their text. Each law describes the next stretch of the
    format string from a state (pending, cur) of the outer loop: ordinary
    text is copied, "%%" writes one '%', a handled specifier flushes the
    pending text to strftime and writes its field, and any other specifier
    joins the pending text. */
module FormatLaws {
  import opened Base
  import opened DigitWriters
  import opened NumParse
  import opened CodecLaws
  import opened FormatScan
  import opened Formatter

  /** A format string that is the stretch (pending, cur) of the loop with a
      '%' at cur that does not start a "%%". */
  predicate LoneSpecifier(fmt: seq<char>, p: nat, c: nat)
  {
    p <= c && c + 1 < |fmt| && fmt[c] == '%' && fmt[c + 1] != '%'
  }

  /** A '%' that is not escaped hands the character after it to the
      specifier switch, whatever is pending. */
  lemma TurnAtPercent(fmt: seq<char>, p: nat, c: nat)
    requires LoneSpecifier(fmt, p, c)
    ensures FormatFrom(fmt, p, c) == FormatDispatch(fmt, p, c + 1)
  {
    assert LiteralEnd(fmt, c) == c;
    assert PercentEnd(fmt, c + 1) == c + 1;
    assert PercentEnd(fmt, c) == c + 1;
    assert ScanSpec(fmt, p, c) == Scan([], p, c, c + 1);
    assert FormatFrom(fmt, p, c) == FormatTurn(fmt, p, c);
    assert FormatTurn(fmt, p, c) == FormatScanned(fmt, p, c);
    EmptyPrefix(FormatDispatch(fmt, p, c + 1));
  }

  /** %Y %m %d %e %H %M %S %z %Z %s: the pending text goes to strftime, then
      the field is written and nothing is left pending. */
  lemma SimpleSpecifier(fmt: seq<char>, p: nat, c: nat)
    requires LoneSpecifier(fmt, p, c) && IsSimple(fmt[c + 1])
    ensures FormatFrom(fmt, p, c)
            == FlushPieces(fmt, p, c) + [Field(SimpleField(fmt[c + 1]))] + FormatFrom(fmt, c + 2, c + 2)
  {
    TurnAtPercent(fmt, p, c);
  }

  /** %:z, %::z and %:::z: n colons and a 'z' select the offset mode. */
  lemma ColonSpecifier(fmt: seq<char>, p: nat, c: nat, n: nat)
    requires LoneSpecifier(fmt, p, c) && 1 <= n <= 3 && c + n + 1 < |fmt|
    requires forall i :: c + 1 <= i <= c + n ==> fmt[i] == ':'
    requires fmt[c + n + 1] == 'z'
    ensures FormatFrom(fmt, p, c)
            == FlushPieces(fmt, p, c) + [Field(Offset(ColonMode(n)))] + FormatFrom(fmt, c + n + 2, c + n + 2)
    ensures ColonMode(n) == (if n == 1 then ":" else if n == 2 then ":*" else ":*:")
  {
    assert ColonCount(fmt, c + 1) == n;
    TurnAtPercent(fmt, p, c);
  }

  /** "%E" followed by more of the format goes on to the extensions. */
  lemma ExtensionTurn(fmt: seq<char>, p: nat, c: nat)
    requires LoneSpecifier(fmt, p, c) && fmt[c + 1] == 'E' && c + 2 < |fmt|
    ensures FormatFrom(fmt, p, c) == FormatExtension(fmt, p, c + 2)
  {
    TurnAtPercent(fmt, p, c);
  }

  /** %Ez is the offset with a colon. */
  lemma OffsetExtension(fmt: seq<char>, p: nat, c: nat)
    requires LoneSpecifier(fmt, p, c) && c + 2 < |fmt| && fmt[c + 1] == 'E' && fmt[c + 2] == 'z'
    ensures FormatFrom(fmt, p, c)
            == FlushPieces(fmt, p, c) + [Field(Offset(":"))] + FormatFrom(fmt, c + 3, c + 3)
  {
    ExtensionTurn(fmt, p, c);
  }

  /** %E*z is the offset with a colon and seconds. */
  lemma StarOffsetExtension(fmt: seq<char>, p: nat, c: nat)
    requires LoneSpecifier(fmt, p, c) && c + 3 < |fmt| && fmt[c + 1] == 'E' && fmt[c + 2] == '*' && fmt[c + 3] == 'z'
    ensures FormatFrom(fmt, p, c)
            == FlushPieces(fmt, p, c) + [Field(Offset(":*"))] + FormatFrom(fmt, c + 4, c + 4)
  {
    ExtensionTurn(fmt, p, c);
    assert FormatExtension(fmt, p, c + 2) == FormatStar(fmt, p, c + 2);
  }

  /** %E*S and %E*f are the seconds with their whole fraction. */
  lemma StarFractionExtension(fmt: seq<char>, p: nat, c: nat)
    requires LoneSpecifier(fmt, p, c) && c + 3 < |fmt| && fmt[c + 1] == 'E' && fmt[c + 2] == '*'
    requires fmt[c + 3] == 'S' || fmt[c + 3] == 'f'
    ensures FormatFrom(fmt, p, c)
            == FlushPieces(fmt, p, c) + [Field(StarFrac(fmt[c + 3]))] + FormatFrom(fmt, c + 4, c + 4)
  {
    ExtensionTurn(fmt, p, c);
    assert FormatExtension(fmt, p, c + 2) == FormatStar(fmt, p, c + 2);
  }

  /** %E4Y is the year in at least four characters. */
  lemma Year4Extension(fmt: seq<char>, p: nat, c: nat)
    requires LoneSpecifier(fmt, p, c) && c + 3 < |fmt| && fmt[c + 1] == 'E' && fmt[c + 2] == '4' && fmt[c + 3] == 'Y'
    ensures FormatFrom(fmt, p, c)
            == FlushPieces(fmt, p, c) + [Field(Year4)] + FormatFrom(fmt, c + 4, c + 4)
  {
    ExtensionTurn(fmt, p, c);
  }

  /** %E#S and %E#f: the digits ds between "%E" and the 'S' or 'f' give the
      precision, when they spell at most 1024. */
  lemma DigitsFractionExtension(fmt: seq<char>, p: nat, c: nat, np: nat)
    requires LoneSpecifier(fmt, p, c) && fmt[c + 1] == 'E' && c + 2 < np < |fmt|
    requires AllDigits(fmt[c + 2..np]) && DecValue(fmt[c + 2..np]) <= 1024
    requires fmt[np] == 'S' || fmt[np] == 'f'
    ensures FormatFrom(fmt, p, c)
            == FlushPieces(fmt, p, c) + [Field(DigitsFrac(DecValue(fmt[c + 2..np]), fmt[np]))]
               + FormatFrom(fmt, np + 1, np + 1)
  {
    ExtensionTurn(fmt, p, c);
    var ds := fmt[c + 2..np];
    WidthOfDigits(fmt, c + 2, np);
    assert fmt[c + 2] == ds[0];
    if np > c + 3 {
      assert fmt[c + 3] == ds[1];
    }
    assert FormatExtension(fmt, p, c + 2) == FormatDigitsAt(fmt, p, c + 2);
    assert FormatDigitsAt(fmt, p, c + 2) == FormatDigits(fmt, p, c + 2, Some((DecValue(ds), np - (c + 2))));
  }

  /** Reading the precision of %E#S: `ParseInt` takes the whole digit run. */
  lemma WidthOfDigits(fmt: seq<char>, c: nat, np: nat)
    requires c < np < |fmt| && AllDigits(fmt[c..np]) && DecValue(fmt[c..np]) <= 1024 && !IsDigit(fmt[np])
    ensures WidthDigits(fmt, c) == Some((DecValue(fmt[c..np]), np - c))
  {
    var ds, rest := fmt[c..np], fmt[np..];
    assert fmt[c..] == SignText(false) + ds + rest;
    DigitSpanOfDigits(ds, rest);
    ParseSignedDigits(fmt[c..], 0, 0, 1024, Int32, false, ds, rest);
  }

  /** The digits of "%E#" that no 'S' or 'f' follows are left where they
      are: the '%' and the 'E' stay pending, and the scan moves on to the
      digits as ordinary text. */
  lemma DigitsWithoutFraction(fmt: seq<char>, p: nat, c: nat)
    requires LoneSpecifier(fmt, p, c) && fmt[c + 1] == 'E' && c + 2 < |fmt| && IsDigit(fmt[c + 2])
    requires !(fmt[c + 2] == '4' && c + 3 < |fmt| && fmt[c + 3] == 'Y')
    requires var r := WidthDigits(fmt, c + 2);
             r.None? || r.value.1 == |fmt| - (c + 2) || (fmt[c + 2 + r.value.1] != 'S' && fmt[c + 2 + r.value.1] != 'f')
    ensures FormatFrom(fmt, p, c) == FormatFrom(fmt, p, c + 2)
  {
    ExtensionTurn(fmt, p, c);
    assert FormatExtension(fmt, p, c + 2) == FormatDigitsAt(fmt, p, c + 2);
    assert FormatDigitsAt(fmt, p, c + 2) == FormatDigits(fmt, p, c + 2, WidthDigits(fmt, c + 2));
  }

  /** A specifier `format` does not handle joins the pending text, and the
      scan goes on just after the '%'. */
  lemma UnhandledSpecifier(fmt: seq<char>, p: nat, c: nat)
    requires LoneSpecifier(fmt, p, c)
    requires var ch := fmt[c + 1];
             !IsSimple(ch) && ch != 'E' && (ch == ':' ==> ColonCount(fmt, c + 1) == 0)
    ensures FormatFrom(fmt, p, c) == FormatFrom(fmt, p, c + 1)
  {
    TurnAtPercent(fmt, p, c);
  }

  /** "%E" followed by nothing `format` handles joins the pending text; the
      scan goes on after the 'E'. */
  lemma UnhandledExtension(fmt: seq<char>, p: nat, c: nat)
    requires LoneSpecifier(fmt, p, c) && fmt[c + 1] == 'E'
    requires c + 2 < |fmt| ==> var ch := fmt[c + 2];
             ch != 'z' && ch != '*' && !IsDigit(ch) && !(ch == '4' && c + 3 < |fmt| && fmt[c + 3] == 'Y')
    ensures FormatFrom(fmt, p, c) == FormatFrom(fmt, p, c + 2)
  {
    TurnAtPercent(fmt, p, c);
  }

  /** While text is pending, ordinary text joins it. */
  lemma PendingLiteral(fmt: seq<char>, p: nat, c: nat)
    requires p < c < |fmt| && fmt[c] != '%'
    ensures FormatFrom(fmt, p, c) == FormatFrom(fmt, p, LiteralEnd(fmt, c))
  {
    var j := LiteralEnd(fmt, c);
    assert FormatFrom(fmt, p, c) == FormatTurn(fmt, p, c);
    assert FormatTurn(fmt, p, c) == FormatScanned(fmt, p, c);
    var sc := ScanSpec(fmt, p, c);
    assert sc.out == [] && sc.pending == p && sc.cur == PercentEnd(fmt, j) && sc.percent == j;
    if j < |fmt| {
      assert FormatFrom(fmt, p, j) == FormatTurn(fmt, p, j);
      assert FormatTurn(fmt, p, j) == FormatScanned(fmt, p, j);
      assert LiteralEnd(fmt, j) == j;
      assert ScanSpec(fmt, p, j) == sc;
    }
    if sc.cur == |fmt| || (sc.cur - sc.percent) % 2 == 0 {
      EmptyPrefix(FormatFrom(fmt, sc.pending, sc.cur));
    } else {
      EmptyPrefix(FormatDispatch(fmt, sc.pending, sc.cur));
    }
  }

  /** While text is pending, an escaped "%%" joins it too: strftime is left
      to write it. */
  lemma PendingEscape(fmt: seq<char>, p: nat, c: nat)
    requires p < c && c + 1 < |fmt| && fmt[c] == '%' && fmt[c + 1] == '%'
    ensures FormatFrom(fmt, p, c) == FormatFrom(fmt, p, c + 2)
  {
    PendingScan(fmt, p, c);
    PercentPair(fmt, c);
    if c + 2 < |fmt| && fmt[c + 2] == '%' {
      PendingScan(fmt, p, c + 2);
    }
  }

  /** With text pending, a turn at a run of '%' copies nothing out: what
      follows depends only on where the run ends and whether its length is
      odd. */
  lemma PendingScan(fmt: seq<char>, p: nat, c: nat)
    requires p < c < |fmt| && fmt[c] == '%'
    ensures var k := PercentEnd(fmt, c);
            FormatFrom(fmt, p, c)
            == if k == |fmt| || (k - c) % 2 == 0 then FormatFrom(fmt, p, k) else FormatDispatch(fmt, p, k)
  {
    assert FormatFrom(fmt, p, c) == FormatTurn(fmt, p, c);
    assert FormatTurn(fmt, p, c) == FormatScanned(fmt, p, c);
    assert LiteralEnd(fmt, c) == c;
    var k := PercentEnd(fmt, c);
    assert ScanSpec(fmt, p, c) == Scan([], p, c, k);
    if k == |fmt| || (k - c) % 2 == 0 {
      EmptyPrefix(FormatFrom(fmt, p, k));
    } else {
      EmptyPrefix(FormatDispatch(fmt, p, k));
    }
  }

  /** An escaped pair does not end a run of '%'. */
  lemma PercentPair(fmt: seq<char>, c: nat)
    requires c + 1 < |fmt| && fmt[c] == '%' && fmt[c + 1] == '%'
    ensures PercentEnd(fmt, c) == PercentEnd(fmt, c + 2)
  {
    assert PercentEnd(fmt, c) == PercentEnd(fmt, c + 1);
  }

  /** What follows the scan of a turn: the next turn, or the specifier
      switch when the scan stopped at an unescaped '%'. */
  function AfterScan(fmt: seq<char>, sc: Scan): seq<Piece>
    requires sc.pending <= sc.cur <= |fmt|
    requires sc.cur != |fmt| && (sc.cur - sc.percent) % 2 != 0 ==> sc.pending < sc.cur
  {
    if sc.cur == |fmt| || (sc.cur - sc.percent) % 2 == 0 then FormatFrom(fmt, sc.pending, sc.cur)
    else FormatDispatch(fmt, sc.pending, sc.cur)
  }

  /** A turn writes the text its scan copies out, then what follows. */
  lemma TurnText(fmt: seq<char>, p: nat, c: nat, al: Lookup, tm: Strftime)
    requires p <= c < |fmt|
    ensures var sc := ScanSpec(fmt, p, c);
            RenderAll(FormatFrom(fmt, p, c), al, tm) == sc.out + RenderAll(AfterScan(fmt, sc), al, tm)
  {
    var sc := ScanSpec(fmt, p, c);
    assert FormatFrom(fmt, p, c) == FormatTurn(fmt, p, c);
    assert FormatTurn(fmt, p, c) == FormatScanned(fmt, p, c);
    assert FormatScanned(fmt, p, c) == CopyPieces(sc.out) + AfterScan(fmt, sc);
    RenderAllAppend(CopyPieces(sc.out), AfterScan(fmt, sc), al, tm);
    RenderCopy(sc.out, al, tm);
  }

  /** With nothing pending, a run of ordinary text is copied to the output
      unchanged. */
  lemma LiteralRun(fmt: seq<char>, c: nat, al: Lookup, tm: Strftime)
    requires c < |fmt| && fmt[c] != '%'
    ensures var j := LiteralEnd(fmt, c);
            RenderAll(FormatFrom(fmt, c, c), al, tm) == fmt[c..j] + RenderAll(FormatFrom(fmt, j, j), al, tm)
  {
    var j := LiteralEnd(fmt, c);
    var (out2, p3) := EscapeScan(fmt, j, j, j);
    var k := PercentEnd(fmt, j);
    var sc := ScanSpec(fmt, c, c);
    assert sc == Scan(fmt[c..j] + out2, p3, j, k);
    TurnText(fmt, c, c, al, tm);
    if j == |fmt| {
      assert out2 == [] && p3 == j && k == j;
      assert AfterScan(fmt, sc) == FormatFrom(fmt, j, j);
    } else {
      assert LiteralEnd(fmt, j) == j;
      var sj := ScanSpec(fmt, j, j);
      assert sj == Scan([] + out2, p3, j, k);
      TurnText(fmt, j, j, al, tm);
      assert AfterScan(fmt, sj) == AfterScan(fmt, sc);
      EmptyPrefix(out2);
    }
  }

  lemma AllPercent(s: seq<char>, t: seq<char>)
    requires |s| == |t| + 1
    requires forall i :: 0 <= i < |s| ==> s[i] == '%'
    requires forall i :: 0 <= i < |t| ==> t[i] == '%'
    ensures s == "%" + t
  {
  }

  /** With nothing pending, "%%" writes one '%'. */
  lemma EscapedPercent(fmt: seq<char>, c: nat, al: Lookup, tm: Strftime)
    requires c + 1 < |fmt| && fmt[c] == '%' && fmt[c + 1] == '%'
    ensures RenderAll(FormatFrom(fmt, c, c), al, tm) == "%" + RenderAll(FormatFrom(fmt, c + 2, c + 2), al, tm)
  {
    var k := PercentEnd(fmt, c);
    var sc := ScanSpec(fmt, c, c);
    TurnText(fmt, c, c, al, tm);
    if k == c + 2 {
      PairScan(fmt, c);
    } else {
      var sd := ScanSpec(fmt, c + 2, c + 2);
      ShiftedScan(fmt, c);
      TurnText(fmt, c + 2, c + 2, al, tm);
      assert AfterScan(fmt, sd) == AfterScan(fmt, sc);
    }
  }

  /** A run of exactly two '%' is copied out as one, and the turn ends. */
  lemma PairScan(fmt: seq<char>, c: nat)
    requires c + 1 < |fmt| && fmt[c] == '%' && fmt[c + 1] == '%' && PercentEnd(fmt, c) == c + 2
    ensures var sc := ScanSpec(fmt, c, c);
            sc.out == "%" && AfterScan(fmt, sc) == FormatFrom(fmt, c + 2, c + 2)
  {
    assert LiteralEnd(fmt, c) == c;
    assert EscapeScan(fmt, c, c, c) == (fmt[c..c + 1], c + 2);
    assert fmt[c..c + 1] == "%";
  }

  /** In a longer run of '%', starting two later scans to the same place and
      copies out one '%' less. */
  lemma ShiftedScan(fmt: seq<char>, c: nat)
    requires c + 1 < |fmt| && fmt[c] == '%' && fmt[c + 1] == '%' && PercentEnd(fmt, c) > c + 2
    ensures var sc, sd := ScanSpec(fmt, c, c), ScanSpec(fmt, c + 2, c + 2);
            && sc.out == "%" + sd.out && sc.pending == sd.pending && sc.cur == sd.cur
            && sc.percent + 2 == sd.percent
  {
    var k := PercentEnd(fmt, c);
    assert LiteralEnd(fmt, c) == c;
    assert fmt[c + 2] == '%';
    assert LiteralEnd(fmt, c + 2) == c + 2;
    assert PercentEnd(fmt, c + 1) == k;
    assert PercentEnd(fmt, c + 2) == k;
    var e := (k - c) / 2;
    assert (k - (c + 2)) / 2 == e - 1;
    EscapeShift(fmt, c, k, e);
  }

  lemma EscapeShift(fmt: seq<char>, c: nat, k: nat, e: nat)
    requires c + 2 < k <= |fmt| && k == PercentEnd(fmt, c) == PercentEnd(fmt, c + 2)
    requires e == (k - c) / 2 && (k - (c + 2)) / 2 == e - 1
    ensures EscapeScan(fmt, c, c, c).0 == "%" + EscapeScan(fmt, c + 2, c + 2, c + 2).0
    ensures EscapeScan(fmt, c, c, c).1 == EscapeScan(fmt, c + 2, c + 2, c + 2).1
  {
    var p2 := c + e * 2;
    assert c + 2 + (e - 1) * 2 == p2;
    AllPercent(fmt[c..c + e], fmt[c + 2..c + 2 + (e - 1)]);
  }

  /** The text of a handled specifier met with nothing pending. */
  lemma HandledText(fmt: seq<char>, c: nat, f: Field, next: nat, al: Lookup, tm: Strftime)
    requires c <= next <= |fmt|
    requires FormatFrom(fmt, c, c) == FlushPieces(fmt, c, c) + [Field(f)] + FormatFrom(fmt, next, next)
    ensures RenderAll(FormatFrom(fmt, c, c), al, tm) == FieldText(f, al) + RenderAll(FormatFrom(fmt, next, next), al, tm)
  {
    EmptyPrefix([Field(f)]);
    RenderAllAppend([Field(f)], FormatFrom(fmt, next, next), al, tm);
    RenderOne(Field(f), al, tm);
  }

  /** A format string without '%' is copied to the output as it is. */
  lemma NoSpecifiers(fmt: seq<char>, al: Lookup, tm: Strftime)
    requires forall i :: 0 <= i < |fmt| ==> fmt[i] != '%'
    ensures FormatSpec(fmt, al, tm) == fmt
  {
    if fmt != [] {
      LiteralRun(fmt, 0, al, tm);
      assert LiteralEnd(fmt, 0) == |fmt|;
      assert fmt[0..|fmt|] == fmt;
    }
  }

  /** "%Y-%m-%d" is written by `format` alone. */
  lemma DateExample(fmt: seq<char>, al: Lookup, tm: Strftime)
    requires fmt == "%Y-%m-%d"
    ensures FormatSpec(fmt, al, tm)
            == Format64Text(al.year, 0) + "-" + TwoDigits(al.month) + "-" + TwoDigits(al.day)
  {
    SimpleSpecifier(fmt, 0, 0);
    HandledText(fmt, 0, Year, 2, al, tm);
    assert LiteralEnd(fmt, 3) == 3;
    LiteralRun(fmt, 2, al, tm);
    assert fmt[2..3] == "-";
    MonthDayExample(fmt, al, tm);
  }

  lemma MonthDayExample(fmt: seq<char>, al: Lookup, tm: Strftime)
    requires fmt == "%Y-%m-%d"
    ensures RenderAll(FormatFrom(fmt, 3, 3), al, tm) == TwoDigits(al.month) + "-" + TwoDigits(al.day)
  {
    SimpleSpecifier(fmt, 3, 3);
    HandledText(fmt, 3, Month, 5, al, tm);
    assert LiteralEnd(fmt, 6) == 6;
    LiteralRun(fmt, 5, al, tm);
    assert fmt[5..6] == "-";
    SimpleSpecifier(fmt, 6, 6);
    HandledText(fmt, 6, Day, 8, al, tm);
    assert FormatFrom(fmt, 8, 8) == [];
  }

  /** "%a %Y": the weekday goes to strftime together with the text after it,
      up to the handled %Y. */
  lemma PendingExample(fmt: seq<char>, al: Lookup, tm: Strftime)
    requires fmt == "%a %Y"
    ensures FormatSpec(fmt, al, tm) == tm("%a ") + Format64Text(al.year, 0)
  {
    UnhandledSpecifier(fmt, 0, 0);
    PendingLiteral(fmt, 0, 1);
    assert LiteralEnd(fmt, 3) == 3;
    assert LiteralEnd(fmt, 1) == 3;
    assert fmt[0..3] == "%a ";
    SimpleSpecifier(fmt, 0, 3);
    var ps := [Strftime("%a "), Field(Year)];
    assert FormatFrom(fmt, 0, 0) == ps;
    RenderFirst(ps, al, tm);
    RenderOne(Field(Year), al, tm);
  }

  /** "100%%" writes "100%". */
  lemma EscapeExample(fmt: seq<char>, al: Lookup, tm: Strftime)
    requires fmt == "100%%"
    ensures FormatSpec(fmt, al, tm) == "100%"
  {
    LiteralRun(fmt, 0, al, tm);
    assert LiteralEnd(fmt, 3) == 3;
    assert LiteralEnd(fmt, 0) == 3;
    assert fmt[0..3] == "100";
    EscapedPercent(fmt, 3, al, tm);
  }

  /** With nothing pending, a lone '%' at the end of the format is copied
      out by `format` itself. */
  lemma TrailingPercentCopied(fmt: seq<char>, al: Lookup, tm: Strftime)
    requires fmt == "abc%"
    ensures FormatSpec(fmt, al, tm) == "abc%"
  {
    CopiedScan(fmt);
    assert FormatFrom(fmt, 0, 0) == FormatTurn(fmt, 0, 0) == FormatScanned(fmt, 0, 0);
    assert FormatFrom(fmt, 4, 4) == [];
    assert FormatScanned(fmt, 0, 0) == CopyPieces("abc%") + FormatFrom(fmt, 4, 4);
    RenderOne(Copy("abc%"), al, tm);
  }

  /** The one scan of "abc%": the literal and the trailing '%' are both
      copied out. */
  lemma CopiedScan(fmt: seq<char>)
    requires fmt == "abc%"
    ensures ScanSpec(fmt, 0, 0) == Scan("abc%", 4, 3, 4)
  {
    assert LiteralEnd(fmt, 3) == 3;
    assert LiteralEnd(fmt, 1) == LiteralEnd(fmt, 2) == 3;
    assert LiteralEnd(fmt, 0) == 3;
    assert PercentEnd(fmt, 3) == 4;
    assert fmt[0..3] == "abc" && fmt[3..3] + [fmt[3]] == "%";
    assert LiteralScan(fmt, 0, 0) == ("abc", 3, 3);
    assert EscapeScan(fmt, 3, 3, 3) == ("%", 4);
  }

  /** With text pending, a lone '%' at the end goes to strftime together
      with that text. */
  lemma TrailingPercentPending(fmt: seq<char>, al: Lookup, tm: Strftime)
    requires fmt == "%a%"
    ensures FormatSpec(fmt, al, tm) == tm("%a%")
  {
    PendingUpToPercent(fmt);
    PendingPercentFlushed(fmt);
    RenderOne(Strftime("%a%"), al, tm);
  }

  /** "%a" of "%a%" stays pending, and so does nothing else up to the '%'. */
  lemma PendingUpToPercent(fmt: seq<char>)
    requires fmt == "%a%"
    ensures FormatFrom(fmt, 0, 0) == FormatFrom(fmt, 0, 2)
  {
    UnhandledSpecifier(fmt, 0, 0);
    assert LiteralEnd(fmt, 2) == 2;
    assert LiteralEnd(fmt, 1) == 2;
    PendingLiteral(fmt, 0, 1);
  }

  /** The trailing '%' of "%a%" ends the loop with all of it pending. */
  lemma PendingPercentFlushed(fmt: seq<char>)
    requires fmt == "%a%"
    ensures FormatFrom(fmt, 0, 2) == [Strftime("%a%")]
  {
    assert PercentEnd(fmt, 3) == 3;
    assert PercentEnd(fmt, 2) == 3;
    PendingScan(fmt, 0, 2);
    assert fmt[0..3] == "%a%";
  }
}
