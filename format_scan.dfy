/** What `format` does with its format string, apart from the time it
    prints. `format`'s scan decides, from the format string alone, which
    pieces of output it appends in turn: text copied from the format,
    stretches handed to strftime, and the fields it writes itself. This
    module computes that list of pieces; `Formatter` renders it for one
    time. Cursors follow the source: text before `pending` has been dealt
    with, text in [pending, cur) waits for strftime because it holds a
    specifier `format` does not handle, and text from `cur` on is
    unexamined. */
module FormatScan {
  import opened Base
  import opened NumParse

  /** A field `format` writes itself. `Offset` carries the `FormatOffset`
      mode string. */
  datatype Field =
    | Year          // %Y
    | Month         // %m
    | Day           // %d
    | DaySpace      // %e
    | Hour          // %H
    | Minute        // %M
    | Second        // %S
    | Offset(mode: seq<char>)   // %z, %:z, %::z, %:::z, %Ez, %E*z
    | Abbr          // %Z
    | Unix          // %s
    | PercentSign   // a '%' met by the specifier switch
    | NoText        // the terminator found by `strchr`
    | Year4         // %E4Y
    | StarFrac(which: char)              // %E*S, %E*f
    | DigitsFrac(n: int, which: char)    // %E#S, %E#f

  /** One append to the result. */
  datatype Piece =
    | Copy(text: seq<char>)       // copied from the format string
    | Strftime(spec: seq<char>)   // `FormatTM` of this stretch of the format
    | Field(field: Field)

  /** The specifiers handled right after a '%'. `strchr` also finds the
      terminator of its set, so '\0' is one of them. */
  predicate IsSimple(ch: char) { ch in "YmdeHMSzZs%" || ch == '\0' }

  function SimpleField(ch: char): Field
    requires IsSimple(ch)
  {
    match ch
    case 'Y' => Year
    case 'm' => Month
    case 'd' => Day
    case 'e' => DaySpace
    case 'H' => Hour
    case 'M' => Minute
    case 'S' => Second
    case 'z' => Offset("")
    case 'Z' => Abbr
    case 's' => Unix
    case '%' => PercentSign
    case _ => NoText
  }

  /** Where the run of ordinary characters starting at i ends. */
  function LiteralEnd(fmt: seq<char>, i: nat): (j: nat)
    requires i <= |fmt|
    ensures i <= j <= |fmt| && (j < |fmt| ==> fmt[j] == '%')
    ensures forall k :: i <= k < j ==> fmt[k] != '%'
    decreases |fmt| - i
  {
    if i == |fmt| || fmt[i] == '%' then i else LiteralEnd(fmt, i + 1)
  }

  /** Where the run of '%' starting at i ends. */
  function PercentEnd(fmt: seq<char>, i: nat): (j: nat)
    requires i <= |fmt|
    ensures i <= j <= |fmt| && (j < |fmt| ==> fmt[j] != '%')
    ensures forall k :: i <= k < j ==> fmt[k] == '%'
    decreases |fmt| - i
  {
    if i == |fmt| || fmt[i] != '%' then i else PercentEnd(fmt, i + 1)
  }

  /** `FormatTM(&result, char_range(p, e), tm)` unless the stretch is empty. */
  function FlushPieces(fmt: seq<char>, p: nat, e: nat): seq<Piece>
    requires p <= e <= |fmt|
  {
    if e != p then [Strftime(fmt[p..e])] else []
  }

  function CopyPieces(text: seq<char>): seq<Piece>
  {
    if text != [] then [Copy(text)] else []
  }

  /** How many colons precede a 'z' at cur (1 to 3), or 0. */
  function ColonCount(fmt: seq<char>, cur: nat): (n: nat)
    requires cur < |fmt| && fmt[cur] == ':'
    ensures n <= 3 && cur + n < |fmt|
  {
    if cur + 1 < |fmt| && fmt[cur + 1] == 'z' then 1
    else if cur + 1 < |fmt| && fmt[cur + 1] == ':' && cur + 2 < |fmt| && fmt[cur + 2] == 'z' then 2
    else if cur + 2 < |fmt| && fmt[cur + 1] == ':' && fmt[cur + 2] == ':' && cur + 3 < |fmt| && fmt[cur + 3] == 'z' then 3
    else 0
  }

  /** The `FormatOffset` modes of %:z, %::z and %:::z. */
  function ColonMode(n: nat): seq<char>
  {
    if n == 1 then ":" else if n == 2 then ":*" else ":*:"
  }

  /** Where a turn of the outer loop stands once it has copied out ordinary
      text and escaped percent signs: `percent` is where the run of '%'
      began and `cur` where it ended. */
  datatype Scan = Scan(out: seq<char>, pending: nat, percent: nat, cur: nat)

  /** Copy out the ordinary text from cur on when nothing is pending. Gives
      the output, the new pending position and where the new pending text
      starts. */
  function LiteralScan(fmt: seq<char>, pending: nat, cur: nat): (r: (seq<char>, nat, nat))
    requires pending <= cur <= |fmt|
    ensures r.1 <= r.2 <= LiteralEnd(fmt, cur) && (r.1 == r.2 ==> r.2 == LiteralEnd(fmt, cur))
  {
    var j := LiteralEnd(fmt, cur);
    if j != cur && pending == cur then (fmt[pending..j], j, j) else ([], pending, cur)
  }

  /** One '%' for each escaped pair in the run of '%' at j, and a lone '%' at
      the very end, when the pending text starts there. */
  function EscapeScan(fmt: seq<char>, pending: nat, start: nat, j: nat): (r: (seq<char>, nat))
    requires pending <= start <= j <= |fmt| && (pending == start ==> start == j)
    ensures r.1 <= PercentEnd(fmt, j) && pending <= r.1
    ensures var k := PercentEnd(fmt, j); k != |fmt| && (k - j) % 2 != 0 ==> r.1 < k
  {
    var k := PercentEnd(fmt, j);
    if k != start && pending == start then
      var escaped := (k - pending) / 2;
      var p2 := pending + escaped * 2;
      if p2 != k && k == |fmt| then (fmt[pending..pending + escaped] + [fmt[p2]], p2 + 1)
      else (fmt[pending..pending + escaped], p2)
    else ([], pending)
  }

  function ScanSpec(fmt: seq<char>, pending: nat, cur: nat): (sc: Scan)
    requires pending <= cur < |fmt|
    ensures sc.pending <= sc.cur <= |fmt| && cur <= sc.percent <= sc.cur && cur < sc.cur
    ensures sc.cur != |fmt| && (sc.cur - sc.percent) % 2 != 0 ==> sc.pending < sc.cur
  {
    var j := LiteralEnd(fmt, cur);
    var (out1, p1, start) := LiteralScan(fmt, pending, cur);
    var (out2, p3) := EscapeScan(fmt, p1, start, j);
    Scan(out1 + out2, p3, j, PercentEnd(fmt, j))
  }

  /** The pieces the scan appends from the state (pending, cur) on, the
      final `FormatTM` of the remaining pending text included. One turn of
      the outer loop is `FormatTurn`: the scan, then `FormatDispatch` of an
      unescaped '%', which hands "%E" on to `FormatExtension`. */
  function FormatFrom(fmt: seq<char>, pending: nat, cur: nat): seq<Piece>
    requires pending <= cur <= |fmt|
    decreases |fmt| - cur, 7
  {
    if cur == |fmt| then FlushPieces(fmt, pending, |fmt|) else FormatTurn(fmt, pending, cur)
  }

  /** One turn of the outer loop. The turn is its own step, ahead of
      `FormatScanned`, so that one unfolding of `FormatFrom` stops short of
      the scan. */
  function FormatTurn(fmt: seq<char>, pending: nat, cur: nat): seq<Piece>
    requires pending <= cur < |fmt|
    decreases |fmt| - cur, 6
  {
    FormatScanned(fmt, pending, cur)
  }

  /** A turn: the scan, then `FormatDispatch` of an unescaped '%'. */
  function FormatScanned(fmt: seq<char>, pending: nat, cur: nat): seq<Piece>
    requires pending <= cur < |fmt|
    decreases |fmt| - cur, 5
  {
    var sc := ScanSpec(fmt, pending, cur);
    if sc.cur == |fmt| || (sc.cur - sc.percent) % 2 == 0 then
      CopyPieces(sc.out) + FormatFrom(fmt, sc.pending, sc.cur)
    else CopyPieces(sc.out) + FormatDispatch(fmt, sc.pending, sc.cur)
  }

  /** After an unescaped '%' (cur is the position after it). A handled
      specifier flushes the pending text before it and is written out; any
      other leaves the pending text, itself included, for strftime. */
  function FormatDispatch(fmt: seq<char>, pending: nat, cur: nat): seq<Piece>
    requires pending < cur < |fmt|
    decreases |fmt| - cur + 1, 3
  {
    var ch := fmt[cur];
    if IsSimple(ch) then
      FlushPieces(fmt, pending, cur - 1) + [Field(SimpleField(ch))] + FormatFrom(fmt, cur + 1, cur + 1)
    else if ch == ':' && ColonCount(fmt, cur) > 0 then
      var next := cur + ColonCount(fmt, cur) + 1;
      FlushPieces(fmt, pending, cur - 1) + [Field(Offset(ColonMode(ColonCount(fmt, cur))))] + FormatFrom(fmt, next, next)
    else if ch != 'E' then FormatFrom(fmt, pending, cur)
    else if cur + 1 == |fmt| then FormatFrom(fmt, pending, cur + 1)
    else FormatExtension(fmt, pending, cur + 1)
  }

  /** After "%E" (c is the position after 'E'). */
  function FormatExtension(fmt: seq<char>, pending: nat, c: nat): seq<Piece>
    requires pending + 2 <= c < |fmt|
    decreases |fmt| - c + 2, 2
  {
    if fmt[c] == 'z' then
      FlushPieces(fmt, pending, c - 2) + [Field(Offset(":"))] + FormatFrom(fmt, c + 1, c + 1)
    else if fmt[c] == '*' then FormatStar(fmt, pending, c)
    else if fmt[c] == '4' && c + 1 < |fmt| && fmt[c + 1] == 'Y' then
      FlushPieces(fmt, pending, c - 2) + [Field(Year4)] + FormatFrom(fmt, c + 2, c + 2)
    else if IsDigit(fmt[c]) then FormatDigitsAt(fmt, pending, c)
    else FormatFrom(fmt, pending, c)
  }

  /** "%E*z", "%E*S" and "%E*f". */
  function FormatStar(fmt: seq<char>, pending: nat, c: nat): seq<Piece>
    requires pending + 2 <= c < |fmt| && fmt[c] == '*'
    decreases |fmt| - c + 2, 0
  {
    if c + 1 < |fmt| && fmt[c + 1] == 'z' then
      FlushPieces(fmt, pending, c - 2) + [Field(Offset(":*"))] + FormatFrom(fmt, c + 2, c + 2)
    else if c + 1 < |fmt| && (fmt[c + 1] == 'S' || fmt[c + 1] == 'f') then
      FlushPieces(fmt, pending, c - 2) + [Field(StarFrac(fmt[c + 1]))] + FormatFrom(fmt, c + 2, c + 2)
    else FormatFrom(fmt, pending, c)
  }

  /** "%E#S" and "%E#f": the precision is read from c on. */
  function FormatDigitsAt(fmt: seq<char>, pending: nat, c: nat): seq<Piece>
    requires pending + 2 <= c < |fmt|
    decreases |fmt| - c + 2, 1
  {
    FormatDigits(fmt, pending, c, WidthDigits(fmt, c))
  }

  /** "%E#S" and "%E#f", given r, the result of reading the digits from c
      on as `ParseInt` does with a limit of 1024. */
  function FormatDigits(fmt: seq<char>, pending: nat, c: nat, r: Option<(int, nat)>): seq<Piece>
    requires pending + 2 <= c < |fmt| && (r.Some? ==> 0 < r.value.1 <= |fmt| - c)
    decreases |fmt| - c + 2, 0
  {
    if r.None? || r.value.1 == |fmt| - c then FormatFrom(fmt, pending, c)
    else
      var np := c + r.value.1;
      if fmt[np] == 'S' || fmt[np] == 'f' then
        FlushPieces(fmt, pending, c - 2) + [Field(DigitsFrac(r.value.0, fmt[np]))] + FormatFrom(fmt, np + 1, np + 1)
      else FormatFrom(fmt, pending, c)
  }

  /** The precision of "%E#S" and "%E#f" and where it ends. */
  function WidthDigits(fmt: seq<char>, c: nat): (r: Option<(int, nat)>)
    requires c <= |fmt|
    ensures r.Some? ==> 0 < r.value.1 <= |fmt| - c && 0 <= r.value.0 <= 1024
  {
    var r := ParseIntSpec(fmt[c..], 0, 0, 1024, Int32);
    if r.Some? then ParseIntRange(fmt[c..], 0, 0, 1024, Int32); r else r
  }

  /** The pieces `format` appends for the whole format string. */
  function Pieces(fmt: seq<char>): seq<Piece>
  {
    FormatFrom(fmt, 0, 0)
  }

  method ScanLiteral(fmt: seq<char>, start: nat) returns (cur: nat)
    requires start <= |fmt|
    ensures cur == LiteralEnd(fmt, start)
  {
    cur := start;
    while cur != |fmt| && fmt[cur] != '%'
      invariant start <= cur <= |fmt| && LiteralEnd(fmt, cur) == LiteralEnd(fmt, start)
      decreases |fmt| - cur
    {
      cur := cur + 1;
    }
  }

  method SpanPercents(fmt: seq<char>, start: nat) returns (cur: nat)
    requires start <= |fmt|
    ensures cur == PercentEnd(fmt, start)
  {
    cur := start;
    while cur != |fmt| && fmt[cur] == '%'
      invariant start <= cur <= |fmt| && PercentEnd(fmt, cur) == PercentEnd(fmt, start)
      decreases |fmt| - cur
    {
      cur := cur + 1;
    }
  }

  method CopyLiteral(fmt: seq<char>, pending: nat, start: nat) returns (out: seq<char>, p: nat, s: nat, cur: nat)
    requires pending <= start <= |fmt|
    ensures (out, p, s) == LiteralScan(fmt, pending, start) && cur == LiteralEnd(fmt, start)
  {
    // Moves cur to the next percent sign.
    cur := ScanLiteral(fmt, start);
    out, p, s := [], pending, start;
    // If the new pending text is all ordinary, copy it out.
    if cur != start && pending == start {
      out := fmt[pending..cur];
      p, s := cur, cur;
    }
  }

  method CopyEscapes(fmt: seq<char>, pending: nat, start: nat, j: nat) returns (out: seq<char>, p: nat, cur: nat)
    requires pending <= start <= j <= |fmt| && (pending == start ==> start == j)
    ensures (out, p) == EscapeScan(fmt, pending, start, j) && cur == PercentEnd(fmt, j)
  {
    // Span the sequential percent signs.
    cur := SpanPercents(fmt, j);
    out, p := [], pending;
    // One percent for every matched pair, and a single trailing one.
    if cur != start && pending == start {
      var escaped := (cur - pending) / 2;
      out := fmt[pending..pending + escaped];
      p := pending + escaped * 2;
      if p != cur && cur == |fmt| {
        out := out + [fmt[p]];
        p := p + 1;
      }
    }
  }

  method ScanText(fmt: seq<char>, pending: nat, cur: nat) returns (sc: Scan)
    requires pending <= cur < |fmt|
    ensures sc == ScanSpec(fmt, pending, cur)
  {
    var out1, p1, start, percent := CopyLiteral(fmt, pending, cur);
    var out2, p3, k := CopyEscapes(fmt, p1, start, percent);
    return Scan(out1 + out2, p3, percent, k);
  }
}
