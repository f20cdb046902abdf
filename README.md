# cctz `format` and `parse`, modelled in Dafny

This project models `src/time_zone_format.cc` of cctz: the code that turns an absolute time into text with a strftime-like format (`format`), and text back into time with the same format (`parse`). It has three layers.

**Numeric codec.**
- `Format64` writes a signed 64-bit integer, `INT64_MIN` included.
- `Format02d` writes two digits.
- `FormatOffset` writes a UTC offset in the modes `""`, `":"`, `":*"` and `":*:"`.
- `ParseInt` reads a bounded-width signed integer. It accumulates negatively so that it cannot overflow.
- `ParseOffset` reads `Z` or `±hh[sep]mm[sep]ss`.
- `ParseZone` reads a run of characters that are not white space.
- `ParseSubSeconds` reads up to fifteen significant digits into femtoseconds.
- `kExp10` is the table of powers of ten.

The buffer writers and the scanning loops are methods. Each is proved equal to a function that states its result: `Format64Text`, `TwoDigits`, `FormatOffsetText`, `ParseIntSpec`, `ParseOffset`, `ZoneSpec` and `SubSecondsSpec`.

**The `format` loop.** `format` is a three-cursor loop: text before `pending` has been written, `[pending, cur)` waits for strftime, and text from `cur` on is unexamined.
- Module `FormatScan` computes from the format string alone the list of pieces the loop appends:
  - text copied from the format;
  - stretches handed to strftime;
  - fields written by `format` itself.
- Module `Formatter` renders those pieces for one lookup.
- Method `Formatter.Format` is the loop itself. Each of its turns is proved against that decomposition.

The fields written directly are:
- `%Y %m %d %e %H %M %S %z %Z %s %%`;
- `%:z`, `%::z` and `%:::z`;
- `%Ez`, `%E*z`, `%E*S`, `%E*f`, `%E4Y`, `%E#S` and `%E#f`.

A "%E" followed by digits but no `S` or `f` is left pending for strftime, as the code does (`src/time_zone_format.cc:479-481`).

**The `parse` loop and the checks after it.**
- Method `Parser.Parse` steps through the format and the input in lockstep:
  - runs of white space match runs of white space;
  - ordinary characters must match exactly;
  - each handled specifier reads its field with `ParseInt`, `ParseOffset`, `ParseZone` or `ParseSubSeconds`;
  - any other specifier goes to strptime.
- Function `Parser.Reconcile` then applies, in the code's order:
  1. the 12-hour adjustment;
  2. the trailing-data check;
  3. the precedence of `%s`;
  4. the leap-second rule;
  5. the default year;
  6. rejection of a day that the civil-second constructor would carry into the next month;
  7. the range check on subtracting the offset.
- The civil second is modelled by module `Civil`: proleptic Gregorian day counting, and a constructor that carries a day past its month's end into the next month.

**Round trips.** The laws connect the two directions:
- `ParseInt` reads back `Format64` and `Format02d`.
- `ParseOffset` reads back `FormatOffset` in every mode.
- `parse("%Y-%m-%d", format("%Y-%m-%d", t))` gives back the date of `t`.
- `%E*S` and `%E*f` read back the seconds and the femtoseconds that `format` wrote for them.
- `%E#S` and `%E#f` read the input as `%E*S` and `%E*f` do, for a precision of up to 1024; `%Ez`, `%E*z`, `%:z`, `%::z` and `%:::z` accept the same inputs.

**strftime and strptime are parameters.**
- The strftime calls (`FormatTM`) are a function parameter `tm` on stretches of the format.
- The strptime calls are a function parameter `sp`. It is assumed to consume no more than the remaining input and to keep the `tm` fields within strptime's ranges (`Parser.StrptimeOk`).
- The `%p` afternoon test on the text strptime consumed is a function parameter `pm`.

**Where the code rather than its description is followed.**
- `%:::z` writes a zero offset as `+00`, not as `+00:00`.
- `format` never reads past the end of the format. A lone `'%'` at its end never reaches the specifier switch, because the loop continues when `cur == end` (line 334). With nothing pending, lines 328-329 copy that '%' to the output directly (`FormatLaws.TrailingPercentCopied`: "abc%" gives "abc%"). With text pending, the '%' goes to strftime together with that text (`FormatLaws.TrailingPercentPending`: "%a%" gives strftime's "%a%"). Only a NUL character inside the format reaches `strchr("YmdeHMSzZs%", *cur)` as the terminator it finds; it writes nothing (`FormatScan.SimpleField`, field `NoText`).
- `parse` does read one past the end, at `*format.begin` after "%O" and "%E" (lines 790-796), and at `std::isdigit(*format.begin)` when "%E" ends the format (line 765). There `CharAt` gives `'\0'`, which matches none of the tested characters (`Parser.ExtensionFallback` and the 'O' branch of `Parser.SpecifierStep`); `Parser.PrecisionEnd` tests that its cursor is inside the format before it reads a digit.
- A minute or second field that `ParseInt` reads as one digit is not consumed, but its value is kept (`OffsetLaws.ShortMinutesKept`).

## Model

| member | source | states |
|---|---|---|
| `Base.CDiv` | src/time_zone_format.cc:120-128 | C's division truncates toward zero: the remainder a - q·b lies in [0, b) for a >= 0 and in (-b, 0] for a < 0 |
| `Base.CRem` | src/time_zone_format.cc:120-124 | C's remainder takes the sign of the dividend and satisfies a == (a / b) * b + a % b, with \|r\| < b |
| `Base.Pow10Add` | src/time_zone_format.cc:236-261 | 10^(a+b) = 10^a · 10^b, by induction |
| `Base.Exp10TableIsPow10` | src/time_zone_format.cc:236-261 | `kExp10` has kDigits10_64 + 1 = 19 entries and entry n is 10^n; 10^18 <= INT64_MAX < 10^19 |
| `Base.FemtosPerSecondIsPow10` | src/time_zone_format.cc:577 | femtoseconds per second is 10^15, the factor `kExp10[15 - exp]` completes |
| `DigitWriters.Digits` | src/time_zone_format.cc:133-136 | the do-while on v % 10 writes at least one digit, and no leading zero for v >= 10 |
| `DigitWriters.DecValueOfDigits` | src/time_zone_format.cc:133-136 | the digits written for n denote n |
| `DigitWriters.DigitsLength` | src/time_zone_format.cc:133-137 | n fits in k digits exactly when n < 10^k |
| `DigitWriters.Format64TextMeaning` | src/time_zone_format.cc:116-141 | Format64(v, width) is one '-' exactly when v < 0, then digits whose value is \|v\|, zero-padded so that the whole text, sign included, has length max(width, sign + digits): never truncated |
| `DigitWriters.Int64MinDivision` | src/time_zone_format.cc:120-128 | for INT64_MIN, -(v % 10) is 8 and v / 10 truncates to -922337203685477580, so the last digit is split off without negating the minimum |
| `DigitWriters.SplitMinimum` | src/time_zone_format.cc:120-129 | the INT64_MIN branch: the digits of \|INT64_MIN\| are those of -(v / 10) followed by the split-off last digit |
| `DigitWriters.PrependDigits` | src/time_zone_format.cc:131-134 | the do-while loop prepends exactly the decimal digits of its value |
| `DigitWriters.PrependZeros` | src/time_zone_format.cc:135 | `while (--width >= 0) *--ep = '0'` prepends max(width, 0) zeros |
| `DigitWriters.Format64` | src/time_zone_format.cc:116-141 | the buffer writer returns `Format64Text(v, width)` for every 64-bit v |
| `DigitWriters.TwoDigitsMeaning` | src/time_zone_format.cc:144-148 | `Format02d(v)` writes exactly two digits, those of v % 100, the same text as `Format64(v % 100, 2)` |
| `DigitWriters.Format02d` | src/time_zone_format.cc:144-148 | the writer returns the two digits of (v / 10) % 10 and v % 10 |
| `DigitWriters.SplitOffset` | src/time_zone_format.cc:155-164 | the repeated divisions give the seconds, minutes and hours of \|offset\| |
| `DigitWriters.FormatOffset` | src/time_zone_format.cc:151-181 | the writer returns `FormatOffsetText(offset, mode)`: sign, two hour digits, `[sep]mm` unless mode ":*:" has zero minutes and seconds, `[sep]ss` in ":*" and in ":*:" when seconds are non-zero |
| `OffsetLaws.OffsetSign` | src/time_zone_format.cc:172-174 | `FormatOffset` writes '-' exactly when the offset its text denotes is negative, so a sub-minute negative offset without seconds gets '+' |
| `OffsetLaws.NearZeroOffset` | src/time_zone_format.cc:170-175 | -10 s is "+00:00" with ":", "-00:00:10" with ":*"; -3600 s is "-01" with ":*:" |
| `NumParse.DigitSpan` | src/time_zone_format.cc:211-214 | the digit run ends at the first character that is not a digit |
| `NumParse.RunLength` | src/time_zone_format.cc:211-220 | the digits `ParseInt` reads: the digit run, cut at width when width > 0 |
| `NumParse.AccumulateDigit` | src/time_zone_format.cc:215-218 | one accumulation step fails exactly when the magnitude would pass -kmin, and otherwise gives value * 10 - d without passing kmin |
| `NumParse.AccumulateDigits` | src/time_zone_format.cc:211-221 | the digit loop succeeds exactly when the run's value is at most -kmin, and then holds minus the value of the run it consumed |
| `NumParse.ParseInt` | src/time_zone_format.cc:203-234 | the parser returns `ParseIntSpec`: the value and the characters consumed, or failure |
| `NumParse.ParseIntSuccess` | src/time_zone_format.cc:203-234 | a success reads at least one digit, consumes at most width characters when width > 0, lies in [min, max] and in T, is negative exactly when the text starts with '-' (so "-0" is rejected), and stops at a non-digit, at the end, or at the width |
| `NumParse.ParseIntRange` | src/time_zone_format.cc:228-233 | a parsed value lies in [min, max] and at least one character is consumed |
| `NumParse.ParseIntNeedsDigit` | src/time_zone_format.cc:207-210 | `ParseInt` fails when no digit follows the optional '-', and it fails on '-' with width 1 |
| `NumParse.WordSpan` | src/time_zone_format.cc:551-555 | the zone name ends at the first white space |
| `NumParse.ParseZone` | src/time_zone_format.cc:549-559 | the loop returns `ZoneSpec` |
| `CodecLaws.ZoneSpecMeaning` | src/time_zone_format.cc:549-559 | `ParseZone` fails exactly on empty input or a leading space, and otherwise returns the whole run of characters that are not white space |
| `NumParse.ParseSubSeconds` | src/time_zone_format.cc:561-580 | the loop returns `SubSecondsSpec` |
| `CodecLaws.SubSecondsMeaning` | src/time_zone_format.cc:561-580 | a success consumes the whole digit run; its value is in [0, 10^15) and its 15-digit text is the first (at most) fifteen digits, left-aligned with zeros: later digits are truncated, not rounded |
| `CodecLaws.SubSecondsNeedDigit` | src/time_zone_format.cc:574 | `ParseSubSeconds` fails exactly when no digit starts the input |
| `CodecLaws.ParseFormat64` | src/time_zone_format.cc:116-141 | `ParseInt` reads back `Format64(v, width)`: with width 0 when no digit follows, and with the width that `Format64` filled |
| `CodecLaws.ParseTwoDigits` | src/time_zone_format.cc:144-148 | `ParseInt(s, 2, 0, max)` reads back `Format02d(v)` for v <= max |
| `CodecLaws.FixedWidthText` | src/time_zone_format.cc:116-141 | a digit string is the `Format64` text of its own value at its own width |
| `CodecLaws.DecValueInjective` | src/time_zone_format.cc:211-219 | two digit strings of one length with one value are equal |
| `OffsetLaws.ParseOffsetSuccess` | src/time_zone_format.cc:513-547 | a success consumes at most the input; "Z" gives 0 and one character; otherwise the text starts with '+' or '-' and two hour digits up to 23, between 3 and 9 characters are consumed, the value is within a day and its sign is the text's |
| `OffsetLaws.ParseOffsetFields` | src/time_zone_format.cc:525-545 | the value is ±((h·60 + m)·60 + s) with h the two hour digits, m <= 59 and s <= 59 |
| `OffsetLaws.ParseOffsetParts` | src/time_zone_format.cc:513-547 | the two statements above together, with the number of characters consumed |
| `OffsetLaws.ParseOffsetLength` | src/time_zone_format.cc:525-543 | a signed offset consumes between 3 and 9 characters |
| `OffsetLaws.ParseHoursOnly` | src/time_zone_format.cc:525-531 | "±hh" followed by a delimiter is hours only |
| `OffsetLaws.ParseHoursMinutes` | src/time_zone_format.cc:525-537 | "±hh[sep]mm" followed by a delimiter is hours and minutes |
| `OffsetLaws.ParseFullOffset` | src/time_zone_format.cc:525-545 | "±hh[sep]mm[sep]ss" is read in full |
| `OffsetLaws.ShortMinutesKept` | src/time_zone_format.cc:533-546 | a one-digit minute field is not consumed, yet its value is added |
| `OffsetLaws.SeparatorConsumed` | src/time_zone_format.cc:530 | a separator after the hours is consumed even when no minutes follow |
| `OffsetLaws.ParseFormatOffset` | src/time_zone_format.cc:151-181 | `ParseOffset` reads back `FormatOffset(o, mode)` for every offset of less than a day and every mode parsed with the same separator, consuming the whole text: o when seconds are written, o truncated to whole minutes otherwise |
| `OffsetLaws.RecoverSeconds` | src/time_zone_format.cc:164-167 | with seconds written, o itself is recovered, so ":*" read with ":" gives back o |
| `OffsetLaws.RecoverMinutes` | src/time_zone_format.cc:169-176 | without seconds, o truncated toward zero to whole minutes is recovered |
| `OffsetLaws.RecoverHours` | src/time_zone_format.cc:169-177 | when ":*:" drops zero minutes and seconds, the hours alone are recovered |
| `OffsetLaws.OffsetFields` | src/time_zone_format.cc:158-164 | the fields of an offset below one day are in range and recompose it |
| `FormatScan.LiteralEnd` | src/time_zone_format.cc:309 | the scan for the next '%' stops at the first '%' or at the end |
| `FormatScan.PercentEnd` | src/time_zone_format.cc:319 | the span of '%' stops at the first other character or at the end |
| `FormatScan.ColonCount` | src/time_zone_format.cc:390-425 | one to three colons before 'z', or none |
| `FormatScan.LiteralScan` | src/time_zone_format.cc:312-315 | the literal scan stops by the next '%', and it leaves nothing pending only when it went all the way to that '%' |
| `FormatScan.EscapeScan` | src/time_zone_format.cc:323-331 | the escapes never move `pending` past the run of '%', and before an unescaped '%' leave it short of the run's end |
| `FormatScan.ScanSpec` | src/time_zone_format.cc:307-331 | a turn's scan keeps pending <= cur and moves cur on; an unescaped '%' leaves something pending |
| `FormatScan.WidthDigits` | src/time_zone_format.cc:475-478 | the precision of "%E#" is read by `ParseInt` with limit 1024 and consumes at least one character |
| `FormatScan.ScanLiteral` | src/time_zone_format.cc:309 | the loop stops where `LiteralEnd` says |
| `FormatScan.SpanPercents` | src/time_zone_format.cc:319 | the loop stops where `PercentEnd` says |
| `FormatScan.CopyLiteral` | src/time_zone_format.cc:307-315 | the first half of a turn's scan |
| `FormatScan.CopyEscapes` | src/time_zone_format.cc:318-331 | the second half of a turn's scan |
| `FormatScan.ScanText` | src/time_zone_format.cc:307-331 | a turn's scan equals `ScanSpec` |
| `Formatter.StripZeros` | src/time_zone_format.cc:455 | stripping trailing zeros keeps a prefix |
| `FractionLaws.StripZerosMeaning` | src/time_zone_format.cc:455 | the text is its stripped prefix followed by zeros only, and the prefix does not end in '0' |
| `Formatter.TrimZeros` | src/time_zone_format.cc:455 | the backward loop stops where `StripZeros` ends |
| `FractionLaws.StrippedFraction` | src/time_zone_format.cc:454-455 | the stripped fraction is empty exactly when the femtoseconds are 0, does not end in '0', and scaled by its missing digits gives back the femtoseconds |
| `FractionLaws.StarFractionDigits` | src/time_zone_format.cc:453-465 | `%E*f` writes 1 to 15 digits: "0" exactly when the fraction is zero, and otherwise digits without trailing zeros that denote the fraction |
| `FractionLaws.StarSecondsShape` | src/time_zone_format.cc:457-460 | `%E*S` writes the two second digits, then '.' and the `%E*f` digits only when the fraction is non-zero |
| `FractionLaws.DigitsFractionDigits` | src/time_zone_format.cc:488-497 | `%E#f` writes exactly min(n, 18) digits (none for n <= 0): the first ones of the 15-digit fraction followed by zeros |
| `FractionLaws.DigitsSecondsShape` | src/time_zone_format.cc:494-496 | `%E#S` writes the two second digits, then '.' and the `%E#f` digits only when n > 0 |
| `FractionLaws.LongFraction` | src/time_zone_format.cc:491-493 | for more than 15 digits the fraction is multiplied by `kExp10[n - 15]`: its text is the 15 digits followed by zeros |
| `FractionLaws.ShortFraction` | src/time_zone_format.cc:491-493 | for at most 15 digits it is divided by `kExp10[15 - n]`: truncation to the first n digits |
| `Formatter.FracValueInt64` | src/time_zone_format.cc:490-493 | the scaled fraction has at most n digits and fits in 64 bits |
| `Formatter.ScaledFraction` | src/time_zone_format.cc:490-493 | the scaling reads `kExp10` and gives `FracValue` |
| `Formatter.StarFractionText` | src/time_zone_format.cc:453-465 | the `%E*S` / `%E*f` writer |
| `Formatter.DigitsFractionText` | src/time_zone_format.cc:488-497 | the `%E#S` / `%E#f` writer |
| `Formatter.FieldOut` | src/time_zone_format.cc:342-384 | the text of each handled field: `Format64` of the year and the Unix seconds, `Format02d` of the others, a space for the leading zero of %e, the abbreviation, the offset |
| `Formatter.RenderAllAppend` | src/time_zone_format.cc:285-509 | appending pieces appends their text, by induction |
| `Formatter.RenderCopy` | src/time_zone_format.cc:313 | copied text is written as it is |
| `Formatter.FormatTM` | src/time_zone_format.cc:338-340 | the pending stretch goes to strftime only when it is not empty |
| `Formatter.WriteField` | src/time_zone_format.cc:338-384 | a handled field flushes the pending text, then writes the field |
| `Formatter.Colons` | src/time_zone_format.cc:390-425 | counts the colons of %:z, %::z and %:::z |
| `Formatter.Dispatch` | src/time_zone_format.cc:337-428 | the switch after an unescaped '%' appends what `FormatDispatch` says and leaves the cursors where its continuation starts |
| `Formatter.Extension` | src/time_zone_format.cc:428-500 | the same for the "%E" extensions |
| `Formatter.Star` | src/time_zone_format.cc:439-466 | the same for "%E*z", "%E*S" and "%E*f" |
| `Formatter.DigitsAt` | src/time_zone_format.cc:475-500 | the same for "%E#S" and "%E#f" |
| `Formatter.DigitsWidth` | src/time_zone_format.cc:477-499 | the same, given the result of reading the precision |
| `Formatter.Iterate` | src/time_zone_format.cc:306-501 | one turn of the outer loop appends what it should and moves cur on |
| `Formatter.Format` | src/time_zone_format.cc:285-509 | the loop returns the rendering of the pieces of the format string, the final strftime of the remaining pending text included |
| `FormatLaws.NoSpecifiers` | src/time_zone_format.cc:306-315 | a format without '%' is copied out unchanged |
| `FormatLaws.LiteralRun` | src/time_zone_format.cc:309-315 | with nothing pending, ordinary text is copied up to the next '%' |
| `FormatLaws.EscapedPercent` | src/time_zone_format.cc:318-331 | with nothing pending, "%%" writes one '%' |
| `FormatLaws.PendingEscape` | src/time_zone_format.cc:323-334 | with text pending, "%%" joins the pending text for strftime |
| `FormatLaws.PendingLiteral` | src/time_zone_format.cc:309-315 | with text pending, ordinary text joins it |
| `FormatLaws.PendingScan` | src/time_zone_format.cc:318-334 | with text pending, a run of '%' copies nothing out; an even run continues and an odd one reaches the switch |
| `FormatLaws.TurnText` | src/time_zone_format.cc:306-334 | a turn writes the text its scan copies out, then what follows |
| `FormatLaws.TurnAtPercent` | src/time_zone_format.cc:334 | an unescaped '%' hands the next character to the switch |
| `FormatLaws.SimpleSpecifier` | src/time_zone_format.cc:337-386 | a specifier from "YmdeHMSzZs%" flushes the pending text to strftime and writes its field |
| `FormatLaws.ColonSpecifier` | src/time_zone_format.cc:390-425 | %:z, %::z and %:::z write the offset in modes ":", ":*" and ":*:" |
| `FormatLaws.ExtensionTurn` | src/time_zone_format.cc:428 | "%E" followed by something goes to the extensions |
| `FormatLaws.OffsetExtension` | src/time_zone_format.cc:431-438 | %Ez writes the offset in mode ":" |
| `FormatLaws.StarOffsetExtension` | src/time_zone_format.cc:439-446 | %E*z writes the offset in mode ":*" |
| `FormatLaws.StarFractionExtension` | src/time_zone_format.cc:447-466 | %E*S and %E*f write the stripped fraction |
| `FormatLaws.Year4Extension` | src/time_zone_format.cc:467-474 | %E4Y writes the year with width 4 |
| `FormatLaws.DigitsFractionExtension` | src/time_zone_format.cc:475-498 | %E#S and %E#f write the fraction with the precision read by `ParseInt` |
| `FormatLaws.WidthOfDigits` | src/time_zone_format.cc:477-478 | a digit run of value up to 1024 is the precision |
| `FormatLaws.DigitsWithoutFraction` | src/time_zone_format.cc:479-481 | "%E#" without a following S or f leaves everything pending and continues after the 'E' |
| `FormatLaws.UnhandledSpecifier` | src/time_zone_format.cc:428 | any other specifier stays pending for strftime |
| `FormatLaws.UnhandledExtension` | src/time_zone_format.cc:428-500 | an "%E" the extensions do not handle stays pending |
| `FormatLaws.HandledText` | src/time_zone_format.cc:337-386 | with nothing pending, a handled field contributes exactly its text |
| `FormatLaws.DateExample` | src/time_zone_format.cc:342-357 | "%Y-%m-%d" writes the year, '-', two month digits, '-', two day digits |
| `FormatLaws.PendingExample` | src/time_zone_format.cc:337-346 | "%a %Y" hands "%a " to strftime, then writes the year |
| `FormatLaws.EscapeExample` | src/time_zone_format.cc:318-331 | "100%%" writes "100%" |
| `FormatLaws.TrailingPercentCopied` | src/time_zone_format.cc:312-331 | with nothing pending, "abc%" writes "abc%": the literal and the lone trailing '%' are both copied out |
| `FormatLaws.TrailingPercentPending` | src/time_zone_format.cc:323-334 | with "%a" pending, the lone trailing '%' of "%a%" is handed to strftime together with it |
| `Civil.DaysInMonth` | src/time_zone_format.cc:867-869 | months have 28 to 31 days, December 31 |
| `Civil.Normalize` | src/time_zone_format.cc:865 | the civil-second constructor gives a real date |
| `CivilLaws.NormalizeIdentity` | src/time_zone_format.cc:867-873 | the constructor leaves the fields alone exactly when they name a real day |
| `CivilLaws.NormalizeKeepsSecond` | src/time_zone_format.cc:865-869 | normalisation keeps the year, the time of day and the place on the line of seconds |
| `CivilLaws.YearLength` | src/time_zone_format.cc:865 | a year has 366 days when it is a leap year and 365 otherwise |
| `CivilLaws.MonthsMakeYear` | src/time_zone_format.cc:865 | the twelve months add up to the year |
| `CivilLaws.YearsIncrease` | src/time_zone_format.cc:876-877 | later years start later, by induction |
| `CivilLaws.DayWithinYear` | src/time_zone_format.cc:876-877 | a real day lies within its year, by induction over the months |
| `CivilLaws.EarlierDay` | src/time_zone_format.cc:876-877 | seconds of an earlier day come first |
| `CivilLaws.WithinCivilRange` | src/time_zone_format.cc:876-877 | every real civil second with a 64-bit year lies within [`civil_second::min()`, `civil_second::max()`] |
| `CivilLaws.ShiftFitsMeaning` | src/time_zone_format.cc:875-881 | the check before `cs -= offset` passes exactly when the shifted second stays within that range |
| `Parser.SpaceEnd` | src/time_zone_format.cc:640-643 | `consume_leading_spaces` skips exactly the run of white space |
| `Parser.SkipSpaces` | src/time_zone_format.cc:609 | the loop stops where `SpaceEnd` says |
| `Parser.IntSpecifier` | src/time_zone_format.cc:657-687 | the integer specifiers: %Y 64-bit unbounded, %m 1-12, %d/%e 1-31, %H 0-23, %M 0-59, %S 0-60, %s 64-bit; each range keeps the state's fields in range |
| `Parser.IntStep` | src/time_zone_format.cc:657-715 | an integer field advances the input and keeps the fields in range |
| `Parser.StoreKeepsRanges` | src/time_zone_format.cc:661-686 | storing a value of the specifier's range keeps the fields in range |
| `Parser.OffsetStep` | src/time_zone_format.cc:699-703 | %z advances and keeps the offset within a day |
| `Parser.ZoneStep` | src/time_zone_format.cc:704-707 | %Z advances |
| `Parser.SubSecondsStep` | src/time_zone_format.cc:743-745 | a fraction consumes at least one character and keeps the fields in range, the fraction below one second |
| `Parser.SecondsStep` | src/time_zone_format.cc:740-748 | %E*S and %E#S consume at least the seconds and keep the fields in range |
| `Parser.FractionStep` | src/time_zone_format.cc:749-755 | %E*f and %E#f may consume nothing, never move back, and keep the fields in range |
| `Parser.Year4Step` | src/time_zone_format.cc:756-763 | %E4Y consumes input and keeps the fields in range |
| `Parser.Fallback` | src/time_zone_format.cc:801-819 | strptime moves to the end of the specifier and keeps the fields in range |
| `Parser.PrecisionEnd` | src/time_zone_format.cc:765-766 | the precision of "%E#" starts with a digit and ends within the format |
| `Parser.StepSpec` | src/time_zone_format.cc:639-820 | every turn of the loop moves on in the format, stays within the input and keeps the fields in range |
| `Parser.SpecifierStep` | src/time_zone_format.cc:653-800 | the same for the specifier switch |
| `Parser.ExtensionStep` | src/time_zone_format.cc:733-793 | the same for "%E" |
| `Parser.DigitsExtension` | src/time_zone_format.cc:765-793 | the same for "%E#S", "%E#f" and the rest |
| `Parser.ExtensionFallback` | src/time_zone_format.cc:790-792 | the same for an "%E" left to strptime |
| `Parser.ParseLoop` | src/time_zone_format.cc:639-820 | the loop stops within the input |
| `Parser.LoopKeepsRanges` | src/time_zone_format.cc:639-820 | every field the loop reaches is in its range, by induction |
| `Parser.ReadInt` | src/time_zone_format.cc:657-715 | reads an integer field as `IntStep` says |
| `Parser.ReadSubSeconds` | src/time_zone_format.cc:743-745 | reads a fraction as `SubSecondsStep` says |
| `Parser.ReadSeconds` | src/time_zone_format.cc:740-748 | reads as `SecondsStep` says |
| `Parser.ReadFraction` | src/time_zone_format.cc:749-755 | reads as `FractionStep` says |
| `Parser.ReadYear4` | src/time_zone_format.cc:756-763 | reads as `Year4Step` says |
| `Parser.ReadZone` | src/time_zone_format.cc:704-707 | reads as `ZoneStep` says |
| `Parser.ReadPrecision` | src/time_zone_format.cc:765-766 | finds the end of the precision as `PrecisionEnd` says |
| `Parser.DigitsSpecifier` | src/time_zone_format.cc:765-793 | handles "%E#" as `DigitsExtension` says |
| `Parser.Extension` | src/time_zone_format.cc:733-793 | handles "%E" as `ExtensionStep` says |
| `Parser.Specifier` | src/time_zone_format.cc:653-800 | the switch as `SpecifierStep` says |
| `Parser.Turn` | src/time_zone_format.cc:640-820 | one turn as `StepSpec` says |
| `Parser.Check` | src/time_zone_format.cc:864-881 | the normalisation and shift checks as `Settle` says |
| `Parser.Finish` | src/time_zone_format.cc:822-881 | the checks after the loop as `Reconcile` says |
| `Parser.Parse` | src/time_zone_format.cc:598-881 | the lockstep loop from the defaults, then the checks, as `ParseSpec` says |
| `ParseLaws.AdjustedHour` | src/time_zone_format.cc:822-825 | the hour gains 12 exactly when a 12-hour specifier read a morning hour and "%p" an afternoon, and stays in 0-23 |
| `ParseLaws.FieldsSecond` | src/time_zone_format.cc:847-865 | the fields handed to the constructor are in range, with a 64-bit year |
| `ParseLaws.TrailingDataRejected` | src/time_zone_format.cc:827-833 | `parse` fails with trailing data exactly when something other than white space remains |
| `ParseLaws.PercentSWins` | src/time_zone_format.cc:835-840 | the result is a Unix time exactly when the input was consumed and %s was seen, and it is the %s value |
| `ParseLaws.YearAlwaysInRange` | src/time_zone_format.cc:854-861 | the "Out-of-range year" error cannot happen, since tm_year is an int |
| `ParseLaws.ReconcileOutcome` | src/time_zone_format.cc:842-881 | otherwise the result is the civil second of the fields and the offset, a leap second 60 read as 59 with one second less of offset and no fraction, when it names a real day and the shift stays within the civil range; else "Out-of-range field" |
| `ParseLaws.SettleOutcome` | src/time_zone_format.cc:864-881 | the constructor and shift checks accept exactly the real days whose shifted second is in range |
| `ParseLaws.NoDayOverflow` | src/time_zone_format.cc:867-873 | a day past the end of its month ("Sep 31") is rejected, not carried into the next month |
| `ParseLaws.LeapSecondRollsForward` | src/time_zone_format.cc:847-852 | a second of 60 lands on the same instant as the following ":00" |
| `ParseLaws.SpacesMatchAnyRun` | src/time_zone_format.cc:640-643 | white space in the format matches any run of white space in the input |
| `ParseLaws.LiteralText` | src/time_zone_format.cc:645-651 | a format without '%' or white space matches exactly the input that repeats it, up to the shorter end |
| `ParseLaws.LiteralTurn` | src/time_zone_format.cc:645-651 | an ordinary character must match the input |
| `ParseLaws.IntTurn` | src/time_zone_format.cc:656-715 | an integer specifier reads its field |
| `ParseLaws.EscapeMatchesPercent` | src/time_zone_format.cc:730-732 | "%%" matches one '%' of the input |
| `ParseLaws.FallbackMeridiem` | src/time_zone_format.cc:801-819 | strptime's result is kept, and only "%p" sets the afternoon flag |
| `ParseLaws.YearRoundTrip` | src/time_zone_format.cc:657-664 | %Y reads back `Format64(y, 0)` |
| `ParseLaws.TwoDigitRoundTrip` | src/time_zone_format.cc:665-687 | %m, %d, %H, %M and %S read back `Format02d` |
| `ParseLaws.OffsetRoundTrip` | src/time_zone_format.cc:716-738 | %:z, %::z, %:::z, %Ez and %E*z parse with separator ":", and read back `FormatOffset` in each colon mode, minutes truncated when seconds are not written |
| `RoundTrip.DateLoop` | src/time_zone_format.cc:639-687 | the loop reads the year, the month and the day of a formatted date |
| `RoundTrip.DateRoundTrip` | src/time_zone_format.cc:285-509 | `parse("%Y-%m-%d", format("%Y-%m-%d", t))` is the date of t at midnight, with no offset and no fraction, for every real date with a 64-bit year |
| `FractionLaws.StarFractionReadBack` | src/time_zone_format.cc:561-580 | `ParseSubSeconds` reads back the %E*f text, "0" included, as the femtoseconds, consuming every digit written, when no digit follows |
| `ParseLaws.StarTurn` | src/time_zone_format.cc:740-755 | "%E*S" reads the seconds and then the fraction; "%E*f" reads only the fraction |
| `RoundTrip.StarSecondsRoundTrip` | src/time_zone_format.cc:740-748 | %E*S reads back the second and the femtoseconds `format` wrote (lines 457-460); for a zero fraction the state keeps its fraction, when neither a digit nor '.' follows |
| `ParseLaws.DigitsTurn` | src/time_zone_format.cc:584-586 | "%E#S" and "%E#f", with a precision of at most 1024 digits, read the input exactly as "%E*S" and "%E*f" do (lines 765-786 against 740-755) |
| `ParseLaws.OffsetTurn` | src/time_zone_format.cc:586-587 | "%Ez", "%E*z", "%:z", "%::z" and "%:::z" all read the input as `ParseOffset` with the ':' separator (lines 716-729 and 733-738) |
| `RoundTrip.CompactDateText` | src/time_zone_format.cc:342-356 | `format("%Y%m%d", t)` is the year's digits, then the two-digit month and the two-digit day |
| `RoundTrip.CompactDateMisread` | src/time_zone_format.cc:639-664 | for "%Y%m%d" and a year of at least 1, `parse` of the formatted text is the year yyyymmdd, January 1, midnight: the unbounded %Y reads every digit and the loop stops at the end of the input |
| `RoundTrip.CompactDateExample` | src/time_zone_format.cc:639-664 | `parse("%Y%m%d", format("%Y%m%d", 2024-03-05))` is year 20240305, January 1 |
| `RoundTrip.SpacedDayText` | src/time_zone_format.cc:342-356 | `format("%Y-%m-%e", t)` is the year, '-', the two-digit month, '-', and the two-digit day with a leading '0' turned into a space |
| `RoundTrip.SpacedDayRejected` | src/time_zone_format.cc:352-355 | for "%Y-%m-%e" and a day below 10, `parse` of the formatted text fails as malformed: the space %e wrote is not a digit for `ParseInt` |
| `RoundTrip.StarFractionRoundTrip` | src/time_zone_format.cc:749-755 | %E*f reads back the femtoseconds `format` wrote (lines 453-465), consuming the whole text, when no digit follows |

## Left out

- The general round trip, `parse(fmt, format(fmt, t))` giving back `t` and its fraction for every format of handled specifiers, is not proved. It is proved for "%Y-%m-%d" (`RoundTrip.DateRoundTrip`) and field by field: %Y, the two-digit fields, the colon offsets, %E*S and %E*f. The model shows why the general law does not hold as written, in two proved counterexamples:
  - for "%Y%m%d", the unbounded `ParseInt` of %Y (line 661) reads all eight digits of "20240305" as the year; the loop then stops because the input has run out (line 639), and the date is accepted as year 20240305, January 1 (`RoundTrip.CompactDateMisread`, `RoundTrip.CompactDateExample`);
  - for "%Y-%m-%e" with a day below 10, %e writes a space (lines 352-357) that `ParseInt` rejects (`NumParse.ParseIntNeedsDigit`), so `parse` fails (`RoundTrip.SpacedDayRejected`).
- strftime (`FormatTM`, src/time_zone_format.cc:184-199): the parameter `tm` says what it appends for a stretch of the format. Its growing buffer is not modelled.
- strptime and its `std::get_time` shim (src/time_zone_format.cc:57-63, 801-808): the parameter `sp`.
  - `Parser.StrptimeOk` assumes it consumes at most the remaining input and keeps the `tm` fields within strptime's ranges: tm_sec 0-60 (C99's range, not the 0-61 of older POSIX), tm_min 0-59, tm_hour 0-23, tm_mday 1-31, tm_mon 0-11, and tm_year a 32-bit C int. Everything after the loop rests on these ranges, including the code's premise at lines 867-869 that only the day can roll over.
  - The scratch copy of the input is not modelled.
- The `%p` test (src/time_zone_format.cc:813-819), which parses again with `"%I%p"`: the parameter `pm`, on the text strptime consumed.
- `tz.lookup(tp)` and `ToTM` (src/time_zone_format.cc:66-109, 289-290):
  - `format` takes the lookup result as an input record, with the Unix seconds of `tp` and the femtoseconds of `fs`.
  - The weekday, yearday and year saturation of `ToTM` feed only strftime.
- `ptz.lookup(cs)` and its saturation checks (src/time_zone_format.cc:883-898), which need the zone database:
  - `parse` returns the civil second, the offset to subtract, and whether it is to be read in UTC (`saw_offset`).
  - `cs -= offset` is stated on the line of seconds; the subtraction is not performed.
- `civil_second`: the constructor is modelled only for the fields `parse` can hand it, where a day past its month's end moves into the next month. Its own arithmetic is not modelled.
- Buffers: `Format64`, `Format02d` and `FormatOffset` fill a char buffer backwards through `ep`; the model prepends to a sequence. The result string of `format` is a sequence appended to. In-place writes to a shared buffer (the `*bp = ' '` of %e, the '.' before a fraction) are stated on values.
- `std::isspace` and `std::isdigit` are the ASCII predicates of the "C" locale.
- Error messages: `parse` returns which of "Failed to parse input", trailing data, out-of-range year and out-of-range field it would report, not the string.
