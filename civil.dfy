/** The part of the civil-time type that `parse` relies on: building a civil
    second from fields rolls a day past the end of its month into the next
    month, and a civil second has a place on the line of seconds so that an
    offset can be subtracted from it. Days are counted in the proleptic
    Gregorian calendar. */
module Civil {
  import opened Base

  datatype CivilSecond = CivilSecond(year: int, month: int, day: int, hour: int, minute: int, second: int)

  predicate IsLeapYear(y: int)
  {
    y % 4 == 0 && (y % 100 != 0 || y % 400 == 0)
  }

  function DaysInMonth(y: int, m: int): (n: int)
    requires 1 <= m <= 12
    ensures 28 <= n <= 31
    ensures m == 12 ==> n == 31
  {
    if m == 2 then (if IsLeapYear(y) then 29 else 28)
    else if m == 4 || m == 6 || m == 9 || m == 11 then 30
    else 31
  }

  /** The fields `parse` hands to the civil-second constructor: each within
      the range its specifier accepts, the day up to 31 in any month. */
  predicate InFieldRanges(cs: CivilSecond)
  {
    1 <= cs.month <= 12 && 1 <= cs.day <= 31
    && 0 <= cs.hour <= 23 && 0 <= cs.minute <= 59 && 0 <= cs.second <= 59
  }

  /** A civil second that names a real date and time of day. */
  predicate IsValidCivil(cs: CivilSecond)
  {
    InFieldRanges(cs) && cs.day <= DaysInMonth(cs.year, cs.month)
  }

  /** The civil-second constructor on fields in range: a day beyond the
      end of the month is carried into the following month (Sep 31 becomes
      Oct 1). December has 31 days, so the year never changes. */
  function Normalize(cs: CivilSecond): (n: CivilSecond)
    requires InFieldRanges(cs)
    ensures IsValidCivil(n)
  {
    var dim := DaysInMonth(cs.year, cs.month);
    if cs.day <= dim then cs else cs.(month := cs.month + 1, day := cs.day - dim)
  }

  /** Days before the first of January of year y, counted from the first of
      January of year 0. */
  function DaysBeforeYear(y: int): int
  {
    365 * y + (y + 3) / 4 - (y + 99) / 100 + (y + 399) / 400
  }

  /** Days of year y before the first of month m. */
  function DaysBeforeMonth(y: int, m: int): int
    requires 1 <= m <= 13
  {
    if m == 1 then 0 else DaysBeforeMonth(y, m - 1) + DaysInMonth(y, m - 1)
  }

  /** The day number of a date. A day beyond the end of its month counts
      on into the next. */
  function DayNumber(y: int, m: int, d: int): int
    requires 1 <= m <= 12
  {
    DaysBeforeYear(y) + DaysBeforeMonth(y, m) + d - 1
  }

  /** The place of a civil second on the line of seconds. */
  function SecondNumber(cs: CivilSecond): int
    requires 1 <= cs.month <= 12
  {
    ((DayNumber(cs.year, cs.month, cs.day) * 24 + cs.hour) * 60 + cs.minute) * 60 + cs.second
  }

  /** `civil_second::max()` and `civil_second::min()`: the year is a 64-bit
      integer. */
  const CivilMax: CivilSecond := CivilSecond(Int64Max, 12, 31, 23, 59, 59)
  const CivilMin: CivilSecond := CivilSecond(Int64Min, 1, 1, 0, 0, 0)

  /** The check `parse` makes before `cs -= offset`: the shifted second must
      not pass `civil_second::max()` or `civil_second::min()`. */
  predicate ShiftFits(cs: CivilSecond, offset: int)
    requires 1 <= cs.month <= 12
  {
    !(offset < 0 && SecondNumber(cs) > SecondNumber(CivilMax) + offset)
    && !(offset > 0 && SecondNumber(cs) < SecondNumber(CivilMin) + offset)
  }
}
