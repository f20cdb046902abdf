/** What the civil-second model means: normalisation moves a day past the
    end of its month without moving the second on the time line, a year is
    365 or 366 days long, and the check `parse` makes before subtracting the
    offset is exactly the condition that the result stays within the range of
    `civil_second`. */
module CivilLaws {
  import opened Base
  import opened Civil

  /** The constructor leaves a civil second alone exactly when it names a
      real day. */
  lemma NormalizeIdentity(cs: CivilSecond)
    requires InFieldRanges(cs)
    ensures Normalize(cs) == cs <==> IsValidCivil(cs)
  {
  }

  /** Normalisation keeps the year and the time of day, and the place on the
      line of seconds. */
  lemma NormalizeKeepsSecond(cs: CivilSecond)
    requires InFieldRanges(cs)
    ensures var n := Normalize(cs);
            && n.year == cs.year && n.hour == cs.hour && n.minute == cs.minute && n.second == cs.second
            && SecondNumber(n) == SecondNumber(cs)
  {
    var dim := DaysInMonth(cs.year, cs.month);
    if cs.day > dim {
      assert DaysBeforeMonth(cs.year, cs.month + 1) == DaysBeforeMonth(cs.year, cs.month) + dim;
      assert DayNumber(cs.year, cs.month + 1, cs.day - dim) == DayNumber(cs.year, cs.month, cs.day);
    }
  }

  /** Division by a positive k: the quotient of q * k + r, for r in
      [0, k), is q. */
  lemma DivIs(a: int, k: int, q: int, r: int)
    requires k > 0 && 0 <= r < k && a == q * k + r
    ensures a / k == q
  {
    var q2, r2 := a / k, a % k;
    assert a == q2 * k + r2;
    if q2 > q {
      MulGap(q, q2, k);
    } else if q2 < q {
      MulGap(q2, q, k);
    }
  }

  lemma MulGap(x: int, y: int, k: int)
    requires x < y && k > 0
    ensures x * k + k <= y * k
  {
    var n := y - x - 1;
    assert n >= 0;
    assert n * k >= 0;
    assert y * k == x * k + k + n * k;
  }

  /** Stepping y by one: the quotient of y + k by k is one more than that of
      y + k - 1 exactly when y is a multiple of k. */
  lemma QuotientStep(y: int, k: int)
    requires k > 0
    ensures (y + k) / k - (y + k - 1) / k == if y % k == 0 then 1 else 0
  {
    var q, r := y / k, y % k;
    assert y == q * k + r && 0 <= r < k;
    DivIs(y + k, k, q + 1, r);
    if r == 0 {
      DivIs(y + k - 1, k, q, k - 1);
    } else {
      DivIs(y + k - 1, k, q + 1, r - 1);
    }
  }

  /** The days of a year: 366 in a leap year, 365 otherwise. */
  lemma YearLength(y: int)
    ensures DaysBeforeYear(y + 1) - DaysBeforeYear(y) == if IsLeapYear(y) then 366 else 365
  {
    QuotientStep(y, 4);
    QuotientStep(y, 100);
    QuotientStep(y, 400);
    var a := (y + 4) / 4 - (y + 3) / 4;
    var b := (y + 100) / 100 - (y + 99) / 100;
    var c := (y + 400) / 400 - (y + 399) / 400;
    assert DaysBeforeYear(y + 1) - DaysBeforeYear(y) == 365 + a - b + c;
    MultipleOf(y, 100, 4);
    MultipleOf(y, 400, 100);
  }

  /** A multiple of n is a multiple of every j that divides n. */
  lemma MultipleOf(y: int, n: int, j: int)
    requires j > 0 && n > 0 && n % j == 0
    ensures y % n == 0 ==> y % j == 0
  {
    if y % n == 0 {
      var q, p := y / n, n / j;
      assert y == q * n;
      assert n == p * j;
      assert y == (q * p) * j;
      DivIs(y, j, q * p, 0);
    }
  }

  /** The twelve months add up to the year. */
  lemma MonthsMakeYear(y: int)
    ensures DaysBeforeMonth(y, 13) == DaysBeforeYear(y + 1) - DaysBeforeYear(y)
    ensures DaysBeforeMonth(y, 13) == DaysBeforeMonth(y, 12) + 31
  {
    YearLength(y);
    assert DaysBeforeMonth(y, 13) == DaysBeforeMonth(y, 12) + 31;
    assert DaysBeforeMonth(y, 12) == DaysBeforeMonth(y, 11) + 30;
    assert DaysBeforeMonth(y, 11) == DaysBeforeMonth(y, 10) + 31;
    assert DaysBeforeMonth(y, 10) == DaysBeforeMonth(y, 9) + 30;
    assert DaysBeforeMonth(y, 9) == DaysBeforeMonth(y, 8) + 31;
    assert DaysBeforeMonth(y, 8) == DaysBeforeMonth(y, 7) + 31;
    assert DaysBeforeMonth(y, 7) == DaysBeforeMonth(y, 6) + 30;
    assert DaysBeforeMonth(y, 6) == DaysBeforeMonth(y, 5) + 31;
    assert DaysBeforeMonth(y, 5) == DaysBeforeMonth(y, 4) + 30;
    assert DaysBeforeMonth(y, 4) == DaysBeforeMonth(y, 3) + 31;
    assert DaysBeforeMonth(y, 3) == DaysBeforeMonth(y, 2) + DaysInMonth(y, 2);
    assert DaysBeforeMonth(y, 2) == 31;
  }

  /** A real day of month m falls within its year, and later months start
      later. */
  lemma {:induction false} DayWithinYear(y: int, m: int, d: int)
    requires 1 <= m <= 12 && 1 <= d <= DaysInMonth(y, m)
    ensures DaysBeforeMonth(y, m) + d <= DaysBeforeMonth(y, 13)
    ensures DaysBeforeMonth(y, m) + d <= DaysBeforeMonth(y, 12) + 31
    decreases 13 - m
  {
    MonthsMakeYear(y);
    if m < 12 {
      DayWithinYear(y, m + 1, 1);
    }
  }

  /** Later years start later. */
  lemma {:induction false} YearsIncrease(a: int, b: int)
    requires a <= b
    ensures DaysBeforeYear(a) + 365 * (b - a) <= DaysBeforeYear(b)
    decreases b - a
  {
    if a < b {
      YearsIncrease(a, b - 1);
      YearLength(b - 1);
    }
  }

  /** The place of a civil second on the line: whole days of 86400 seconds,
      then the time of day. */
  lemma SecondsOfDay(cs: CivilSecond)
    requires 1 <= cs.month <= 12
    ensures SecondNumber(cs)
            == DayNumber(cs.year, cs.month, cs.day) * 86400 + cs.hour * 3600 + cs.minute * 60 + cs.second
  {
  }

  /** Seconds on an earlier day come before seconds on a later one. */
  lemma EarlierDay(a: CivilSecond, b: CivilSecond)
    requires IsValidCivil(a) && IsValidCivil(b)
    requires DayNumber(a.year, a.month, a.day) < DayNumber(b.year, b.month, b.day)
    ensures SecondNumber(a) < SecondNumber(b)
  {
    SecondsOfDay(a);
    SecondsOfDay(b);
    var da, db := DayNumber(a.year, a.month, a.day), DayNumber(b.year, b.month, b.day);
    assert da * 86400 + 86400 <= db * 86400;
  }

  /** No month starts before its year. */
  lemma {:induction false} MonthsNonNegative(y: int, m: int)
    requires 1 <= m <= 13
    ensures DaysBeforeMonth(y, m) >= 0
  {
    if m > 1 {
      MonthsNonNegative(y, m - 1);
    }
  }

  /** Every real civil second with a 64-bit year lies within
      [`civil_second::min()`, `civil_second::max()`]. */
  lemma WithinCivilRange(cs: CivilSecond)
    requires IsValidCivil(cs) && IsInt64(cs.year)
    ensures SecondNumber(CivilMin) <= SecondNumber(cs) <= SecondNumber(CivilMax)
  {
    AfterCivilMin(cs);
    BeforeCivilMax(cs);
  }

  lemma AfterCivilMin(cs: CivilSecond)
    requires IsValidCivil(cs) && IsInt64(cs.year)
    ensures SecondNumber(CivilMin) <= SecondNumber(cs)
  {
    YearsIncrease(Int64Min, cs.year);
    MonthsNonNegative(cs.year, cs.month);
    SecondsOfDay(cs);
    SecondsOfDay(CivilMin);
  }

  lemma BeforeCivilMax(cs: CivilSecond)
    requires IsValidCivil(cs) && IsInt64(cs.year)
    ensures SecondNumber(cs) <= SecondNumber(CivilMax)
  {
    var y := cs.year;
    DayWithinYear(y, cs.month, cs.day);
    MonthsMakeYear(y);
    MonthsNonNegative(Int64Max, 12);
    SecondsOfDay(cs);
    SecondsOfDay(CivilMax);
    if y < Int64Max {
      YearsIncrease(y + 1, Int64Max);
      EarlierDay(cs, CivilMax);
    }
  }

  /** The check before `cs -= offset` passes exactly when the shifted second
      stays within the range of `civil_second`. */
  lemma ShiftFitsMeaning(cs: CivilSecond, offset: int)
    requires IsValidCivil(cs) && IsInt64(cs.year)
    ensures ShiftFits(cs, offset)
            <==> SecondNumber(CivilMin) <= SecondNumber(cs) - offset <= SecondNumber(CivilMax)
  {
    WithinCivilRange(cs);
  }
}
