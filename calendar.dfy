/** Proleptic Gregorian calendar arithmetic: the part of JavaScript's `Date` that the
    attendance sheet relies on (days in a month, day of the week, month stepping). */
module Calendar {

  /** A calendar date; `month` is 1-based as in the "YYYY-MM-DD" keys. */
  datatype Date = Date(year: int, month: int, day: int)

  /** A calendar month; `month` is 0-based as returned by `Date.getMonth()`. */
  datatype YearMonth = YearMonth(year: int, month: int)

  predicate IsLeapYear(y: int) {
    y % 4 == 0 && (y % 100 != 0 || y % 400 == 0)
  }

  /** Number of days of month `m` (1-based) in year `y`. */
  function DaysInMonth(y: int, m: int): (n: int)
    requires 1 <= m <= 12
    ensures 28 <= n <= 31
    ensures n == 28 <==> m == 2 && !IsLeapYear(y)
    ensures n == 29 <==> m == 2 && IsLeapYear(y)
    ensures n == 30 <==> m in {4, 6, 9, 11}
    ensures n == 31 <==> m in {1, 3, 5, 7, 8, 10, 12}
  {
    if m == 2 then (if IsLeapYear(y) then 29 else 28)
    else if m in {4, 6, 9, 11} then 30
    else 31
  }

  predicate ValidDate(d: Date) {
    1 <= d.month <= 12 && 1 <= d.day <= DaysInMonth(d.year, d.month)
  }

  function YearLength(y: int): int {
    if IsLeapYear(y) then 366 else 365
  }

  /** Days from 1970-01-01 to 1 January of year `y` (negative before 1970). */
  function DaysBeforeYear(y: int): int
    decreases if y >= 1970 then y - 1970 else 1970 - y
  {
    if y == 1970 then 0
    else if y > 1970 then DaysBeforeYear(y - 1) + YearLength(y - 1)
    else DaysBeforeYear(y + 1) - YearLength(y)
  }

  /** Days from 1 January of year `y` to the first day of month `m` (1-based). */
  function DaysBeforeMonth(y: int, m: int): int
    requires 1 <= m <= 12
  {
    if m == 1 then 0 else DaysBeforeMonth(y, m - 1) + DaysInMonth(y, m - 1)
  }

  /** Days since 1970-01-01 (negative before it). */
  function DayNumber(d: Date): int
    requires 1 <= d.month <= 12
  {
    DaysBeforeYear(d.year) + DaysBeforeMonth(d.year, d.month) + d.day - 1
  }

  /** Day of the week as `Date.getDay()` numbers it: 0 is Sunday, 1970-01-01 was a Thursday. */
  function DayOfWeek(d: Date): (w: int)
    requires 1 <= d.month <= 12
    ensures 0 <= w < 7
    ensures d == Date(1970, 1, 1) ==> w == 4
  {
    (DayNumber(d) + 4) % 7
  }

  /** Two dates are as many weekdays apart as they are days apart, modulo 7. */
  lemma WeekdayDistance(a: Date, b: Date)
    requires 1 <= a.month <= 12 && 1 <= b.month <= 12
    ensures (DayOfWeek(b) - DayOfWeek(a)) % 7 == (DayNumber(b) - DayNumber(a)) % 7
  {
    var x, y := DayNumber(a) + 4, DayNumber(b) + 4;
    assert x == 7 * (x / 7) + x % 7 && y == 7 * (y / 7) + y % 7;
    assert y - x == 7 * (y / 7 - x / 7) + (y % 7 - x % 7);
  }

  predicate IsSunday(d: Date)
    requires 1 <= d.month <= 12
  {
    DayOfWeek(d) == 0
  }

  /** 4 January 1970, three days after the Thursday of the epoch, was a Sunday. */
  lemma KnownSunday()
    ensures IsSunday(Date(1970, 1, 4))
    ensures !IsSunday(Date(1970, 1, 3)) && !IsSunday(Date(1970, 1, 5))
  {
  }

  /** The following calendar day. */
  function NextDay(d: Date): (r: Date)
    requires ValidDate(d)
    ensures ValidDate(r)
  {
    if d.day < DaysInMonth(d.year, d.month) then Date(d.year, d.month, d.day + 1)
    else if d.month < 12 then Date(d.year, d.month + 1, 1)
    else Date(d.year + 1, 1, 1)
  }

  /** The twelve months fill the year. */
  lemma MonthsFillYear(y: int)
    ensures DaysBeforeMonth(y, 12) + DaysInMonth(y, 12) == YearLength(y)
  {
    assert DaysBeforeMonth(y, 2) == 31;
    assert DaysBeforeMonth(y, 3) == 31 + DaysInMonth(y, 2);
    assert DaysBeforeMonth(y, 4) == 62 + DaysInMonth(y, 2);
    assert DaysBeforeMonth(y, 5) == 92 + DaysInMonth(y, 2);
    assert DaysBeforeMonth(y, 6) == 123 + DaysInMonth(y, 2);
    assert DaysBeforeMonth(y, 7) == 153 + DaysInMonth(y, 2);
    assert DaysBeforeMonth(y, 8) == 184 + DaysInMonth(y, 2);
    assert DaysBeforeMonth(y, 9) == 215 + DaysInMonth(y, 2);
    assert DaysBeforeMonth(y, 10) == 245 + DaysInMonth(y, 2);
    assert DaysBeforeMonth(y, 11) == 276 + DaysInMonth(y, 2);
    assert DaysBeforeMonth(y, 12) == 306 + DaysInMonth(y, 2);
  }

  /** Consecutive years are a year length apart, on either side of 1970. */
  lemma {:induction false} NextYearStart(y: int)
    ensures DaysBeforeYear(y + 1) == DaysBeforeYear(y) + YearLength(y)
  {
  }

  /** The day numbering agrees with DaysInMonth: the next day is numbered one higher. */
  lemma {:induction false} DayNumberOfNextDay(d: Date)
    requires ValidDate(d)
    ensures DayNumber(NextDay(d)) == DayNumber(d) + 1
  {
    if d.day == DaysInMonth(d.year, d.month) && d.month == 12 {
      MonthsFillYear(d.year);
      NextYearStart(d.year);
    }
  }

  /** Consecutive days have consecutive weekdays. */
  lemma WeekdayOfNextDay(d: Date)
    requires ValidDate(d)
    ensures DayOfWeek(NextDay(d)) == (DayOfWeek(d) + 1) % 7
  {
    DayNumberOfNextDay(d);
    WeekStep(DayNumber(d) + 4);
  }

  lemma WeekStep(n: int)
    ensures (n + 1) % 7 == (n % 7 + 1) % 7
  {
  }

  /** `a` comes strictly before `b` in (year, month, day) order. */
  predicate Before(a: Date, b: Date) {
    a.year < b.year || (a.year == b.year && (a.month < b.month || (a.month == b.month && a.day < b.day)))
  }

  lemma {:induction false} DaysBeforeMonthGrows(y: int, m1: int, m2: int)
    requires 1 <= m1 < m2 <= 12
    ensures DaysBeforeMonth(y, m2) >= DaysBeforeMonth(y, m1) + DaysInMonth(y, m1)
    decreases m2
  {
    if m2 > m1 + 1 {
      DaysBeforeMonthGrows(y, m1, m2 - 1);
    }
  }

  /** A valid date falls inside its year. */
  lemma DayOfYearBelowLength(d: Date)
    requires ValidDate(d)
    ensures 0 <= DaysBeforeMonth(d.year, d.month) + d.day - 1 < YearLength(d.year)
  {
    if d.month < 12 {
      DaysBeforeMonthGrows(d.year, d.month, 12);
    }
    MonthsFillYear(d.year);
    DaysBeforeMonthNonNegative(d.year, d.month);
  }

  lemma {:induction false} DaysBeforeMonthNonNegative(y: int, m: int)
    requires 1 <= m <= 12
    ensures DaysBeforeMonth(y, m) >= 0
    decreases m
  {
    if m > 1 {
      DaysBeforeMonthNonNegative(y, m - 1);
    }
  }

  lemma {:induction false} DaysBeforeYearGrows(y1: int, y2: int)
    requires y1 < y2
    ensures DaysBeforeYear(y2) >= DaysBeforeYear(y1) + YearLength(y1)
    decreases y2 - y1
  {
    NextYearStart(y2 - 1);
    if y2 > y1 + 1 {
      DaysBeforeYearGrows(y1, y2 - 1);
    }
  }

  /** The day numbering is strictly increasing in calendar order, so comparing day numbers
      (as `getTime()` does) and comparing (year, month, day) agree. */
  lemma DayNumberMonotone(a: Date, b: Date)
    requires ValidDate(a) && ValidDate(b) && Before(a, b)
    ensures DayNumber(a) < DayNumber(b)
  {
    if a.year < b.year {
      DayOfYearBelowLength(a);
      DaysBeforeMonthNonNegative(b.year, b.month);
      DaysBeforeYearGrows(a.year, b.year);
    } else if a.month < b.month {
      DaysBeforeMonthGrows(a.year, a.month, b.month);
    }
  }

  /** Position of a month on a continuous month scale. */
  function MonthIndex(ym: YearMonth): int {
    ym.year * 12 + ym.month
  }

  predicate ValidYearMonth(ym: YearMonth) {
    0 <= ym.month < 12
  }

  /** The month with a given position on the month scale. */
  function MonthAt(k: int): (ym: YearMonth)
    ensures ValidYearMonth(ym) && MonthIndex(ym) == k
  {
    YearMonth(k / 12, k % 12)
  }

  /** `setMonth(getMonth() + 1)` on the first day of a month. */
  function NextMonth(ym: YearMonth): (r: YearMonth)
    requires ValidYearMonth(ym)
    ensures ValidYearMonth(r) && MonthIndex(r) == MonthIndex(ym) + 1
  {
    if ym.month == 11 then YearMonth(ym.year + 1, 0) else YearMonth(ym.year, ym.month + 1)
  }

  /** A valid month is determined by its position. */
  lemma MonthAtIndex(ym: YearMonth)
    requires ValidYearMonth(ym)
    ensures MonthAt(MonthIndex(ym)) == ym
  {
    var k := MonthIndex(ym);
    assert k == 12 * ym.year + ym.month;
    assert k / 12 == ym.year && k % 12 == ym.month;
  }
}
