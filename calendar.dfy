/**
 * Proleptic Gregorian calendar arithmetic on plain integers.
 *
 * The library normalises dates by handing them to the JavaScript `Date`
 * object. Here that job is done by an explicit day count: every valid
 * (year, 0-based month, day) triple gets a consecutive day number, and
 * normalisation is the unique valid triple with the same day number.
 */
module Calendar {

  /** The Gregorian leap year rule. */
  predicate IsLeapYear(year: int) {
    year % 4 == 0 && (year % 100 != 0 || year % 400 == 0)
  }

  /** Days before the first of each 0-based month in a common year; index 12 is the year. */
  function CommonDaysBefore(month: int): int
    requires 0 <= month <= 12
  {
    match month
    case 0 => 0
    case 1 => 31
    case 2 => 59
    case 3 => 90
    case 4 => 120
    case 5 => 151
    case 6 => 181
    case 7 => 212
    case 8 => 243
    case 9 => 273
    case 10 => 304
    case 11 => 334
    case _ => 365
  }

  function DaysInYear(year: int): (n: int)
    ensures n == 365 || n == 366
    ensures n == 366 <==> IsLeapYear(year)
  {
    if IsLeapYear(year) then 366 else 365
  }

  /** The length of a 0-based month, February depending on the leap year rule. */
  function DaysInMonth(year: int, month: int): (n: int)
    requires 0 <= month < 12
    ensures 28 <= n <= 31
    ensures n == 29 <==> (month == 1 && IsLeapYear(year))
    ensures month != 1 ==> n == CommonDaysBefore(month + 1) - CommonDaysBefore(month)
  {
    if month == 1 then (if IsLeapYear(year) then 29 else 28)
    else if month == 3 || month == 5 || month == 8 || month == 10 then 30
    else 31
  }

  /** Days of the year that come before the first of the month (month 12: the whole year). */
  function DaysBeforeMonth(year: int, month: int): int
    requires 0 <= month <= 12
  {
    CommonDaysBefore(month) + (if month >= 2 && IsLeapYear(year) then 1 else 0)
  }

  lemma MonthStep(year: int, month: int)
    requires 0 <= month < 12
    ensures DaysBeforeMonth(year, month + 1) == DaysBeforeMonth(year, month) + DaysInMonth(year, month)
    ensures DaysBeforeMonth(year, 12) == DaysInYear(year)
  {
  }

  /** Number of leap years in the half-open range [0, year). */
  function LeapYearsBefore(year: int): int {
    (year + 3) / 4 - (year + 99) / 100 + (year + 399) / 400
  }

  lemma {:induction false} LeapYearsStep(year: int)
    ensures LeapYearsBefore(year + 1) == LeapYearsBefore(year) + (if IsLeapYear(year) then 1 else 0)
  {
    QuarterStep(year);
    CenturyStep(year);
    QuadCenturyStep(year);
    Divisibility(year);
    var quarters := (year + 4) / 4 - (year + 3) / 4;
    var centuries := (year + 100) / 100 - (year + 99) / 100;
    var quadCenturies := (year + 400) / 400 - (year + 399) / 400;
    assert LeapYearsBefore(year + 1) - LeapYearsBefore(year) == quarters - centuries + quadCenturies;
  }

  /** A multiple of 400 is one of 100, and a multiple of 100 one of 4. */
  lemma Divisibility(year: int)
    ensures year % 400 == 0 ==> year % 100 == 0
    ensures year % 100 == 0 ==> year % 4 == 0
  {
    if year % 400 == 0 {
      HundredsOfMultiple(4 * (year / 400));
    }
    if year % 100 == 0 {
      QuartersOfMultiple(25 * (year / 100));
    }
  }

  lemma HundredsOfMultiple(k: int)
    ensures (100 * k) % 100 == 0
  {
  }

  lemma QuartersOfMultiple(k: int)
    ensures (4 * k) % 4 == 0
  {
  }

  /** One more year adds a multiple of 4 exactly when the year is one. */
  lemma QuarterStep(year: int)
    ensures (year + 4) / 4 - (year + 3) / 4 == (if year % 4 == 0 then 1 else 0)
  {
  }

  lemma CenturyStep(year: int)
    ensures (year + 100) / 100 - (year + 99) / 100 == (if year % 100 == 0 then 1 else 0)
  {
  }

  lemma QuadCenturyStep(year: int)
    ensures (year + 400) / 400 - (year + 399) / 400 == (if year % 400 == 0 then 1 else 0)
  {
  }

  /** Day number of January 1 of the year. */
  function YearStart(year: int): int {
    365 * year + LeapYearsBefore(year)
  }

  lemma YearStep(year: int)
    ensures YearStart(year + 1) == YearStart(year) + DaysInYear(year)
  {
    LeapYearsStep(year);
  }

  /**
   * Day number of the triple; the day may lie outside the month, in which case
   * it counts on from the first of the month.
   */
  function DayNumber(year: int, month: int, day: int): int
    requires 0 <= month < 12
  {
    YearStart(year) + DaysBeforeMonth(year, month) + day - 1
  }

  predicate IsValidDate(year: int, month: int, day: int) {
    0 <= month < 12 && 1 <= day <= DaysInMonth(year, month)
  }

  /** The month after (year, month) and the month before it. */
  function NextMonth(year: int, month: int): (r: (int, int))
    requires 0 <= month < 12
    ensures 0 <= r.1 < 12
  {
    if month == 11 then (year + 1, 0) else (year, month + 1)
  }

  function PrevMonth(year: int, month: int): (r: (int, int))
    requires 0 <= month < 12
    ensures 0 <= r.1 < 12
    ensures NextMonth(r.0, r.1) == (year, month)
  {
    if month == 0 then (year - 1, 11) else (year, month - 1)
  }

  /** Counting on past the end of a month is counting from the first of the next one. */
  lemma NextMonthDayNumber(year: int, month: int, day: int)
    requires 0 <= month < 12
    ensures var (ny, nm) := NextMonth(year, month);
      DayNumber(ny, nm, day - DaysInMonth(year, month)) == DayNumber(year, month, day)
  {
    MonthStep(year, month);
    if month == 11 {
      YearStep(year);
    }
  }

  /**
   * Moves a day that lies outside its month into the right month, as JavaScript's
   * `Date` does for `new Date(year, month, day)`.
   */
  function NormalizeDay(year: int, month: int, day: int): (r: (int, int, int))
    requires 0 <= month < 12
    ensures IsValidDate(r.0, r.1, r.2)
    ensures DayNumber(r.0, r.1, r.2) == DayNumber(year, month, day)
    decreases if day < 1 then 1 else 0, if day < 1 then -day else day
  {
    if day < 1 then
      var (py, pm) := PrevMonth(year, month);
      NextMonthDayNumber(py, pm, day + DaysInMonth(py, pm));
      NormalizeDay(py, pm, day + DaysInMonth(py, pm))
    else if day > DaysInMonth(year, month) then
      var (ny, nm) := NextMonth(year, month);
      NextMonthDayNumber(year, month, day);
      NormalizeDay(ny, nm, day - DaysInMonth(year, month))
    else
      (year, month, day)
  }

  /**
   * Full normalisation of any integer triple: the month is carried into the year
   * with floor division, then the day into the month.
   */
  function Normalize(year: int, month: int, day: int): (r: (int, int, int))
    ensures IsValidDate(r.0, r.1, r.2)
    ensures DayNumber(r.0, r.1, r.2) == DayNumber(year + month / 12, month % 12, day)
    ensures IsValidDate(year, month, day) ==> r == (year, month, day)
  {
    MonthCarry(month);
    NormalizeDay(year + month / 12, month % 12, day)
  }

  lemma MonthCarry(month: int)
    ensures 0 <= month % 12 < 12
    ensures 0 <= month < 12 ==> month / 12 == 0 && month % 12 == month
  {
  }

  /** A valid date lies inside its own year's range of day numbers. */
  lemma DayNumberInYear(year: int, month: int, day: int)
    requires IsValidDate(year, month, day)
    ensures YearStart(year) <= DayNumber(year, month, day) < YearStart(year + 1)
  {
    YearStep(year);
    MonthStep(year, month);
    assert DaysBeforeMonth(year, month + 1) <= DaysBeforeMonth(year, 12);
  }

  lemma {:induction false} YearStartMonotone(a: int, b: int)
    requires a <= b
    ensures YearStart(a) <= YearStart(b)
    decreases b - a
  {
    if a < b {
      YearStep(a);
      YearStartMonotone(a + 1, b);
    }
  }

  /** The calendar order of valid dates is the order of their day numbers. */
  lemma DayNumberOrder(y1: int, m1: int, d1: int, y2: int, m2: int, d2: int)
    requires IsValidDate(y1, m1, d1) && IsValidDate(y2, m2, d2)
    requires y1 < y2 || (y1 == y2 && m1 < m2) || (y1 == y2 && m1 == m2 && d1 < d2)
    ensures DayNumber(y1, m1, d1) < DayNumber(y2, m2, d2)
  {
    if y1 < y2 {
      DayNumberInYear(y1, m1, d1);
      DayNumberInYear(y2, m2, d2);
      YearStartMonotone(y1 + 1, y2);
    } else if m1 < m2 {
      MonthStep(y1, m1);
      assert DaysBeforeMonth(y1, m1 + 1) <= DaysBeforeMonth(y1, m2);
    }
  }

  /** Day numbers identify valid dates. */
  lemma DayNumberInjective(y1: int, m1: int, d1: int, y2: int, m2: int, d2: int)
    requires IsValidDate(y1, m1, d1) && IsValidDate(y2, m2, d2)
    requires DayNumber(y1, m1, d1) == DayNumber(y2, m2, d2)
    ensures y1 == y2 && m1 == m2 && d1 == d2
  {
    if y1 < y2 || (y1 == y2 && m1 < m2) || (y1 == y2 && m1 == m2 && d1 < d2) {
      DayNumberOrder(y1, m1, d1, y2, m2, d2);
    } else if y2 < y1 || (y1 == y2 && m2 < m1) || (y1 == y2 && m1 == m2 && d2 < d1) {
      DayNumberOrder(y2, m2, d2, y1, m1, d1);
    }
  }

  /**
   * Day of the week, 0 = Sunday, anchored so that January 1 1970 is a Thursday.
   */
  function DayOfWeek(year: int, month: int, day: int): (w: int)
    requires 0 <= month < 12
    ensures 0 <= w < 7
  {
    (DayNumber(year, month, day) + 6) % 7
  }

  lemma KnownWeekdays()
    ensures DayOfWeek(1970, 0, 1) == 4
    ensures DayOfWeek(2020, 1, 29) == 6
    ensures DayOfWeek(2021, 0, 1) == 5
  {
  }

  /** `new Date(year, 1, 29)` stays in February exactly in leap years. */
  lemma FebruaryTwentyNinth(year: int)
    ensures Normalize(year, 1, 29) == if IsLeapYear(year) then (year, 1, 29) else (year, 2, 1)
  {
    assert 1 / 12 == 0 && 1 % 12 == 1;
    if !IsLeapYear(year) {
      assert NormalizeDay(year, 2, 1) == (year, 2, 1);
    }
  }
}
