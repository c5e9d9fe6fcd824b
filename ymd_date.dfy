/**
 * Day-based helpers of `YMDDate` that the occurrence engine relies on: the
 * day of the month pinned into its month, and the n-th given weekday counted
 * from the start or from the end of a month or of a year.  The dates are the
 * same `DatePart` values as in the `DatePart` module; adding days, months and
 * years is `DatePart.AddDays`, `DatePart.AddMonthsSpec` and `DatePart.AddYearsSpec`.
 */
module YmdDate {
  import opened DatePart
  import Calendar

  /** Adding days moves the weekday on by the same number of days, modulo 7. */
  lemma WeekdayAfter(p: DatePart, k: int)
    requires Valid(p)
    ensures Valid(AddDays(p, k))
    ensures DayOfWeek(AddDays(p, k)) == (DayOfWeek(p) + k) % 7
  {
    WeekdayOfLater(p, AddDays(p, k), k);
  }

  lemma WeekdayOfLater(p: DatePart, q: DatePart, k: int)
    requires 0 <= p.month < 12 && 0 <= q.month < 12 && DayNumber(q) == DayNumber(p) + k
    ensures DayOfWeek(q) == (DayOfWeek(p) + k) % 7
  {
    assert DayOfWeek(q) == (DayNumber(q) + 6) % 7;
    assert DayOfWeek(p) == (DayNumber(p) + 6) % 7;
    ModSevenShift(DayNumber(p), DayNumber(q), k);
  }

  lemma ModSevenShift(a: int, b: int, k: int)
    requires b == a + k
    ensures (b + 6) % 7 == ((a + 6) % 7 + k) % 7
  {
    assert a + 6 == 7 * ((a + 6) / 7) + (a + 6) % 7;
  }

  /** Stepping from weekday `w` by `(dow - w) mod 7` plus whole weeks lands on `dow`. */
  lemma ForwardToWeekday(w: int, dow: int, weeks: int)
    requires 0 <= w < 7 && 0 <= dow < 7
    ensures (w + ((dow - w) % 7 + 7 * weeks)) % 7 == dow
  {
    var s := (dow - w) % 7;
    assert s == dow - w || s == dow - w + 7;
    assert w + (s + 7 * weeks) == dow + 7 * (weeks + (s - (dow - w)) / 7);
  }

  /** Stepping back from weekday `w` by `(w - dow) mod 7` plus whole weeks lands on `dow`. */
  lemma BackToWeekday(w: int, dow: int, weeks: int)
    requires 0 <= w < 7 && 0 <= dow < 7
    ensures (w + -((w - dow) % 7 + 7 * weeks)) % 7 == dow
  {
    var s := (w - dow) % 7;
    assert s == w - dow || s == w - dow + 7;
    assert w - (s + 7 * weeks) == dow + 7 * (-weeks - (s - (w - dow)) / 7);
  }

  /**
   * `getYMDDateWithDOM`: the same month with the day of the month set to `dom`,
   * pinned to the first or the last day of the month when `dom` lies outside it.
   */
  function WithDayOfMonth(d: DatePart, dom: int): (r: DatePart)
    requires 0 <= d.month < 12
    ensures Valid(r) && r.year == d.year && r.month == d.month
    ensures 1 <= dom <= LastDayOfMonth(d) ==> r.dayOfMonth == dom
    ensures dom < 1 ==> r.dayOfMonth == 1
    ensures dom > LastDayOfMonth(d) ==> r.dayOfMonth == LastDayOfMonth(d)
  {
    var last := LastDayOfMonth(d);
    DatePart(d.year, d.month, if dom < 1 then 1 else if dom > last then last else dom)
  }

  /** The `n`-th `dow` on or after `first`, or for negative `n` the `-n`-th on or before it. */
  function NthWeekdayFrom(first: DatePart, n: int, dow: int): (r: DatePart)
    requires Valid(first) && n != 0 && 0 <= dow < 7
    ensures Valid(r) && DayOfWeek(r) == dow
    ensures n > 0 ==> DayNumber(first) + 7 * (n - 1) <= DayNumber(r) < DayNumber(first) + 7 * n
    ensures n < 0 ==> DayNumber(first) - 7 * -n < DayNumber(r) <= DayNumber(first) - 7 * (-n - 1)
  {
    var w := DayOfWeek(first);
    if n > 0 then
      var delta := (dow - w) % 7 + 7 * (n - 1);
      StepForward(first, delta, dow, n - 1);
      AddDays(first, delta)
    else
      var delta := -((w - dow) % 7 + 7 * (-n - 1));
      StepBack(first, delta, dow, -n - 1);
      AddDays(first, delta)
  }

  lemma StepForward(first: DatePart, delta: int, dow: int, weeks: int)
    requires Valid(first) && 0 <= dow < 7 && weeks >= 0
    requires delta == (dow - DayOfWeek(first)) % 7 + 7 * weeks
    ensures Valid(AddDays(first, delta)) && DayOfWeek(AddDays(first, delta)) == dow
    ensures DayNumber(first) + 7 * weeks <= DayNumber(AddDays(first, delta)) < DayNumber(first) + 7 * weeks + 7
  {
    var ahead := (dow - DayOfWeek(first)) % 7;
    assert DayNumber(AddDays(first, delta)) == DayNumber(first) + ahead + 7 * weeks by {
      WeekdayAfter(first, delta);
    }
    WeekdayAfter(first, delta);
    ForwardToWeekday(DayOfWeek(first), dow, weeks);
  }

  lemma StepBack(first: DatePart, delta: int, dow: int, weeks: int)
    requires Valid(first) && 0 <= dow < 7 && weeks >= 0
    requires delta == -((DayOfWeek(first) - dow) % 7 + 7 * weeks)
    ensures Valid(AddDays(first, delta)) && DayOfWeek(AddDays(first, delta)) == dow
    ensures DayNumber(first) - 7 * weeks - 7 < DayNumber(AddDays(first, delta)) <= DayNumber(first) - 7 * weeks
  {
    var back := (DayOfWeek(first) - dow) % 7;
    assert DayNumber(AddDays(first, delta)) == DayNumber(first) - back - 7 * weeks by {
      WeekdayAfter(first, delta);
    }
    WeekdayAfter(first, delta);
    BackToWeekday(DayOfWeek(first), dow, weeks);
  }

  function FirstOfMonth(d: DatePart): (r: DatePart)
    requires 0 <= d.month < 12
    ensures Valid(r) && r.year == d.year && r.month == d.month && r.dayOfMonth == 1
  {
    DatePart(d.year, d.month, 1)
  }

  function LastOfMonth(d: DatePart): (r: DatePart)
    requires 0 <= d.month < 12
    ensures Valid(r) && r.year == d.year && r.month == d.month && r.dayOfMonth == LastDayOfMonth(d)
  {
    DatePart(d.year, d.month, LastDayOfMonth(d))
  }

  /**
   * `getMonthNthDayOfWeek`: for `n > 0` the `n`-th `dow` counted from the first
   * of `d`'s month, for `n < 0` the `-n`-th counted back from its last day; the
   * result may fall outside the month.
   */
  function MonthNthDayOfWeek(d: DatePart, n: int, dow: int): (r: DatePart)
    requires 0 <= d.month < 12 && n != 0 && 0 <= dow < 7
    ensures Valid(r) && DayOfWeek(r) == dow
    ensures n > 0 ==> DayNumber(FirstOfMonth(d)) + 7 * (n - 1) <= DayNumber(r) < DayNumber(FirstOfMonth(d)) + 7 * n
    ensures n < 0 ==> DayNumber(LastOfMonth(d)) - 7 * -n < DayNumber(r) <= DayNumber(LastOfMonth(d)) - 7 * (-n - 1)
  {
    NthWeekdayFrom(if n > 0 then FirstOfMonth(d) else LastOfMonth(d), n, dow)
  }

  /**
   * `getYearNthDayOfWeek`: as `MonthNthDayOfWeek`, counted from January 1 or
   * back from December 31 of `d`'s year, each of which is occurrence 1 of its
   * own weekday.
   */
  function YearNthDayOfWeek(d: DatePart, n: int, dow: int): (r: DatePart)
    requires n != 0 && 0 <= dow < 7
    ensures Valid(r) && DayOfWeek(r) == dow
    ensures var jan1 := DayNumber(DatePart(d.year, 0, 1));
      n > 0 ==> jan1 + 7 * (n - 1) <= DayNumber(r) < jan1 + 7 * n
    ensures var dec31 := DayNumber(DatePart(d.year, 11, 31));
      n < 0 ==> dec31 - 7 * -n < DayNumber(r) <= dec31 - 7 * (-n - 1)
  {
    NthWeekdayFrom(if n > 0 then DatePart(d.year, 0, 1) else DatePart(d.year, 11, 31), n, dow)
  }

  /** The n-th weekday is the only day with that weekday in its seven-day window. */
  lemma NthWeekdayUnique(first: DatePart, n: int, dow: int, x: DatePart)
    requires Valid(first) && n > 0 && 0 <= dow < 7
    requires Valid(x) && DayOfWeek(x) == dow
    requires DayNumber(first) + 7 * (n - 1) <= DayNumber(x) < DayNumber(first) + 7 * n
    ensures x == NthWeekdayFrom(first, n, dow)
  {
    var r := NthWeekdayFrom(first, n, dow);
    SameWeekdaySameWeek(x, r, DayNumber(first) + 7 * (n - 1));
  }

  /** Two valid dates with the same weekday in the same seven-day window are the same date. */
  lemma SameWeekdaySameWeek(x: DatePart, r: DatePart, lo: int)
    requires Valid(x) && Valid(r) && DayOfWeek(x) == DayOfWeek(r)
    requires lo <= DayNumber(x) < lo + 7 && lo <= DayNumber(r) < lo + 7
    ensures x == r
  {
    var a, b := DayNumber(x), DayNumber(r);
    assert DayOfWeek(x) == (a + 6) % 7;
    assert DayOfWeek(r) == (b + 6) % 7;
    SameWeekdayClose(a, b);
    Calendar.DayNumberInjective(x.year, x.month, x.dayOfMonth, r.year, r.month, r.dayOfMonth);
  }

  lemma SameWeekdayClose(a: int, b: int)
    requires (a + 6) % 7 == (b + 6) % 7 && -7 < a - b < 7
    ensures a == b
  {
    assert a + 6 == 7 * ((a + 6) / 7) + (a + 6) % 7;
    assert b + 6 == 7 * ((b + 6) / 7) + (b + 6) % 7;
  }

  /** 2020-02-29 (a Saturday): the 2nd Sunday of February 2020 is 2020-02-09. */
  lemma SecondSundayOfFebruary2020()
    ensures MonthNthDayOfWeek(DatePart(2020, 1, 29), 2, 0) == DatePart(2020, 1, 9)
  {
    var x := DatePart(2020, 1, 9);
    assert DayOfWeek(x) == 0;
    assert DayNumber(x) == DayNumber(DatePart(2020, 1, 1)) + 8;
    NthWeekdayUnique(FirstOfMonth(DatePart(2020, 1, 29)), 2, 0, x);
  }
}
