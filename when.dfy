/**
 * When.js: a "when" is a start date, an optional number of days it lasts, an
 * optional start time and an optional number of milliseconds the time part
 * lasts.  This module models copying a when, working out where it finishes,
 * ordering whens by start and by finish, and the repairs `cleanWhen` makes.
 */
module When {
  import opened Wrappers
  import JsMath
  import Calendar
  import DP = DatePart
  import TP = TimePart

  /**
   * A duration property as received: missing, a number, or something else,
   * which `cleanWhen` treats differently depending on whether it is truthy.
   */
  datatype Duration = Undefined | Number(value: int) | NonNumber(truthy: bool)

  /** A when object as received. */
  datatype WhenFields = WhenFields(
    startDatePart: Option<DP.DatePartFields>,
    daysDuration: Duration,
    startTimePart: Option<TP.TimePartFields>,
    millisecondsDuration: Duration)

  /** A duration is kept by `cloneWhen` only when it is a number. */
  function NumberOnly(d: Duration): Duration {
    if d.Number? then d else Undefined
  }

  /**
   * `cloneWhen`: the two parts are copied and the durations kept only when
   * they are numbers.
   */
  function CloneWhen(when: Option<WhenFields>): (r: Option<WhenFields>)
    ensures r.None? <==> when.None?
    ensures r.Some? ==>
      && r.value.startDatePart == when.value.startDatePart
      && r.value.startTimePart == when.value.startTimePart
      && (r.value.daysDuration.Number? <==> when.value.daysDuration.Number?)
      && (r.value.daysDuration.Number? ==> r.value.daysDuration == when.value.daysDuration)
      && (!r.value.daysDuration.Number? ==> r.value.daysDuration == Undefined)
      && (r.value.millisecondsDuration.Number? <==> when.value.millisecondsDuration.Number?)
      && (r.value.millisecondsDuration.Number? ==> r.value.millisecondsDuration == when.value.millisecondsDuration)
      && (!r.value.millisecondsDuration.Number? ==> r.value.millisecondsDuration == Undefined)
  {
    match when
    case None => None
    case Some(w) => Some(WhenFields(w.startDatePart, NumberOnly(w.daysDuration), w.startTimePart, NumberOnly(w.millisecondsDuration)))
  }

  /** Cloning a clone changes nothing. */
  lemma CloneIdempotent(when: Option<WhenFields>)
    ensures CloneWhen(CloneWhen(when)) == CloneWhen(when)
  {
  }

  // ---------------------------------------------------------------------
  // A when whose fields are all numbers

  /**
   * A when as `cleanWhen` leaves it, with each present field a number; the
   * finish and comparison functions take this form.
   */
  datatype When = When(startDate: DP.DatePart, daysDuration: Option<int>, startTime: Option<TP.TimePart>, msDuration: Option<int>)

  /** A date with an optional time: where a when starts or finishes. */
  datatype DateAndTime = DateAndTime(date: DP.DatePart, time: Option<TP.TimePart>)

  /** A time of day as `cleanWhen` requires it: no negative field, hours below 24. */
  predicate TimeOfDay(t: TP.TimePart) {
    TP.NonNegative(t) && TP.InRange(t) && t.hours < 24
  }

  /** A when that `cleanWhen` would leave alone, in the all-numbers form. */
  predicate Proper(w: When) {
    && DP.Valid(w.startDate)
    && (w.daysDuration.Some? ==> w.daysDuration.value >= 0)
    && (w.startTime.Some? ==> TimeOfDay(w.startTime.value))
    && (w.msDuration.Some? ==> w.msDuration.value >= 0)
  }

  /** The day count the days duration adds to the start date: one less than the duration, never negative. */
  function DayOffset(w: When): (r: int)
    ensures r >= 0
    ensures w.daysDuration.None? || w.daysDuration.value <= 1 ==> r == 0
  {
    if w.daysDuration.Some? && w.daysDuration.value > 0 then w.daysDuration.value - 1 else 0
  }

  /** Whether the when has a positive millisecond duration. */
  predicate HasTimeDuration(w: When) {
    w.msDuration.Some? && w.msDuration.value > 0
  }

  /**
   * Where a when finishes (`getFinishParts`).  The finish date is the start
   * date moved by the days duration less one, or, when the start time plus the
   * millisecond duration runs past midnight, by the number of days it runs
   * over, whichever is later.  There is a finish time only when there is a
   * start time: the start time itself without a millisecond duration,
   * otherwise the start time plus the duration, reduced to within a day.
   */
  function FinishPartsOf(w: When): (r: DateAndTime)
    ensures w.startTime.None? ==> r.time.None?
    ensures w.startTime.Some? && !HasTimeDuration(w) ==> r.time == w.startTime
    ensures DP.Valid(w.startDate) ==> DP.Valid(r.date)
    ensures DP.Valid(w.startDate) && !(w.startTime.Some? && HasTimeDuration(w)) ==>
      DP.DayNumber(r.date) == DP.DayNumber(w.startDate) + DayOffset(w)
  {
    if w.startTime.None? then DateAndTime(DaysFinish(w), None)
    else if !HasTimeDuration(w) then DateAndTime(DaysFinish(w), w.startTime)
    else TimedFinish(w)
  }

  /** The finish date the days duration alone gives. */
  function DaysFinish(w: When): (r: DP.DatePart)
    ensures DP.Valid(w.startDate) ==> DP.Valid(r) && DP.DayNumber(r) == DP.DayNumber(w.startDate) + DayOffset(w)
  {
    if w.daysDuration.Some? && w.daysDuration.value > 0 then DP.AddDays(w.startDate, w.daysDuration.value - 1) else w.startDate
  }

  /**
   * The finish of a when with a start time and a positive millisecond
   * duration, given the date the days duration reaches and the cleaned sum
   * `ft` of the start time and the duration: hours past a day move the date
   * on if that makes it later.
   */
  function FinishWithDuration(startDate: DP.DatePart, byDays: DP.DatePart, ft: TP.TimePart): DateAndTime {
    if ft.hours >= 24 then
      DateAndTime(Later(byDays, DP.AddDays(startDate, JsMath.FloorDiv(ft.hours, 24))),
        Some(ft.(hours := ft.hours - JsMath.FloorDiv(ft.hours, 24) * 24)))
    else
      DateAndTime(byDays, Some(ft))
  }

  /**
   * `r` is where a when finishes that starts on `start`, whose days duration
   * reaches `offset` days later, and whose time part ends `end` milliseconds
   * after the start of the start date: the finish time is `end` within its
   * day, and the finish date is the later of the two.
   */
  predicate FinishAfter(start: DP.DatePart, offset: int, end: int, r: DateAndTime) {
    && r.time.Some? && TimeOfDay(r.time.value)
    && TP.Total(r.time.value) == end % 86400000
    && DP.Valid(start) && DP.Valid(r.date)
    && DP.DayNumber(r.date) == DP.DayNumber(start) + JsMath.Max(offset, end / 86400000)
  }

  /**
   * A when with a proper start time and a positive millisecond duration
   * finishes `FinishAfter` its start: the time is the start time plus the
   * duration within its day, the date the later of the two candidates.
   */
  lemma FinishOfTimedWhen(w: When, end: int, r: DateAndTime)
    requires DP.Valid(w.startDate) && w.startTime.Some? && TimeOfDay(w.startTime.value) && HasTimeDuration(w)
    requires end == TP.Total(w.startTime.value) + w.msDuration.value && r == FinishPartsOf(w)
    ensures FinishAfter(w.startDate, DayOffset(w), end, r)
  {
    TimedFinishIs(w, r);
    TimedFinishAfter(w, end, r);
  }

  /** With a start time and a positive millisecond duration, the finish is the timed finish. */
  lemma TimedFinishIs(w: When, r: DateAndTime)
    requires w.startTime.Some? && HasTimeDuration(w) && r == FinishPartsOf(w)
    ensures r == TimedFinish(w)
  {
  }

  /** `FinishOfTimedWhen` for the timed finish itself. */
  lemma TimedFinishAfter(w: When, end: int, r: DateAndTime)
    requires DP.Valid(w.startDate) && w.startTime.Some? && TimeOfDay(w.startTime.value) && HasTimeDuration(w)
    requires end == TP.Total(w.startTime.value) + w.msDuration.value && r == TimedFinish(w)
    ensures FinishAfter(w.startDate, DayOffset(w), end, r)
  {
    ShiftedFinishAfter(w.startDate, DayOffset(w), DaysFinish(w), w.startTime.value, w.msDuration.value, end, r);
  }

  /** The finish of a when with a start time and a millisecond duration. */
  function TimedFinish(w: When): DateAndTime
    requires w.startTime.Some? && w.msDuration.Some?
  {
    FinishWithDuration(w.startDate, DaysFinish(w), TP.Carried(TP.TimePart(w.startTime.value.hours, w.startTime.value.minutes, w.startTime.value.seconds, w.startTime.value.milliseconds + w.msDuration.value)))
  }

  lemma ShiftedFinishAfter(start: DP.DatePart, offset: int, byDays: DP.DatePart, t: TP.TimePart, ms: int,
                           end: int, r: DateAndTime)
    requires DP.Valid(start) && DP.Valid(byDays) && DP.DayNumber(byDays) == DP.DayNumber(start) + offset && offset >= 0
    requires TimeOfDay(t) && ms > 0 && end == TP.Total(t) + ms
    requires r == FinishWithDuration(start, byDays, TP.Carried(TP.TimePart(t.hours, t.minutes, t.seconds, t.milliseconds + ms)))
    ensures FinishAfter(start, offset, end, r)
  {
    var ft := TP.Carried(TP.TimePart(t.hours, t.minutes, t.seconds, t.milliseconds + ms));
    ShiftedTime(t, ms, ft);
    FinishWithin(start, offset, byDays, ft, end, r);
  }

  /**
   * The start time with the millisecond duration added to its milliseconds,
   * cleaned, is a time in range whose millisecond count is the sum.
   */
  lemma ShiftedTime(t: TP.TimePart, ms: int, r: TP.TimePart)
    requires r == TP.Carried(TP.TimePart(t.hours, t.minutes, t.seconds, t.milliseconds + ms))
    ensures TP.InRange(r) && TP.Total(r) == TP.Total(t) + ms
    ensures TP.NonNegative(t) && ms > 0 ==> TP.NonNegative(r)
  {
    assert TP.Total(TP.TimePart(t.hours, t.minutes, t.seconds, t.milliseconds + ms)) == TP.Total(t) + ms;
  }

  /** `FinishWithDuration` on a proper start date, days-duration date and shifted time. */
  lemma FinishWithin(start: DP.DatePart, offset: int, byDays: DP.DatePart, ft: TP.TimePart, end: int, r: DateAndTime)
    requires DP.Valid(start) && DP.Valid(byDays) && DP.DayNumber(byDays) == DP.DayNumber(start) + offset && offset >= 0
    requires TP.NonNegative(ft) && TP.InRange(ft) && TP.Total(ft) == end
    requires r == FinishWithDuration(start, byDays, ft)
    ensures FinishAfter(start, offset, end, r)
  {
    HourSplit(ft);
    if ft.hours >= 24 {
      FoldedFinishTime(ft, end, JsMath.FloorDiv(ft.hours, 24));
      LaterIsMax(byDays, DP.AddDays(start, JsMath.FloorDiv(ft.hours, 24)));
    }
  }

  /** The finish time of a when running past midnight: the whole days go, the time within the day stays. */
  lemma FoldedFinishTime(ft: TP.TimePart, end: int, timeDays: int)
    requires TP.NonNegative(ft) && TP.InRange(ft) && TP.Total(ft) == end
    requires timeDays == JsMath.FloorDiv(ft.hours, 24)
    ensures TimeOfDay(ft.(hours := ft.hours - timeDays * 24))
    ensures TP.Total(ft.(hours := ft.hours - timeDays * 24)) == end % 86400000
    ensures end / 86400000 == timeDays
  {
    HourSplit(ft);
  }

  /** The later of two dates, as `getFinishParts` picks the finish date. */
  function Later(a: DP.DatePart, b: DP.DatePart): DP.DatePart {
    if DP.CompareDateParts(Some(a), Some(b)) < 0 then b else a
  }

  /** Of two proper dates, `Later` is the one with the larger day number. */
  lemma LaterIsMax(a: DP.DatePart, b: DP.DatePart)
    requires DP.Valid(a) && DP.Valid(b)
    ensures DP.Valid(Later(a, b)) && DP.DayNumber(Later(a, b)) == JsMath.Max(DP.DayNumber(a), DP.DayNumber(b))
  {
    DayOrder(a, b);
  }

  /**
   * A time with no negative field and minutes, seconds and milliseconds in
   * range splits at its hours: whole days are the hours over 24, and the
   * rest of the day is the time with its hours reduced below 24.
   */
  lemma HourSplit(t: TP.TimePart)
    requires TP.NonNegative(t) && TP.InRange(t)
    ensures TP.Total(t) / 86400000 == t.hours / 24 == JsMath.FloorDiv(t.hours, 24)
    ensures TP.Total(t) % 86400000 == TP.Total(t.(hours := t.hours % 24))
    ensures t.hours - JsMath.FloorDiv(t.hours, 24) * 24 == t.hours % 24
  {
    var rest := t.minutes * 60000 + t.seconds * 1000 + t.milliseconds;
    assert 0 <= rest < 3600000;
    var inDay := (t.hours % 24) * 3600000 + rest;
    assert 0 <= inDay < 86400000;
    assert TP.Total(t) == 86400000 * (t.hours / 24) + inDay;
    TP.ModOfMultiple(TP.Total(t), 86400000, t.hours / 24, inDay);
    var q := JsMath.FloorDiv(t.hours, 24);
    TP.DivisionUnique(q, t.hours - 24 * q, t.hours / 24, t.hours % 24, 24);
  }

  /**
   * `getFinishParts`, step by step as When.js does it: the finish date is
   * reassigned when the time part runs past it, and the copied finish time
   * has its hours reduced in place.
   */
  method GetFinishParts(when: Option<When>) returns (r: Option<DateAndTime>)
    ensures r.None? <==> when.None?
    ensures r.Some? ==> r.value == FinishPartsOf(when.value)
  {
    if when.None? {
      return None;
    }
    var w := when.value;
    var finishDate := w.startDate;
    if w.daysDuration.Some? && w.daysDuration.value > 0 {
      finishDate := DP.AddDays(finishDate, w.daysDuration.value - 1);
    }
    assert finishDate == DaysFinish(w);
    var finishTime: Option<TP.TimePart> := None;
    if w.startTime.Some? {
      if w.msDuration.Some? && w.msDuration.value > 0 {
        var finish := ShiftFinish(w.startDate, finishDate, w.startTime.value, w.msDuration.value);
        return Some(finish);
      } else {
        finishTime := w.startTime;
      }
    }
    return Some(DateAndTime(finishDate, finishTime));
  }

  /** The time part `ms` milliseconds after `t`, cleaned. */
  method ShiftTime(t: TP.TimePart, ms: int) returns (r: TP.TimePart)
    ensures r == TP.Carried(TP.TimePart(t.hours, t.minutes, t.seconds, t.milliseconds + ms))
  {
    var moved := TP.TimePart(t.hours, t.minutes, t.seconds, t.milliseconds + ms);
    var cleaned := TP.CleanTimePart(Some(TP.FieldsOf(moved)));
    TP.CleanOfTimePart(moved, cleaned);
    r := cleaned.value.value;
  }

  /**
   * The timed half of getFinishParts: the start time is moved on by the
   * millisecond duration and cleaned, and whole days carried out of the
   * hours push the finish date on when they reach past the days finish.
   */
  method ShiftFinish(startDate: DP.DatePart, byDays: DP.DatePart, t: TP.TimePart, ms: int)
    returns (r: DateAndTime)
    ensures r == FinishWithDuration(startDate, byDays, TP.Carried(TP.TimePart(t.hours, t.minutes, t.seconds, t.milliseconds + ms)))
  {
    var finishDate := byDays;
    var ft := ShiftTime(t, ms);
    if ft.hours >= 24 {
      var timeDays := JsMath.FloorDiv(ft.hours, 24);
      ft := ft.(hours := ft.hours - timeDays * 24);
      var finishDate2 := DP.AddDays(startDate, timeDays);
      if DP.CompareDateParts(Some(finishDate), Some(finishDate2)) < 0 {
        finishDate := finishDate2;
      }
    }
    return DateAndTime(finishDate, Some(ft));
  }

  /** Days durations of 0 and 1 both finish on the start date. */
  lemma DaysDurationZeroAndOneAgree(w: When)
    ensures FinishPartsOf(w.(daysDuration := Some(0))) == FinishPartsOf(w.(daysDuration := Some(1)))
    ensures w.startTime.None? ==> FinishPartsOf(w.(daysDuration := Some(1))) == DateAndTime(w.startDate, None)
  {
    assert DaysFinish(w.(daysDuration := Some(0))) == DaysFinish(w.(daysDuration := Some(1))) == w.startDate;
  }

  /** A proper when does not finish before it starts. */
  lemma FinishNotBeforeStart(w: When)
    requires Proper(w)
    ensures CompareDateAndTime(DateAndTime(w.startDate, w.startTime), FinishPartsOf(w)) <= 0
  {
    if w.startTime.Some? && HasTimeDuration(w) {
      var end := TP.Total(w.startTime.value) + w.msDuration.value;
      FinishOfTimedWhen(w, end, FinishPartsOf(w));
      if end / 86400000 == 0 {
        assert end % 86400000 == end;
      }
    }
  }

  // ---------------------------------------------------------------------
  // Ordering

  /** `a` is earlier than `b`: an earlier date, or the same date and an earlier time, a missing time being earliest. */
  predicate Earlier(a: DateAndTime, b: DateAndTime) {
    && DP.Valid(a.date) && DP.Valid(b.date)
    && (DP.DayNumber(a.date) < DP.DayNumber(b.date) || (a.date == b.date && TP.TimeBefore(a.time, b.time)))
  }

  /** `a` and `b` are at the same point: the same date and the same time, or both without a time. */
  predicate Together(a: DateAndTime, b: DateAndTime) {
    a.date == b.date && TP.SameTime(a.time, b.time)
  }

  /** The date comparison, then the time comparison, that `compareStarts` and `compareFinishes` share. */
  function CompareDateAndTime(a: DateAndTime, b: DateAndTime): (r: int)
    ensures DP.Valid(a.date) && DP.Valid(b.date) ==>
      (r < 0 <==> Earlier(a, b)) && (r == 0 <==> Together(a, b)) && (r > 0 <==> Earlier(b, a))
  {
    var byDate := DP.CompareDateParts(Some(a.date), Some(b.date));
    DayOrder(a.date, b.date);
    if byDate != 0 then byDate
    else TP.CompareTimeParts(TP.OptionalFields(a.time), TP.OptionalFields(b.time))
  }

  /** Date comparison is day order, where the dates are valid. */
  lemma DayOrder(a: DP.DatePart, b: DP.DatePart)
    ensures DP.Valid(a) && DP.Valid(b) ==>
      && (DP.CompareDateParts(Some(a), Some(b)) < 0 <==> DP.DayNumber(a) < DP.DayNumber(b))
      && (DP.CompareDateParts(Some(a), Some(b)) > 0 <==> DP.DayNumber(a) > DP.DayNumber(b))
  {
    if DP.Valid(a) && DP.Valid(b) {
      DP.CompareIsDayOrder(a, b);
      DP.CompareIsDayOrder(b, a);
      DP.CompareAntisymmetric(Some(a), Some(b));
    }
  }

  /**
   * `compareStarts`: a missing when comes before any when; otherwise the start
   * dates, then the start times, a missing start time coming before any time.
   */
  function CompareStarts(a: Option<When>, b: Option<When>): (r: int)
    ensures a.None? && b.None? ==> r == 0
    ensures a.None? && b.Some? ==> r < 0
    ensures a.Some? && b.None? ==> r > 0
    ensures a.Some? && b.Some? && DP.Valid(a.value.startDate) && DP.Valid(b.value.startDate) ==>
      var sa, sb := DateAndTime(a.value.startDate, a.value.startTime), DateAndTime(b.value.startDate, b.value.startTime);
      (r < 0 <==> Earlier(sa, sb)) && (r == 0 <==> Together(sa, sb)) && (r > 0 <==> Earlier(sb, sa))
  {
    if a == b then 0
    else if a.None? then -1
    else if b.None? then 1
    else CompareDateAndTime(DateAndTime(a.value.startDate, a.value.startTime), DateAndTime(b.value.startDate, b.value.startTime))
  }

  /**
   * `compareFinishes`: as `compareStarts`, on where each when finishes.
   */
  function CompareFinishes(a: Option<When>, b: Option<When>): (r: int)
    ensures a.None? && b.None? ==> r == 0
    ensures a.None? && b.Some? ==> r < 0
    ensures a.Some? && b.None? ==> r > 0
    ensures a.Some? && b.Some? && Proper(a.value) && Proper(b.value) ==>
      var fa, fb := FinishPartsOf(a.value), FinishPartsOf(b.value);
      (r < 0 <==> Earlier(fa, fb)) && (r == 0 <==> Together(fa, fb)) && (r > 0 <==> Earlier(fb, fa))
  {
    if a == b then 0
    else if a.None? then -1
    else if b.None? then 1
    else CompareDateAndTime(FinishPartsOf(a.value), FinishPartsOf(b.value))
  }

  /** Swapping the arguments of either comparison changes the sign of the answer. */
  lemma CompareAntisymmetric(a: Option<When>, b: Option<When>)
    ensures CompareStarts(a, b) < 0 <==> CompareStarts(b, a) > 0
    ensures CompareStarts(a, b) == 0 <==> CompareStarts(b, a) == 0
    ensures CompareFinishes(a, b) < 0 <==> CompareFinishes(b, a) > 0
    ensures CompareFinishes(a, b) == 0 <==> CompareFinishes(b, a) == 0
  {
    if a.Some? && b.Some? && a != b {
      var sa, sb := DateAndTime(a.value.startDate, a.value.startTime), DateAndTime(b.value.startDate, b.value.startTime);
      DP.CompareAntisymmetric(Some(sa.date), Some(sb.date));
      TP.CompareAntisymmetric(TP.OptionalFields(sa.time), TP.OptionalFields(sb.time));
      var fa, fb := FinishPartsOf(a.value), FinishPartsOf(b.value);
      DP.CompareAntisymmetric(Some(fa.date), Some(fb.date));
      TP.CompareAntisymmetric(TP.OptionalFields(fa.time), TP.OptionalFields(fb.time));
    }
  }

  /** Without durations a when finishes where it starts, so the two orders agree. */
  lemma NoDurationFinishesAtStart(a: When, b: When)
    requires DayOffset(a) == 0 && !HasTimeDuration(a)
    requires DayOffset(b) == 0 && !HasTimeDuration(b)
    ensures FinishPartsOf(a) == DateAndTime(a.startDate, a.startTime)
    ensures CompareFinishes(Some(a), Some(b)) == CompareStarts(Some(a), Some(b))
  {
  }

  // ---------------------------------------------------------------------
  // cleanWhen

  /** A duration as the finish functions read it: a number or nothing. */
  function NumberValue(d: Duration): Option<int> {
    if d.Number? then Some(d.value) else None
  }

  /** A when object read in the all-numbers form, when its start date fields are all numbers. */
  function AsWhen(w: WhenFields): Option<When> {
    if w.startDatePart.Some? && w.startDatePart.value.year.Some? && w.startDatePart.value.month.Some?
      && w.startDatePart.value.dayOfMonth.Some?
    then
      var f := w.startDatePart.value;
      Some(When(DP.DatePart(f.year.value, f.month.value, f.dayOfMonth.value), NumberValue(w.daysDuration),
        TimeOf(w.startTimePart), NumberValue(w.millisecondsDuration)))
    else None
  }

  /** What `cleanWhen` reports; the localised text and its arguments other than the day count are left out. */
  datatype Message =
    | StartDateMissing
    | StartDateCleaned
    | DaysDurationNegative
    | DaysDurationInvalid
    | StartTimeInvalid
    | StartTimeExceeds24Hours
    | StartTimeCleaned
    | MillisecondsDurationInvalid
    | MillisecondsDurationExceedsDaysDuration(timeDays: int)

  /** A date part object with year, month and day all numbers and forming a real date. */
  predicate CompleteDate(f: DP.DatePartFields) {
    f.year.Some? && f.month.Some? && f.dayOfMonth.Some? && Calendar.IsValidDate(f.year.value, f.month.value, f.dayOfMonth.value)
  }

  /** A time part object with all four fields numbers, forming a time of day. */
  predicate CompleteTime(f: TP.TimePartFields) {
    f.hours.Numeric? && f.minutes.Numeric? && f.seconds.Numeric? && f.milliseconds.Numeric? && TimeOfDay(TP.Filled(f))
  }

  /** The time a time part object stands for, its missing fields 0. */
  function TimeOf(f: Option<TP.TimePartFields>): Option<TP.TimePart> {
    if f.None? then None else Some(TP.Filled(f.value))
  }

  /** The whole days from the start of the start date to the end of the time duration. */
  function TimeDays(t: TP.TimePart, ms: int): int {
    JsMath.FloorDiv(TP.Total(t) + ms, 86400000)
  }

  /**
   * The check `cleanWhen` makes on a millisecond duration over a day: with a
   * start time and a days duration, the days the time part reaches must not
   * be more than the days duration.
   */
  predicate Overruns(days: Duration, ms: Duration, time: Option<TP.TimePart>) {
    time.Some? && days.Number? && ms.Number? && ms.value > 86400000 && TimeDays(time.value, ms.value) > days.value
  }

  /**
   * A when as `cleanWhen` leaves it: a real start date; durations that are
   * missing, falsy, or numbers not below 0; a start time, if any, with every
   * field a number and within a day; and a long millisecond duration that
   * does not reach past the days duration.
   */
  predicate IsClean(w: WhenFields) {
    && w.startDatePart.Some? && CompleteDate(w.startDatePart.value)
    && (w.daysDuration.Number? ==> w.daysDuration.value >= 0) && w.daysDuration != NonNumber(true)
    && (w.startTimePart.Some? ==> CompleteTime(w.startTimePart.value))
    && (w.millisecondsDuration.Number? ==> w.millisecondsDuration.value >= 0) && w.millisecondsDuration != NonNumber(true)
    && !Overruns(w.daysDuration, w.millisecondsDuration, TimeOf(w.startTimePart))
  }

  /**
   * The start date `cleanWhen` settles on: the cleaned start date part; if
   * there is none, the cleaned default, or else today.  `changed` is false
   * when the when's own date part object is kept.
   */
  function StartDateOf(f: Option<DP.DatePartFields>, defaultStart: Option<DP.DatePartFields>, today: DP.DatePart): (r: DP.Cleaned)
    ensures !r.changed <==> f.Some? && CompleteDate(f.value)
    ensures !r.changed ==> DP.FieldsOf(r.value) == f.value
    ensures f.Some? || defaultStart.Some? || DP.Valid(today) ==> DP.Valid(r.value)
  {
    if f.Some? then DP.CleanFields(f.value, today)
    else if defaultStart.Some? then DP.Cleaned(DP.CleanFields(defaultStart.value, today).value, true)
    else DP.Cleaned(today, true)
  }

  /** The days duration after the sign check: negative becomes 0, a truthy non-number is dropped. */
  function CleanDays(d: Duration): (r: Duration)
    ensures r.Number? ==> r.value >= 0
    ensures r != NonNumber(true)
    ensures r == d <==> (d.Number? && d.value >= 0) || d.Undefined? || d == NonNumber(false)
  {
    if d.Number? && d.value < 0 then Number(0)
    else if d == NonNumber(true) then Undefined
    else d
  }

  /** The millisecond duration after its check: negative numbers and truthy non-numbers are dropped. */
  function CleanMs(d: Duration): (r: Duration)
    ensures r.Number? ==> r.value >= 0
    ensures r != NonNumber(true)
    ensures r == d <==> (d.Number? && d.value >= 0) || d.Undefined? || d == NonNumber(false)
  {
    if (d.Number? && d.value < 0) || d == NonNumber(true) then Undefined else d
  }

  /**
   * The start time `cleanWhen` keeps: none for a missing start time part or
   * one that is not a time part or cleans to a negative field; otherwise the
   * cleaned time with whole days taken out of its hours.
   */
  function StartTimeOf(f: Option<TP.TimePartFields>): (r: Option<TP.TimePart>)
    ensures r.Some? ==> f.Some?
  {
    if !TP.IsTimePart(f) then None
    else if !TP.NonNegative(TP.Clean(f).value.value) then None
    else Some(WithinDay(TP.Clean(f).value.value))
  }

  /** A time with its hours reduced below 24, as `cleanWhen` and `getFinishParts` both do it. */
  function WithinDay(t: TP.TimePart): TP.TimePart {
    if t.hours >= 24 then t.(hours := t.hours - JsMath.FloorDiv(t.hours, 24) * 24) else t
  }

  /** What the start time cleaning keeps: a time of day with the millisecond count of the object, within a day. */
  lemma StartTimeKept(f: Option<TP.TimePartFields>)
    ensures StartTimeOf(f).Some? <==> TP.IsTimePart(f) && TP.NonNegative(TP.Carried(TP.Filled(f.value)))
    ensures StartTimeOf(f).Some? ==>
      TimeOfDay(StartTimeOf(f).value) && TP.Total(StartTimeOf(f).value) == TP.Total(TP.Filled(f.value)) % 86400000
  {
    if TP.IsTimePart(f) && TP.NonNegative(TP.Carried(TP.Filled(f.value))) {
      var c := TP.Carried(TP.Filled(f.value));
      assert TP.Clean(f).value.value == c;
      assert StartTimeOf(f) == Some(WithinDay(c));
      HourSplit(c);
      assert WithinDay(c) == c.(hours := c.hours % 24);
    } else {
      assert StartTimeOf(f).None?;
    }
  }

  /** A start time object with a field of another type than a number is dropped and reported, though cleaning alone would read that field as 0. */
  lemma NonNumericStartTimeDropped(f: TP.TimePartFields)
    requires f.hours.NonNumeric? || f.minutes.NonNumeric? || f.seconds.NonNumeric? || f.milliseconds.NonNumeric?
    ensures TP.Clean(Some(f)).Some?
    ensures StartTimeOf(Some(f)).None?
    ensures TimeMessages(Some(f)) == [StartTimeInvalid]
  {
    TP.NonNumericIsNotTimePart(f);
  }

  /** The start time object is kept as it is exactly when it is missing or already a complete time of day. */
  lemma StartTimeUnchanged(f: Option<TP.TimePartFields>)
    ensures TP.OptionalFields(StartTimeOf(f)) == f <==> f.None? || CompleteTime(f.value)
  {
    if f.Some? && CompleteTime(f.value) {
      assert TP.FieldsOf(TP.Filled(f.value)) == f.value;
    }
  }

  /** The days duration after the millisecond check: dropped when the time part overruns it. */
  function DaysAfterMs(days: Duration, ms: Duration, time: Option<TP.TimePart>): Duration {
    if Overruns(days, ms, time) then Undefined else days
  }

  /**
   * The fields `cleanWhen` arrives at for a when: the settled start date, the
   * checked days duration, dropped if the time part overruns it, the kept
   * start time and the checked millisecond duration.
   */
  function CleanedFields(w: WhenFields, defaultStart: Option<DP.DatePartFields>, today: DP.DatePart): WhenFields {
    var time := StartTimeOf(w.startTimePart);
    var ms := CleanMs(w.millisecondsDuration);
    WhenFields(Some(DP.FieldsOf(StartDateOf(w.startDatePart, defaultStart, today).value)),
      DaysAfterMs(CleanDays(w.daysDuration), ms, time), TP.OptionalFields(time), ms)
  }

  /** `isChanged`: a new start date object, or a field that differs from the when's own. */
  predicate FieldsChanged(w: WhenFields, defaultStart: Option<DP.DatePartFields>, today: DP.DatePart) {
    var c := CleanedFields(w, defaultStart, today);
    || StartDateOf(w.startDatePart, defaultStart, today).changed
    || c.daysDuration != w.daysDuration
    || c.startTimePart != w.startTimePart
    || c.millisecondsDuration != w.millisecondsDuration
  }

  /**
   * `cleanWhen` on the values: a missing when stays missing; otherwise the
   * when itself comes back when no field changed, and a clone of the cleaned
   * fields when any did.
   */
  function CleanWhenValue(when: Option<WhenFields>, defaultStart: Option<DP.DatePartFields>, today: DP.DatePart): (r: Option<WhenFields>)
    ensures r.None? <==> when.None?
  {
    match when
    case None => None
    case Some(w) =>
      if FieldsChanged(w, defaultStart, today) then CloneWhen(Some(CleanedFields(w, defaultStart, today))) else when
  }

  /** A when keeps all its fields under cleaning exactly when it is already clean. */
  lemma UnchangedIffClean(w: WhenFields, defaultStart: Option<DP.DatePartFields>, today: DP.DatePart)
    ensures !FieldsChanged(w, defaultStart, today) <==> IsClean(w)
  {
    var time := StartTimeOf(w.startTimePart);
    StartTimeUnchanged(w.startTimePart);
    if w.startTimePart.Some? && CompleteTime(w.startTimePart.value) {
      assert TP.Carried(TP.Filled(w.startTimePart.value)) == TP.Filled(w.startTimePart.value);
      assert time == TimeOf(w.startTimePart);
    }
  }

  /** The clone of the cleaned fields is clean, given a start date to fall back on. */
  lemma CleanedFieldsAreClean(w: WhenFields, defaultStart: Option<DP.DatePartFields>, today: DP.DatePart)
    requires w.startDatePart.Some? || defaultStart.Some? || DP.Valid(today)
    ensures IsClean(CloneWhen(Some(CleanedFields(w, defaultStart, today))).value)
  {
    var time := StartTimeOf(w.startTimePart);
    StartTimeKept(w.startTimePart);
    if time.Some? {
      assert TP.Filled(TP.FieldsOf(time.value)) == time.value;
    }
    assert TimeOf(TP.OptionalFields(time)) == time;
  }

  /** Everything `cleanWhen` returns for a when is clean, today being a real date. */
  lemma CleanedIsClean(when: Option<WhenFields>, defaultStart: Option<DP.DatePartFields>, today: DP.DatePart)
    requires DP.Valid(today)
    ensures when.Some? ==> IsClean(CleanWhenValue(when, defaultStart, today).value)
  {
    if when.Some? {
      UnchangedIffClean(when.value, defaultStart, today);
      CleanedFieldsAreClean(when.value, defaultStart, today);
    }
  }

  /** `cleanWhen` returns its argument itself exactly when the argument is missing or clean. */
  lemma UnchangedExactlyWhenClean(when: Option<WhenFields>, defaultStart: Option<DP.DatePartFields>, today: DP.DatePart)
    ensures CleanWhenValue(when, defaultStart, today) == when <==> when.None? || IsClean(when.value)
  {
    if when.Some? {
      var w := when.value;
      UnchangedIffClean(w, defaultStart, today);
      if w.startDatePart.Some? {
        CleanedFieldsAreClean(w, defaultStart, today);
      }
    }
  }

  /** Cleaning a cleaned when changes nothing, whatever the defaults the second time. */
  lemma CleanWhenIdempotent(when: Option<WhenFields>, defaultStart: Option<DP.DatePartFields>, today: DP.DatePart,
                            defaultStart2: Option<DP.DatePartFields>, today2: DP.DatePart)
    requires DP.Valid(today)
    ensures CleanWhenValue(CleanWhenValue(when, defaultStart, today), defaultStart2, today2) == CleanWhenValue(when, defaultStart, today)
  {
    CleanedIsClean(when, defaultStart, today);
    UnchangedExactlyWhenClean(CleanWhenValue(when, defaultStart, today), defaultStart2, today2);
  }

  /** The message about the start date: missing, or not already a real date. */
  function DateMessages(f: Option<DP.DatePartFields>): seq<Message> {
    if f.None? then [StartDateMissing] else if !CompleteDate(f.value) then [StartDateCleaned] else []
  }

  /** The message about the days duration: negative, or a truthy non-number. */
  function DaysMessages(d: Duration): seq<Message> {
    if d.Number? && d.value < 0 then [DaysDurationNegative]
    else if d == NonNumber(true) then [DaysDurationInvalid]
    else []
  }

  /** The message about the start time: dropped, folded below 24 hours, or cleaned. */
  function TimeMessages(f: Option<TP.TimePartFields>): seq<Message> {
    if f.None? then []
    else if StartTimeOf(f).None? then [StartTimeInvalid]
    else if TP.Clean(f).value.value.hours >= 24 then [StartTimeExceeds24Hours]
    else if TP.Clean(f).value.changed then [StartTimeCleaned]
    else []
  }

  /**
   * The message about the millisecond duration: dropped (reported only when
   * there is a start time), or overrunning the days duration.
   */
  function MsMessages(ms: Duration, time: Option<TP.TimePart>, days: Duration): seq<Message> {
    if (ms.Number? && ms.value < 0) || ms == NonNumber(true) then (if time.Some? then [MillisecondsDurationInvalid] else [])
    else if Overruns(days, ms, time) then [MillisecondsDurationExceedsDaysDuration(TimeDays(time.value, ms.value))]
    else []
  }

  /** The messages `cleanWhen` collects, in the order it pushes them. */
  function MessagesOf(w: WhenFields): seq<Message> {
    DateMessages(w.startDatePart) + DaysMessages(w.daysDuration) + TimeMessages(w.startTimePart)
      + MsMessages(w.millisecondsDuration, StartTimeOf(w.startTimePart), CleanDays(w.daysDuration))
  }

  /** `cleanWhen` reports at most one thing per field. */
  lemma AtMostFourMessages(w: WhenFields)
    ensures |MessagesOf(w)| <= 4
  {
  }

  /** A message is among those `cleanWhen` collects exactly when one of the fields reports it. */
  lemma MessageFromField(w: WhenFields, m: Message)
    ensures m in MessagesOf(w) <==>
      || m in DateMessages(w.startDatePart) || m in DaysMessages(w.daysDuration) || m in TimeMessages(w.startTimePart)
      || m in MsMessages(w.millisecondsDuration, StartTimeOf(w.startTimePart), CleanDays(w.daysDuration))
  {
    var a, b, c := DateMessages(w.startDatePart), DaysMessages(w.daysDuration), TimeMessages(w.startTimePart);
    var d := MsMessages(w.millisecondsDuration, StartTimeOf(w.startTimePart), CleanDays(w.daysDuration));
    assert MessagesOf(w) == a + b + c + d;
    assert m in a + b + c + d <==> m in a + b + c || m in d;
    assert m in a + b + c <==> m in a + b || m in c;
  }

  /** Each start date message is there exactly when that repair was made. */
  lemma DateMessagesReport(w: WhenFields)
    ensures StartDateMissing in MessagesOf(w) <==> w.startDatePart.None?
    ensures StartDateCleaned in MessagesOf(w) <==> w.startDatePart.Some? && !CompleteDate(w.startDatePart.value)
  {
    MessageFromField(w, StartDateMissing);
    MessageFromField(w, StartDateCleaned);
  }

  /** Each days duration message is there exactly when that repair was made. */
  lemma DaysMessagesReport(w: WhenFields)
    ensures DaysDurationNegative in MessagesOf(w) <==> w.daysDuration.Number? && w.daysDuration.value < 0
    ensures DaysDurationInvalid in MessagesOf(w) <==> w.daysDuration == NonNumber(true)
  {
    MessageFromField(w, DaysDurationNegative);
    MessageFromField(w, DaysDurationInvalid);
  }

  /**
   * The start time messages: dropped, hours reduced below 24, or fields not
   * already a complete time of day.
   */
  lemma TimeMessageKinds(f: Option<TP.TimePartFields>)
    ensures StartTimeInvalid in TimeMessages(f) <==> f.Some? && StartTimeOf(f).None?
    ensures StartTimeExceeds24Hours in TimeMessages(f) <==> StartTimeOf(f).Some? && TP.Carried(TP.Filled(f.value)).hours >= 24
    ensures StartTimeCleaned in TimeMessages(f) <==>
      StartTimeOf(f).Some? && TP.Carried(TP.Filled(f.value)).hours < 24 && !CompleteTime(f.value)
  {
    if StartTimeOf(f).Some? {
      var c := TP.Clean(f).value;
      assert c.value == TP.Carried(TP.Filled(f.value));
      if c.value.hours < 24 && !c.changed {
        assert TP.Filled(f.value) == c.value;
      }
    }
  }

  /** Each start time message is there exactly when that repair was made. */
  lemma TimeMessagesReport(w: WhenFields)
    ensures StartTimeInvalid in MessagesOf(w) <==> w.startTimePart.Some? && StartTimeOf(w.startTimePart).None?
    ensures StartTimeExceeds24Hours in MessagesOf(w) <==>
      StartTimeOf(w.startTimePart).Some? && TP.Carried(TP.Filled(w.startTimePart.value)).hours >= 24
    ensures StartTimeCleaned in MessagesOf(w) <==>
      StartTimeOf(w.startTimePart).Some? && TP.Carried(TP.Filled(w.startTimePart.value)).hours < 24
      && !CompleteTime(w.startTimePart.value)
  {
    TimeMessageKinds(w.startTimePart);
    TimeMessageFromTime(w, StartTimeInvalid);
    TimeMessageFromTime(w, StartTimeExceeds24Hours);
    TimeMessageFromTime(w, StartTimeCleaned);
  }

  /** A start time message comes from the start time and from no other field. */
  lemma TimeMessageFromTime(w: WhenFields, m: Message)
    requires m == StartTimeInvalid || m == StartTimeExceeds24Hours || m == StartTimeCleaned
    ensures m in MessagesOf(w) <==> m in TimeMessages(w.startTimePart)
  {
    MessageFromField(w, m);
    assert m !in DateMessages(w.startDatePart);
    assert m !in DaysMessages(w.daysDuration);
    assert m !in MsMessages(w.millisecondsDuration, StartTimeOf(w.startTimePart), CleanDays(w.daysDuration));
  }

  /**
   * Each millisecond duration message is there exactly when that repair was
   * made: the duration dropped while there is a start time, or the days
   * duration dropped for the day count the time part reaches.
   */
  lemma MsMessagesReport(w: WhenFields)
    ensures MillisecondsDurationInvalid in MessagesOf(w) <==>
      StartTimeOf(w.startTimePart).Some? && CleanMs(w.millisecondsDuration) != w.millisecondsDuration
    ensures forall k :: MillisecondsDurationExceedsDaysDuration(k) in MessagesOf(w) <==>
      (Overruns(CleanDays(w.daysDuration), w.millisecondsDuration, StartTimeOf(w.startTimePart))
       && k == TimeDays(StartTimeOf(w.startTimePart).value, w.millisecondsDuration.value))
  {
    MessageFromField(w, MillisecondsDurationInvalid);
    forall k {
      MessageFromField(w, MillisecondsDurationExceedsDaysDuration(k));
    }
  }

  /**
   * `cleanWhen` step by step, as When.js reassigns its locals and pushes
   * its messages.
   */
  method CleanWhen(when: Option<WhenFields>, defaultStart: Option<DP.DatePartFields>, today: DP.DatePart)
    returns (cleaned: Option<WhenFields>, messages: seq<Message>)
    ensures cleaned == CleanWhenValue(when, defaultStart, today)
    ensures messages == if when.None? then [] else MessagesOf(when.value)
  {
    messages := [];
    cleaned := when;
    if when.None? {
      return;
    }
    var w := when.value;
    var startDatePart, dateChanged, dateMessages := CleanStartDate(w.startDatePart, defaultStart, today);
    var daysDuration, daysMessages := CleanDaysDuration(w.daysDuration);
    var startTimePart, timeMessages := CleanStartTime(w.startTimePart);
    var millisecondsDuration, msMessages;
    millisecondsDuration, daysDuration, msMessages := CleanMsDuration(w.millisecondsDuration, startTimePart, daysDuration);
    messages := dateMessages + daysMessages + timeMessages + msMessages;

    var isChanged := dateChanged || daysDuration != w.daysDuration
      || TP.OptionalFields(startTimePart) != w.startTimePart || millisecondsDuration != w.millisecondsDuration;
    if isChanged {
      cleaned := CloneWhen(Some(WhenFields(Some(DP.FieldsOf(startDatePart)), daysDuration,
        TP.OptionalFields(startTimePart), millisecondsDuration)));
    }
  }

  /** The start date steps of `cleanWhen`. */
  method CleanStartDate(f: Option<DP.DatePartFields>, defaultStart: Option<DP.DatePartFields>, today: DP.DatePart)
    returns (startDatePart: DP.DatePart, changed: bool, messages: seq<Message>)
    ensures DP.Cleaned(startDatePart, changed) == StartDateOf(f, defaultStart, today)
    ensures messages == DateMessages(f)
  {
    messages := [];
    changed := true;
    var start := DP.CleanDatePart(f, today);
    if start.None? {
      if defaultStart.Some? {
        startDatePart := DP.CleanDatePart(defaultStart, today).value.value;
      } else {
        startDatePart := today;
      }
      messages := [StartDateMissing];
    } else {
      startDatePart := start.value.value;
      changed := start.value.changed;
      if changed {
        messages := [StartDateCleaned];
      }
    }
  }

  /** The days duration steps of `cleanWhen`. */
  method CleanDaysDuration(d: Duration) returns (daysDuration: Duration, messages: seq<Message>)
    ensures daysDuration == CleanDays(d)
    ensures messages == DaysMessages(d)
  {
    messages := [];
    daysDuration := d;
    if daysDuration.Number? {
      if daysDuration.value < 0 {
        messages := [DaysDurationNegative];
        daysDuration := Number(0);
      }
    } else if daysDuration == NonNumber(true) {
      messages := [DaysDurationInvalid];
      daysDuration := Undefined;
    }
  }

  /** The start time steps of `cleanWhen`; the hours are reduced on the copied time part. */
  method CleanStartTime(f: Option<TP.TimePartFields>) returns (startTimePart: Option<TP.TimePart>, messages: seq<Message>)
    ensures startTimePart == StartTimeOf(f)
    ensures messages == TimeMessages(f)
  {
    messages := [];
    startTimePart := None;
    var cleanedTime := TP.CleanTimePart(f);
    if cleanedTime.Some? {
      if TP.IsTimePart(f) {
        var t := cleanedTime.value.value;
        if t.hours < 0 || t.minutes < 0 || t.seconds < 0 || t.milliseconds < 0 {
          messages := [StartTimeInvalid];
        } else if t.hours >= 24 {
          var timeDaysDuration := JsMath.FloorDiv(t.hours, 24);
          t := t.(hours := t.hours - timeDaysDuration * 24);
          startTimePart := Some(t);
          messages := [StartTimeExceeds24Hours];
        } else {
          startTimePart := Some(t);
          if cleanedTime.value.changed {
            messages := [StartTimeCleaned];
          }
        }
      } else {
        messages := [StartTimeInvalid];
      }
    }
  }

  /**
   * The millisecond duration steps of `cleanWhen`, given the cleaned start
   * time and days duration; the days duration is dropped when the time part
   * overruns it.
   */
  method CleanMsDuration(ms: Duration, startTimePart: Option<TP.TimePart>, days: Duration)
    returns (millisecondsDuration: Duration, daysDuration: Duration, messages: seq<Message>)
    ensures millisecondsDuration == CleanMs(ms)
    ensures daysDuration == DaysAfterMs(days, millisecondsDuration, startTimePart)
    ensures messages == MsMessages(ms, startTimePart, days)
  {
    messages := [];
    millisecondsDuration := ms;
    daysDuration := days;
    if millisecondsDuration.Number? {
      if millisecondsDuration.value < 0 {
        if startTimePart.Some? {
          messages := [MillisecondsDurationInvalid];
        }
        millisecondsDuration := Undefined;
      } else if startTimePart.Some? && daysDuration.Number? && millisecondsDuration.value > 86400000 {
        var finalMilliseconds := TP.TimePartToMs(Some(TP.FieldsOf(startTimePart.value))).value + millisecondsDuration.value;
        var timeDaysDuration := JsMath.FloorDiv(finalMilliseconds, 86400000);
        if timeDaysDuration > daysDuration.value {
          messages := [MillisecondsDurationExceedsDaysDuration(timeDaysDuration)];
          daysDuration := Undefined;
        }
      }
    } else if millisecondsDuration == NonNumber(true) {
      if startTimePart.Some? {
        messages := [MillisecondsDurationInvalid];
      }
      millisecondsDuration := Undefined;
    }
  }

  /** A clean when, read in the all-numbers form, is proper: the finish and comparison properties apply to it. */
  lemma CleanIsProper(w: WhenFields)
    requires IsClean(w)
    ensures AsWhen(w).Some? && Proper(AsWhen(w).value)
  {
  }

  /**
   * The point of the overrun check: a clean when with a start time, a days
   * duration and a millisecond duration over a day finishes no later than
   * the days duration after its start date.
   */
  lemma CleanFinishWithinDays(w: WhenFields, v: When, end: int, r: DateAndTime)
    requires IsClean(w) && AsWhen(w) == Some(v)
    requires v.startTime.Some? && v.daysDuration.Some? && v.msDuration.Some? && v.msDuration.value > 86400000
    requires end == TP.Total(v.startTime.value) + v.msDuration.value && r == FinishPartsOf(v)
    ensures DP.DayNumber(r.date) <= DP.DayNumber(v.startDate) + v.daysDuration.value
  {
    CleanIsProper(w);
    FinishOfTimedWhen(v, end, r);
  }
}
