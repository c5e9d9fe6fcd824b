/**
 * DateTimePart.js: a date with an optional time of day, its cleaning (hours
 * of a day or more folded into the date), the five-way ordering of two such
 * values, date-time ranges with their cleaning, and the seven-way relation of
 * a date-time to a range.
 */
module DateTimePart {
  import opened Wrappers
  import JsMath
  import Calendar
  import DP = DatePart
  import TP = TimePart

  const MillisecondsPerDay: int := 24 * 3600000

  /** A date-time part object as received. */
  datatype DateTimePartFields = DateTimePartFields(datePart: Option<DP.DatePartFields>, timePart: Option<TP.TimePartFields>)

  /** A cleaned date-time part: every date field is set, the time part is optional. */
  datatype DateTime = DateTime(date: DP.DatePart, time: Option<TP.TimePart>)

  function FieldsOf(d: DateTime): DateTimePartFields {
    DateTimePartFields(Some(DP.FieldsOf(d.date)), TP.OptionalFields(d.time))
  }

  /** A valid date and, when present, a time whose fields are in range and whose hours lie within a day. */
  predicate Normal(d: DateTime) {
    DP.Valid(d.date) && (d.time.Some? ==> TP.InRange(d.time.value) && -24 < d.time.value.hours < 24)
  }

  /** The moment a cleaned value stands for, in milliseconds; a missing time counts as midnight. */
  function Moment(d: DateTime): int
    requires 0 <= d.date.month < 12
  {
    DP.DayNumber(d.date) * MillisecondsPerDay + (if d.time.Some? then TP.Total(d.time.value) else 0)
  }

  // ---------------------------------------------------------------------
  // Folding hours into days

  /** The days moved and the hours left by the hour folding of `cleanDateTimePart`. */
  datatype Fold = Fold(days: int, hours: int)

  /**
   * The folding as DateTimePart.js writes it: `floor(h / 24)` days for `h >= 24`,
   * and for `h <= -24` `ceil(h / 24)` days with `24 + h - 24 * days` hours,
   * which for a multiple of 24 leaves 24 hours.
   */
  function FoldHoursAsWritten(h: int): (r: Fold)
    ensures -24 < h < 24 ==> r == Fold(0, h)
    ensures h >= 24 ==> r.days * 24 + r.hours == h && 0 <= r.hours < 24
    ensures h <= -24 ==> r.days * 24 + r.hours == 24 + h && 0 < r.hours <= 24
  {
    if h >= 24 then
      var days := JsMath.FloorDiv(h, 24);
      Fold(days, h - days * 24)
    else if h <= -24 then
      var days := JsMath.CeilDiv(h, 24);
      Fold(days, 24 + h - days * 24)
    else
      Fold(0, h)
  }

  /** As written, -24 hours moves back one day and leaves hour 24, which is not a time within a day. */
  lemma FoldAsWrittenLeavesHourTwentyFour(h: int)
    requires h <= -24 && h % 24 == 0
    ensures FoldHoursAsWritten(h).hours == 24
    ensures FoldHoursAsWritten(h).days == h / 24
  {
    assert JsMath.CeilDiv(h, 24) == h / 24;
  }

  /**
   * The folding with hours kept within `[0, 24)`: for `h <= -24` the days are
   * `floor((24 + h) / 24)`, which differs from the written `ceil(h / 24)` only
   * when `h` is a multiple of 24.
   */
  function FoldHours(h: int): (r: Fold)
    ensures -24 < h < 24 ==> r == Fold(0, h)
    ensures h >= 24 ==> r.days * 24 + r.hours == h && 0 <= r.hours < 24
    ensures h <= -24 ==> r.days * 24 + r.hours == 24 + h && 0 <= r.hours < 24
    ensures h % 24 != 0 ==> r == FoldHoursAsWritten(h)
  {
    if h >= 24 then
      var days := JsMath.FloorDiv(h, 24);
      Fold(days, h - days * 24)
    else if h <= -24 then
      var days := JsMath.FloorDiv(24 + h, 24);
      CeilIsFloorPlusOne(h);
      Fold(days, 24 + h - days * 24)
    else
      Fold(0, h)
  }

  lemma CeilIsFloorPlusOne(h: int)
    ensures h % 24 != 0 ==> JsMath.CeilDiv(h, 24) == JsMath.FloorDiv(24 + h, 24)
  {
    if h % 24 != 0 {
      var q := h / 24;
      assert h == 24 * q + h % 24;
      assert (-h) == 24 * (-q - 1) + (24 - h % 24);
      assert (-h) / 24 == -q - 1;
      assert 24 + h == 24 * (q + 1) + h % 24;
    }
  }

  // ---------------------------------------------------------------------
  // Cleaning

  /** A cleaned date-time part; `changed` is false when the argument itself is returned. */
  datatype Cleaned = Cleaned(value: DateTime, changed: bool)

  /**
   * `cleanDateTimePart` with the corrected hour folding: `None` when the
   * argument or its date part is missing; otherwise the cleaned date and
   * time, with hours of a day or more (either sign) folded into the date.
   */
  function CleanDateTimePart(input: Option<DateTimePartFields>, today: DP.DatePart): (r: Option<Cleaned>)
    ensures r.None? <==> input.None? || input.value.datePart.None?
    ensures r.Some? ==> Normal(r.value.value)
    ensures r.Some? ==> (r.value.value.time.None? <==> input.value.timePart.None?)
    ensures r.Some? ==> (!r.value.changed <==> FieldsOf(r.value.value) == input.value)
  {
    match input
    case None => None
    case Some(f) =>
      match DP.CleanDatePart(f.datePart, today)
      case None => None
      case Some(dc) => Some(WithCleanTime(f, dc, TP.Clean(f.timePart)))
  }

  /** The second half of `cleanDateTimePart`: the cleaned time, with its hours folded into the cleaned date. */
  function WithCleanTime(f: DateTimePartFields, dc: DP.Cleaned, tc: Option<TP.Cleaned>): (r: Cleaned)
    requires f.datePart.Some? && DP.Valid(dc.value) && (!dc.changed <==> DP.FieldsOf(dc.value) == f.datePart.value)
    requires tc == TP.Clean(f.timePart)
    ensures Normal(r.value)
    ensures r.value.time.None? ==> r.value.date == dc.value
    ensures r.value.time.None? <==> f.timePart.None?
    ensures !r.changed <==> FieldsOf(r.value) == f
  {
    match tc
    case None => Cleaned(DateTime(dc.value, None), dc.changed)
    case Some(c) =>
      var t := c.value;
      if t.hours >= 24 || t.hours <= -24 then
        var fold := FoldHours(t.hours);
        FoldedTimeDiffers(f.timePart.value, c, fold.hours);
        Cleaned(DateTime(DP.AddDays(dc.value, fold.days), Some(t.(hours := fold.hours))), true)
      else
        UnchangedWhenFieldsAgree(f, dc, c);
        Cleaned(DateTime(dc.value, Some(t)), dc.changed || c.changed)
  }

  /** A time whose hours were folded no longer has the fields it was given. */
  lemma FoldedTimeDiffers(given: TP.TimePartFields, tc: TP.Cleaned, hours: int)
    requires TP.Clean(Some(given)) == Some(tc)
    requires 0 <= hours < 24 && (tc.value.hours >= 24 || tc.value.hours <= -24)
    ensures TP.FieldsOf(tc.value.(hours := hours)) != given
  {
  }

  lemma UnchangedWhenFieldsAgree(f: DateTimePartFields, dc: DP.Cleaned, tc: TP.Cleaned)
    requires f.datePart.Some? && f.timePart.Some?
    requires !dc.changed <==> DP.FieldsOf(dc.value) == f.datePart.value
    requires !tc.changed <==> TP.FieldsOf(tc.value) == f.timePart.value
    ensures !(dc.changed || tc.changed) <==> FieldsOf(DateTime(dc.value, Some(tc.value))) == f
  {
  }

  /**
   * The moment is kept, except that hours of -24 or fewer are read as counted
   * from the end of the day: such a time ends up one day later.
   */
  lemma CleanKeepsMoment(f: DateTimePartFields, today: DP.DatePart)
    requires f.datePart.Some?
    ensures var r := CleanDateTimePart(Some(f), today).value.value;
      var date := DP.CleanFields(f.datePart.value, today).value;
      var time := TP.Clean(f.timePart);
      Moment(r) == Moment(DateTime(date, if time.Some? then Some(time.value.value) else None))
        + (if time.Some? && time.value.value.hours <= -24 then MillisecondsPerDay else 0)
  {
    var date := DP.CleanFields(f.datePart.value, today).value;
    var time := TP.Clean(f.timePart);
    var r := CleanDateTimePart(Some(f), today).value.value;
    if time.Some? {
      var t := time.value.value;
      if t.hours >= 24 || t.hours <= -24 {
        var fold := FoldHours(t.hours);
        assert r == DateTime(DP.AddDays(date, fold.days), Some(t.(hours := fold.hours)));
        FoldedMoment(date, t, fold, if t.hours <= -24 then 24 else 0);
      } else {
        assert r == DateTime(date, Some(t));
      }
    } else {
      assert r == DateTime(date, None);
    }
  }

  lemma FoldedMoment(date: DP.DatePart, t: TP.TimePart, fold: Fold, extra: int)
    requires DP.Valid(date) && fold.days * 24 + fold.hours == t.hours + extra
    ensures Moment(DateTime(DP.AddDays(date, fold.days), Some(t.(hours := fold.hours))))
      == Moment(DateTime(date, Some(t))) + extra * 3600000
  {
    var n := DP.DayNumber(date);
    var moved := DP.AddDays(date, fold.days);
    assert DP.DayNumber(moved) == n + fold.days;
    assert TP.Total(t.(hours := fold.hours)) == TP.Total(t) + (fold.hours - t.hours) * 3600000;
    DaysToMilliseconds(n, fold.days);
  }

  lemma DaysToMilliseconds(n: int, days: int)
    ensures (n + days) * MillisecondsPerDay == n * MillisecondsPerDay + days * 24 * 3600000
  {
  }

  /** A value that is already clean comes back as itself. */
  lemma CleanOfNormal(d: DateTime, today: DP.DatePart)
    requires Normal(d)
    ensures CleanDateTimePart(Some(FieldsOf(d)), today) == Some(Cleaned(d, false))
  {
    DP.CleanOfValid(d.date, today);
    if d.time.Some? {
      TP.CleanOfClean(d.time.value);
    }
  }

  /** Cleaning twice changes nothing the first cleaning did not. */
  lemma CleanIdempotent(f: DateTimePartFields, today: DP.DatePart)
    requires f.datePart.Some?
    ensures var c := CleanDateTimePart(Some(f), today).value.value;
      CleanDateTimePart(Some(FieldsOf(c)), today) == Some(Cleaned(c, false))
  {
    CleanOfNormal(CleanDateTimePart(Some(f), today).value.value, today);
  }

  /** Cleaning a clean date with a clean time of a day or more folds the hours into the date. */
  lemma CleanFolds(f: DateTimePartFields, today: DP.DatePart, date: DP.DatePart, t: TP.TimePart)
    requires f.datePart.Some? && DP.CleanDatePart(f.datePart, today) == Some(DP.Cleaned(date, false))
    requires TP.Clean(f.timePart) == Some(TP.Cleaned(t, false))
    requires t.hours >= 24 || t.hours <= -24
    ensures var fold := FoldHours(t.hours);
      CleanDateTimePart(Some(f), today)
      == Some(Cleaned(DateTime(DP.AddDays(date, fold.days), Some(t.(hours := fold.hours))), true))
  {
  }

  /** 49 hours on 2021-12-31 give 2022-01-02 at 1:30:15.010. */
  lemma CleanFoldForwardExample(today: DP.DatePart)
    ensures CleanDateTimePart(Some(DateTimePartFields(Some(DP.DatePartFields(Some(2021), Some(11), Some(31))),
      Some(TP.TimePartFields(Numeric(49), Numeric(30), Numeric(15), Numeric(10))))), today)
      == Some(Cleaned(DateTime(DP.DatePart(2022, 0, 2), Some(TP.TimePart(1, 30, 15, 10))), true))
  {
    var f := DateTimePartFields(Some(DP.DatePartFields(Some(2021), Some(11), Some(31))),
      Some(TP.TimePartFields(Numeric(49), Numeric(30), Numeric(15), Numeric(10))));
    DP.CleanOfValid(DP.DatePart(2021, 11, 31), today);
    TP.CleanOfClean(TP.TimePart(49, 30, 15, 10));
    CleanFolds(f, today, DP.DatePart(2021, 11, 31), TP.TimePart(49, 30, 15, 10));
    assert FoldHours(49) == Fold(2, 1);
    TwoDaysIntoTheNewYear();
  }

  lemma TwoDaysIntoTheNewYear()
    ensures DP.AddDays(DP.DatePart(2021, 11, 31), 2) == DP.DatePart(2022, 0, 2)
  {
    assert Calendar.DayNumber(2021, 11, 33) == Calendar.DayNumber(2022, 0, 2) by {
      Calendar.YearStep(2021);
    }
    DP.NormalizeExample(2021, 11, 33, DP.DatePart(2022, 0, 2));
  }

  /** -49 hours on 2021-12-01 give 2021-11-29 at 23:30:15.010, a day later than 49 hours back. */
  lemma CleanFoldBackExample(today: DP.DatePart)
    ensures CleanDateTimePart(Some(DateTimePartFields(Some(DP.DatePartFields(Some(2021), Some(11), Some(1))),
      Some(TP.TimePartFields(Numeric(-49), Numeric(30), Numeric(15), Numeric(10))))), today)
      == Some(Cleaned(DateTime(DP.DatePart(2021, 10, 29), Some(TP.TimePart(23, 30, 15, 10))), true))
  {
    var f := DateTimePartFields(Some(DP.DatePartFields(Some(2021), Some(11), Some(1))),
      Some(TP.TimePartFields(Numeric(-49), Numeric(30), Numeric(15), Numeric(10))));
    DP.CleanOfValid(DP.DatePart(2021, 11, 1), today);
    TP.CleanOfClean(TP.TimePart(-49, 30, 15, 10));
    CleanFolds(f, today, DP.DatePart(2021, 11, 1), TP.TimePart(-49, 30, 15, 10));
    assert FoldHours(-49) == Fold(-2, 23);
    TwoDaysBackIntoNovember();
  }

  lemma TwoDaysBackIntoNovember()
    ensures DP.AddDays(DP.DatePart(2021, 11, 1), -2) == DP.DatePart(2021, 10, 29)
  {
    DP.NormalizeExample(2021, 11, -1, DP.DatePart(2021, 10, 29));
  }

  // ---------------------------------------------------------------------
  // Ordering two date-time parts

  /** `DateTimePartRelation`. */
  datatype Relation = Before | SameDateBeforeTime | Same | SameDateAfterTime | After
  {
    /** The numbers DateTimePart.js uses, -2 to 2. */
    function Code(): int {
      match this
      case Before => -2
      case SameDateBeforeTime => -1
      case Same => 0
      case SameDateAfterTime => 1
      case After => 2
    }

    /** The relation seen from the other side. */
    function Flip(): (r: Relation)
      ensures r.Code() == -Code()
    {
      match this
      case Before => After
      case SameDateBeforeTime => SameDateAfterTime
      case Same => Same
      case SameDateAfterTime => SameDateBeforeTime
      case After => Before
    }
  }

  /**
   * `determineDateTimePartsRelation` on cleaned values: the dates decide
   * BEFORE or AFTER; on the same date the times decide.
   */
  function RelationOfClean(a: DateTime, b: DateTime): (r: Relation)
    requires DP.Valid(a.date) && DP.Valid(b.date)
    ensures r.Before? <==> DP.DayNumber(a.date) < DP.DayNumber(b.date)
    ensures r.After? <==> DP.DayNumber(a.date) > DP.DayNumber(b.date)
    ensures r.SameDateBeforeTime? <==> a.date == b.date && TP.TimeBefore(a.time, b.time)
    ensures r.Same? <==> a.date == b.date && TP.SameTime(a.time, b.time)
    ensures r.SameDateAfterTime? <==> a.date == b.date && TP.TimeBefore(b.time, a.time)
  {
    var byDate := DP.CompareDateParts(Some(a.date), Some(b.date));
    DP.CompareIsDayOrder(a.date, b.date);
    if byDate < 0 then Before
    else if byDate > 0 then After
    else
      var byTime := TP.CompareTimeParts(TP.OptionalFields(a.time), TP.OptionalFields(b.time));
      if byTime < 0 then SameDateBeforeTime
      else if byTime > 0 then SameDateAfterTime
      else Same
  }

  /** Swapping the arguments flips the relation. */
  lemma RelationFlips(a: DateTime, b: DateTime)
    requires DP.Valid(a.date) && DP.Valid(b.date)
    ensures RelationOfClean(b, a) == RelationOfClean(a, b).Flip()
  {
  }

  /**
   * `determineDateTimePartsRelation`: `None` when either argument cannot be
   * cleaned, otherwise the relation of the cleaned values.
   */
  function DateTimePartsRelation(a: Option<DateTimePartFields>, b: Option<DateTimePartFields>, today: DP.DatePart): (r: Option<Relation>)
    ensures r.None? <==> CleanDateTimePart(a, today).None? || CleanDateTimePart(b, today).None?
    ensures r.Some? ==> r.value == RelationOfClean(CleanDateTimePart(a, today).value.value, CleanDateTimePart(b, today).value.value)
  {
    var ca := CleanDateTimePart(a, today);
    var cb := CleanDateTimePart(b, today);
    if ca.None? || cb.None? then None
    else
      var x, y := ca.value.value, cb.value.value;
      var byDate := DP.CompareDateParts(Some(x.date), Some(y.date));
      if byDate < 0 then Some(Before)
      else if byDate > 0 then Some(After)
      else
        var byTime := TP.CompareTimeParts(TP.OptionalFields(x.time), TP.OptionalFields(y.time));
        if byTime < 0 then Some(SameDateBeforeTime)
        else if byTime > 0 then Some(SameDateAfterTime)
        else Some(Same)
  }

  /** Comparing already clean values is comparing them directly. */
  lemma RelationOfNormal(a: DateTime, b: DateTime, today: DP.DatePart)
    requires Normal(a) && Normal(b)
    ensures DateTimePartsRelation(Some(FieldsOf(a)), Some(FieldsOf(b)), today) == Some(RelationOfClean(a, b))
  {
    CleanOfNormal(a, today);
    CleanOfNormal(b, today);
  }

  /**
   * `determineDateTimePartsRelation` called on values that are already
   * clean, as the range functions do; it re-cleans them, which changes nothing.
   */
  function RelationOf(a: DateTime, b: DateTime, today: DP.DatePart): (r: Relation)
    requires Normal(a) && Normal(b)
    ensures r == RelationOfClean(a, b)
  {
    RelationOfNormal(a, b, today);
    DateTimePartsRelation(Some(FieldsOf(a)), Some(FieldsOf(b)), today).value
  }

  /** Any cleanable value is SAME as itself, and swapping the arguments flips the answer. */
  lemma RelationReflexiveAndFlips(a: DateTimePartFields, b: DateTimePartFields, today: DP.DatePart)
    requires a.datePart.Some? && b.datePart.Some?
    ensures DateTimePartsRelation(Some(a), Some(a), today) == Some(Same)
    ensures DateTimePartsRelation(Some(b), Some(a), today) == Some(DateTimePartsRelation(Some(a), Some(b), today).value.Flip())
  {
    var x := CleanDateTimePart(Some(a), today).value.value;
    var y := CleanDateTimePart(Some(b), today).value.value;
    RelationFlips(x, y);
  }

  // ---------------------------------------------------------------------
  // Ranges

  /** A date-time range object as received. */
  datatype DateTimeRangeFields = DateTimeRangeFields(
    startDatePart: Option<DP.DatePartFields>, startTimePart: Option<TP.TimePartFields>,
    finishDatePart: Option<DP.DatePartFields>, finishTimePart: Option<TP.TimePartFields>)

  /** A cleaned range: both ends have a date. */
  datatype DateTimeRange = DateTimeRange(start: DateTime, finish: DateTime)

  function RangeFieldsOf(r: DateTimeRange): DateTimeRangeFields {
    DateTimeRangeFields(Some(DP.FieldsOf(r.start.date)), TP.OptionalFields(r.start.time),
      Some(DP.FieldsOf(r.finish.date)), TP.OptionalFields(r.finish.time))
  }

  datatype CleanedRange = CleanedRange(value: DateTimeRange, changed: bool)

  /** The start of a range as a date-time part; a missing start date is copied from the finish. */
  function StartOf(f: DateTimeRangeFields): DateTimePartFields {
    DateTimePartFields(if f.startDatePart.Some? then f.startDatePart else f.finishDatePart, f.startTimePart)
  }

  /** The finish of a range as a date-time part; a missing finish date is copied from the start. */
  function FinishOf(f: DateTimeRangeFields): DateTimePartFields {
    DateTimePartFields(if f.finishDatePart.Some? then f.finishDatePart else f.startDatePart, f.finishTimePart)
  }

  /**
   * `cleanDateTimeRange`: `None` without any date; otherwise both ends
   * cleaned, and, when both dates were given, swapped (each date with its
   * time) if the start comes after the finish.  The argument itself comes
   * back exactly when nothing had to change.
   */
  function CleanDateTimeRange(input: Option<DateTimeRangeFields>, today: DP.DatePart): (r: Option<CleanedRange>)
    ensures r.None? <==> input.None? || (input.value.startDatePart.None? && input.value.finishDatePart.None?)
    ensures r.Some? ==> Normal(r.value.value.start) && Normal(r.value.value.finish)
    ensures r.Some? && input.value.startDatePart.Some? && input.value.finishDatePart.Some? ==>
      RelationOfClean(r.value.value.start, r.value.value.finish).Code() <= 0
    ensures r.Some? ==> (!r.value.changed <==> RangeFieldsOf(r.value.value) == input.value)
  {
    match input
    case None => None
    case Some(f) =>
      if f.startDatePart.None? && f.finishDatePart.None? then None
      else
        var checkOrder := f.startDatePart.Some? && f.finishDatePart.Some?;
        var s := CleanDateTimePart(Some(StartOf(f)), today).value;
        var e := CleanDateTimePart(Some(FinishOf(f)), today).value;
        var swap := checkOrder && RelationOf(s.value, e.value, today).Code() > 0;
        RangeOrdered(f, s, e, swap, today);
        Some(CleanedRange(
          if swap then DateTimeRange(e.value, s.value) else DateTimeRange(s.value, e.value),
          !checkOrder || s.changed || e.changed || swap))
  }

  lemma RangeOrdered(f: DateTimeRangeFields, s: Cleaned, e: Cleaned, swap: bool, today: DP.DatePart)
    requires f.startDatePart.Some? || f.finishDatePart.Some?
    requires s == CleanDateTimePart(Some(StartOf(f)), today).value
    requires e == CleanDateTimePart(Some(FinishOf(f)), today).value
    requires swap <==> (f.startDatePart.Some? && f.finishDatePart.Some?
      && RelationOf(s.value, e.value, today).Code() > 0)
    ensures var range := if swap then DateTimeRange(e.value, s.value) else DateTimeRange(s.value, e.value);
      && (f.startDatePart.Some? && f.finishDatePart.Some? ==> RelationOfClean(range.start, range.finish).Code() <= 0)
      && (!(!(f.startDatePart.Some? && f.finishDatePart.Some?) || s.changed || e.changed || swap)
          <==> RangeFieldsOf(range) == f)
  {
    RelationFlips(s.value, e.value);
    if f.startDatePart.Some? && f.finishDatePart.Some? {
      CleanOfNormal(e.value, today);
    }
  }

  /** The ends of the cleaned range are the cleaned ends of the argument, in order or swapped. */
  lemma CleanRangeEnds(f: DateTimeRangeFields, today: DP.DatePart)
    requires f.startDatePart.Some? || f.finishDatePart.Some?
    ensures var r := CleanDateTimeRange(Some(f), today).value.value;
      var s := CleanDateTimePart(Some(StartOf(f)), today).value.value;
      var e := CleanDateTimePart(Some(FinishOf(f)), today).value.value;
      (r.start == s && r.finish == e) || (r.start == e && r.finish == s)
  {
  }

  /** With one date missing, the range keeps both given times and uses the one date for both ends. */
  lemma CleanRangeCopiesMissingDate(f: DateTimeRangeFields, today: DP.DatePart)
    requires f.startDatePart.Some? != f.finishDatePart.Some?
    ensures var r := CleanDateTimeRange(Some(f), today).value;
      var date := if f.startDatePart.Some? then f.startDatePart else f.finishDatePart;
      && r.changed
      && r.value.start == CleanDateTimePart(Some(DateTimePartFields(date, f.startTimePart)), today).value.value
      && r.value.finish == CleanDateTimePart(Some(DateTimePartFields(date, f.finishTimePart)), today).value.value
  {
  }

  // ---------------------------------------------------------------------
  // A date-time against a range

  /** `DateTimeRangeRelation`. */
  datatype RangeRelation = BeforeRange | StartDateButBefore | Start | During | Finish | FinishDateButAfter | AfterRange
  {
    /** The numbers DateTimePart.js uses, -3 to 3. */
    function Code(): int {
      match this
      case BeforeRange => -3
      case StartDateButBefore => -2
      case Start => -1
      case During => 0
      case Finish => 1
      case FinishDateButAfter => 2
      case AfterRange => 3
    }
  }

  /** The day after a date, without a time: where a date-only value ends. */
  function EndOfDay(date: DP.DatePart): (r: DateTime)
    requires DP.Valid(date)
    ensures Normal(r) && r.time.None? && DP.DayNumber(r.date) == DP.DayNumber(date) + 1
  {
    DateTime(DP.AddDays(date, 1), None)
  }

  /**
   * `determineDateTimePartRelationToRange` on a cleaned value and range: the
   * start decides BEFORE, START_DATE_BUT_BEFORE and START; anything later
   * goes to the finish side.
   */
  function RelationToCleanRange(p: DateTime, range: DateTimeRange, today: DP.DatePart): (r: RangeRelation)
    requires Normal(p) && Normal(range.start) && Normal(range.finish)
    ensures r.BeforeRange? <==> DP.DayNumber(p.date) < DP.DayNumber(range.start.date)
    ensures r.StartDateButBefore? <==> p.date == range.start.date && TP.TimeBefore(p.time, range.start.time)
    ensures r.Start? <==> p.date == range.start.date && TP.SameTime(p.time, range.start.time)
    ensures RelationOfClean(p, range.start).Code() > 0 ==> r == FinishSide(p, range.finish, today)
  {
    var startResult := RelationOf(p, range.start, today);
    if startResult.Before? then BeforeRange
    else if startResult.SameDateBeforeTime? then StartDateButBefore
    else if startResult.Same? then Start
    else FinishSide(p, range.finish, today)
  }

  /**
   * The finish side of `determineDateTimePartRelationToRange`: a missing time,
   * on the value or on the range's finish, stands for the end of that day.
   * A value on the finish date is FINISH when its time matches the finish's,
   * FINISH_DATE_BUT_AFTER when the finish has a time and the value is later
   * (a date-only value counts as later), and AFTER only on a later date.
   */
  function FinishSide(p: DateTime, finish: DateTime, today: DP.DatePart): (r: RangeRelation)
    requires Normal(p) && Normal(finish)
    ensures r.AfterRange? <==> DP.DayNumber(p.date) > DP.DayNumber(finish.date)
    ensures r.Finish? <==> p.date == finish.date && TP.SameTime(p.time, finish.time)
    ensures r.FinishDateButAfter? <==>
      (p.date == finish.date && finish.time.Some? && (p.time.None? || TP.Total(finish.time.value) < TP.Total(p.time.value)))
    ensures r.AfterRange? || r.Finish? || r.FinishDateButAfter? || r.During?
  {
    var finishPoint := if p.time.Some? then p else EndOfDay(p.date);
    var rangeFinishDate := if finish.time.Some? then finish.date else DP.AddDays(finish.date, 1);
    var finishResult := RelationOf(finishPoint, DateTime(rangeFinishDate, finish.time), today);
    DP.CompareIsDayOrder(p.date, finish.date);
    SameDayNumberSameDate(p.date, finish.date);
    if finishResult.After? then
      (if DP.CompareDateParts(Some(p.date), Some(finish.date)) == 0 then FinishDateButAfter else AfterRange)
    else if finishResult.SameDateAfterTime? then
      (if DP.CompareDateParts(Some(p.date), Some(finish.date)) > 0 then AfterRange else FinishDateButAfter)
    else if finishResult.Same? then Finish
    else During
  }

  /** Valid dates with the same day number are the same date. */
  lemma SameDayNumberSameDate(a: DP.DatePart, b: DP.DatePart)
    requires DP.Valid(a) && DP.Valid(b)
    ensures DP.DayNumber(a) == DP.DayNumber(b) <==> a == b
  {
    var rel := RelationOfClean(DateTime(a, None), DateTime(b, None));
  }

  /**
   * Against a range whose start is not after its finish (every range
   * `cleanDateTimeRange` gets both dates for), a value is BEFORE exactly when
   * its date is before the start date and AFTER exactly when its date is
   * after the finish date; a date-only value on the finish date, after the
   * start date, is FINISH when the finish has no time and
   * FINISH_DATE_BUT_AFTER when it has one.
   */
  lemma RangeRelationByDate(p: DateTime, range: DateTimeRange, today: DP.DatePart)
    requires Normal(p) && Normal(range.start) && Normal(range.finish)
    requires DP.DayNumber(range.start.date) <= DP.DayNumber(range.finish.date)
    ensures var r := RelationToCleanRange(p, range, today);
      && (r.BeforeRange? <==> DP.DayNumber(p.date) < DP.DayNumber(range.start.date))
      && (r.AfterRange? <==> DP.DayNumber(p.date) > DP.DayNumber(range.finish.date))
      && (p.time.None? && p.date == range.finish.date && DP.DayNumber(range.start.date) < DP.DayNumber(p.date) ==>
            r == if range.finish.time.Some? then FinishDateButAfter else Finish)
  {
    var r := RelationToCleanRange(p, range, today);
    if DP.DayNumber(p.date) > DP.DayNumber(range.start.date) {
      assert RelationOfClean(p, range.start).After?;
    }
  }

  /**
   * `determineDateTimePartRelationToRange`: `None` when the value or the range
   * cannot be cleaned, otherwise the relation of the cleaned value to the
   * cleaned range.
   */
  function DateTimePartRelationToRange(p: Option<DateTimePartFields>, range: Option<DateTimeRangeFields>, today: DP.DatePart)
    : (r: Option<RangeRelation>)
    ensures r.None? <==> CleanDateTimePart(p, today).None? || CleanDateTimeRange(range, today).None?
    ensures r.Some? ==>
      r.value == RelationToCleanRange(CleanDateTimePart(p, today).value.value, CleanDateTimeRange(range, today).value.value, today)
  {
    match CleanDateTimePart(p, today)
    case None => None
    case Some(cp) =>
      match CleanDateTimeRange(range, today)
      case None => None
      case Some(cr) => Some(RelationToCleanRange(cp.value, cr.value, today))
  }
}
