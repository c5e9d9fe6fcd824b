/**
 * Recurring dates: an occurrence definition names how a date is placed in a
 * week, a month, a specific month or a year, and optionally how it repeats.
 * The engine validates definitions, advances a reference date by the repeat
 * definition, places it according to the occurrence type and keeps a small
 * state of the last occurrence and the number of occurrences so far.
 */
module DateOccurrences {
  import opened Wrappers
  import DatePart
  import YmdDate
  import JsMath
  import Calendar

  type Date = DatePart.DatePart

  // ---------------------------------------------------------------------
  // Occurrence and repeat types

  /** The repeat frequencies. */
  datatype RepeatType = NoRepeat | Daily | Weekly | Monthly | Yearly

  /** The thirteen ways of placing a date. */
  datatype OccurrenceType =
    | DayOfWeek
    | DayOfMonth | DayEndOfMonth | DowOfMonth | DowEndOfMonth
    | DayOfSpecificMonth | DayEndOfSpecificMonth | DowOfSpecificMonth | DowEndOfSpecificMonth
    | DayOfYear | DayEndOfYear | DowOfYear | DowEndOfYear
  {
    /** Every type except `DayOfWeek` reads the `offset` property. */
    predicate HasOffset() {
      !this.DayOfWeek?
    }

    /** The types that read `dayOfWeek`. */
    predicate HasDayOfWeek() {
      this.DayOfWeek? || this.DowOfMonth? || this.DowEndOfMonth? || this.DowOfSpecificMonth?
      || this.DowEndOfSpecificMonth? || this.DowOfYear? || this.DowEndOfYear?
    }

    /** The types that read `month`. */
    predicate HasSpecificMonth() {
      this.DayOfSpecificMonth? || this.DayEndOfSpecificMonth? || this.DowOfSpecificMonth?
      || this.DowEndOfSpecificMonth?
    }

    /** The smallest offset accepted: the n-th weekday types count from 1. */
    function OffsetMin(): int {
      if this.HasOffset() && this.HasDayOfWeek() then 1 else 0
    }

    /** The repeat types each occurrence type accepts. */
    function AllowedRepeatTypes(): seq<RepeatType> {
      match this
      case DayOfWeek => [NoRepeat, Weekly]
      case DayOfMonth | DayEndOfMonth | DowOfMonth | DowEndOfMonth => [NoRepeat, Monthly, Yearly]
      case _ => [NoRepeat, Yearly]
    }
  }

  /**
   * A repeat definition. `repeatType` is `None` when the definition names a
   * repeat type that is not in the table.
   */
  datatype RepeatDefinition = RepeatDefinition(
    repeatType: Option<RepeatType>,
    period: Option<int>,
    finalYMDDate: Option<Date>,
    maxRepeats: Field)

  /** An occurrence definition; fields that are not numbers are `None`. */
  datatype OccurrenceDefinition = OccurrenceDefinition(
    occurrenceType: Option<OccurrenceType>,
    offset: Option<int>,
    dayOfWeek: Option<int>,
    month: Option<int>,
    repeatDefinition: Option<RepeatDefinition>)

  // ---------------------------------------------------------------------
  // Validation

  /** The user errors validation reports. */
  datatype ValidationError =
    | OccurrenceTypeInvalid
    | OffsetInvalid(offsetMin: int)
    | DayOfWeekInvalid
    | MonthInvalid
    | RepeatTypeNotAllowed
    | RepeatTypeInvalid
    | PeriodRequired
    | FinalDateInvalid
    | MaxRepeatsInvalid

  predicate OffsetOk(t: OccurrenceType, def: OccurrenceDefinition) {
    t.HasOffset() ==> def.offset.Some? && def.offset.value >= t.OffsetMin()
  }

  predicate DayOfWeekOk(t: OccurrenceType, def: OccurrenceDefinition) {
    t.HasDayOfWeek() ==> def.dayOfWeek.Some? && 0 <= def.dayOfWeek.value < 7
  }

  predicate MonthOk(t: OccurrenceType, def: OccurrenceDefinition) {
    t.HasSpecificMonth() ==> def.month.Some? && 0 <= def.month.value < 12
  }

  /** The fields an occurrence type reads are present and in range. */
  predicate FieldsOk(t: OccurrenceType, def: OccurrenceDefinition) {
    OffsetOk(t, def) && DayOfWeekOk(t, def) && MonthOk(t, def)
  }

  /**
   * The scan of `validateGeneralOccurrenceType` over the allowed repeat types,
   * setting a flag when one of them equals the definition's repeat type.
   */
  method IsRepeatTypeAllowed(allowed: seq<RepeatType>, repeatType: Option<RepeatType>) returns (isFound: bool)
    ensures isFound <==> repeatType.Some? && repeatType.value in allowed
  {
    isFound := false;
    for i := 0 to |allowed|
      invariant isFound <==> repeatType.Some? && repeatType.value in allowed[..i]
    {
      if repeatType == Some(allowed[i]) {
        isFound := true;
      }
    }
  }

  /** The order in which `validateGeneralOccurrenceType` reports problems. */
  function GeneralError(t: OccurrenceType, def: OccurrenceDefinition): Option<ValidationError> {
    if !OffsetOk(t, def) then Some(OffsetInvalid(t.OffsetMin()))
    else if !DayOfWeekOk(t, def) then Some(DayOfWeekInvalid)
    else if !MonthOk(t, def) then Some(MonthInvalid)
    else if def.repeatDefinition.Some?
      && !(def.repeatDefinition.value.repeatType.Some?
           && def.repeatDefinition.value.repeatType.value in t.AllowedRepeatTypes())
    then Some(RepeatTypeNotAllowed)
    else None
  }

  /** `validateGeneralOccurrenceType`. */
  method ValidateGeneralOccurrenceType(def: OccurrenceDefinition, t: OccurrenceType) returns (r: Option<ValidationError>)
    ensures r == GeneralError(t, def)
    ensures r.None? <==> FieldsOk(t, def) && RepeatTypeFits(t, def.repeatDefinition)
  {
    if t.HasOffset() && (def.offset.None? || def.offset.value < t.OffsetMin()) {
      return Some(OffsetInvalid(t.OffsetMin()));
    }
    if t.HasDayOfWeek() && (def.dayOfWeek.None? || def.dayOfWeek.value < 0 || def.dayOfWeek.value >= 7) {
      return Some(DayOfWeekInvalid);
    }
    if t.HasSpecificMonth() && (def.month.None? || def.month.value < 0 || def.month.value >= 12) {
      return Some(MonthInvalid);
    }
    if def.repeatDefinition.Some? {
      var isFound := IsRepeatTypeAllowed(t.AllowedRepeatTypes(), def.repeatDefinition.value.repeatType);
      if !isFound {
        return Some(RepeatTypeNotAllowed);
      }
    }
    return None;
  }

  predicate RepeatTypeFits(t: OccurrenceType, rd: Option<RepeatDefinition>) {
    rd.Some? ==> rd.value.repeatType.Some? && rd.value.repeatType.value in t.AllowedRepeatTypes()
  }

  /** `validateRepeatType_hasPeriod`. */
  function PeriodError(rd: RepeatDefinition): (r: Option<ValidationError>)
    ensures r.None? <==> PeriodFieldsOk(rd)
    ensures r.Some? ==> r.value in {PeriodRequired, FinalDateInvalid, MaxRepeatsInvalid}
    ensures r == Some(FinalDateInvalid) ==> rd.period.Some? && rd.period.value >= 0
    ensures r == Some(MaxRepeatsInvalid) ==>
      (rd.period.Some? && rd.period.value >= 0 && (rd.finalYMDDate.Some? ==> DatePart.Valid(rd.finalYMDDate.value)))
  {
    if rd.period.None? || rd.period.value < 0 then Some(PeriodRequired)
    else if rd.finalYMDDate.Some? && !DatePart.Valid(rd.finalYMDDate.value) then Some(FinalDateInvalid)
    else if rd.maxRepeats.NonNumeric? || (rd.maxRepeats.Numeric? && rd.maxRepeats.value < 0) then Some(MaxRepeatsInvalid)
    else None
  }

  /**
   * `maxRepeats` is rejected exactly when the period and final date pass and
   * it is set to something that is not a number or to a negative number.
   */
  lemma MaxRepeatsChecked(rd: RepeatDefinition)
    requires rd.period.Some? && rd.period.value >= 0 && (rd.finalYMDDate.Some? ==> DatePart.Valid(rd.finalYMDDate.value))
    ensures PeriodError(rd) == Some(MaxRepeatsInvalid) <==>
      rd.maxRepeats.NonNumeric? || (rd.maxRepeats.Numeric? && rd.maxRepeats.value < 0)
    ensures PeriodError(rd) == None <==> rd.maxRepeats.Unset? || (rd.maxRepeats.Numeric? && rd.maxRepeats.value >= 0)
  {
  }

  predicate PeriodFieldsOk(rd: RepeatDefinition) {
    rd.period.Some? && rd.period.value >= 0
    && (rd.finalYMDDate.Some? ==> DatePart.Valid(rd.finalYMDDate.value))
    && (rd.maxRepeats.Unset? || (rd.maxRepeats.Numeric? && rd.maxRepeats.value >= 0))
  }

  /** `validateOccurrenceRepeatDefinition`: `NoRepeat` is always valid. */
  function ValidateOccurrenceRepeatDefinition(rd: RepeatDefinition): (r: Option<ValidationError>)
    ensures rd.repeatType.None? <==> r == Some(RepeatTypeInvalid)
    ensures r.None? <==> RepeatDefinitionOk(rd)
  {
    match rd.repeatType
    case None => Some(RepeatTypeInvalid)
    case Some(NoRepeat) => None
    case Some(_) => PeriodError(rd)
  }

  predicate RepeatDefinitionOk(rd: RepeatDefinition) {
    rd.repeatType.Some? && (rd.repeatType.value == NoRepeat || PeriodFieldsOk(rd))
  }

  /** A definition that validation accepts. */
  predicate ValidDefinition(def: OccurrenceDefinition) {
    def.occurrenceType.Some?
    && FieldsOk(def.occurrenceType.value, def)
    && RepeatTypeFits(def.occurrenceType.value, def.repeatDefinition)
    && (def.repeatDefinition.Some? ==> RepeatDefinitionOk(def.repeatDefinition.value))
  }

  /** `validateDateOccurrenceDefinition`: the type's own checks first, then the repeat definition's. */
  method ValidateDateOccurrenceDefinition(def: OccurrenceDefinition) returns (r: Option<ValidationError>)
    ensures r.None? <==> ValidDefinition(def)
    ensures def.occurrenceType.None? ==> r == Some(OccurrenceTypeInvalid)
    ensures def.occurrenceType.Some? && GeneralError(def.occurrenceType.value, def).Some? ==>
      r == GeneralError(def.occurrenceType.value, def)
    ensures r.Some? && def.occurrenceType.Some? && GeneralError(def.occurrenceType.value, def).None? ==>
      r.value in {PeriodRequired, FinalDateInvalid, MaxRepeatsInvalid}
  {
    if def.occurrenceType.None? {
      return Some(OccurrenceTypeInvalid);
    }
    r := ValidateGeneralOccurrenceType(def, def.occurrenceType.value);
    if r.None? && def.repeatDefinition.Some? {
      r := ValidateOccurrenceRepeatDefinition(def.repeatDefinition.value);
    }
  }

  // ---------------------------------------------------------------------
  // Repeat evaluation

  /** `isRepeatDefinitionRepeat`: a repeat definition whose type is not `NoRepeat`. */
  predicate IsRepeat(rd: Option<RepeatDefinition>) {
    rd.Some? && rd.value.repeatType != Some(NoRepeat)
  }

  /**
   * What advancing needs: with a positive count and a repeating definition the
   * repeat type must be known and the period a number.
   */
  predicate Advanceable(rd: Option<RepeatDefinition>, count: nat) {
    count == 0 || !IsRepeat(rd) || (rd.value.repeatType.Some? && rd.value.period.Some?)
  }

  /** `getNextRepeatYMDDate` of the repeat types that advance. */
  function Advance(repeatType: RepeatType, period: int, ref: Date): (r: Date)
    requires DatePart.Valid(ref) && repeatType != NoRepeat
    ensures DatePart.Valid(r)
    ensures repeatType == Daily ==> DatePart.DayNumber(r) == DatePart.DayNumber(ref) + period
    ensures repeatType == Weekly ==> DatePart.DayNumber(r) == DatePart.DayNumber(ref) + 7 * period
    ensures repeatType == Monthly && period != 0 ==> r.year * 12 + r.month == ref.year * 12 + ref.month + period
    ensures repeatType == Monthly ==> r.dayOfMonth == JsMath.Min(ref.dayOfMonth, DatePart.LastDayOfMonth(r))
    ensures repeatType == Yearly && period != 0 ==> r.year == ref.year + period && r.month == ref.month
  {
    match repeatType
    case Daily => DatePart.AddDays(ref, period)
    case Weekly => DatePart.AddDays(ref, period * 7)
    case Monthly => DatePart.AddMonthsSpec(ref, period)
    case Yearly => DatePart.AddYearsSpec(ref, period)
  }

  /** `YMDDate.compare(a, b) > 0`. */
  predicate After(a: Date, b: Date) {
    DatePart.CompareDateParts(Some(a), Some(b)) > 0
  }

  /**
   * `getNextRepeatDefinitionYMDDate`: a count of 0 leaves the reference date
   * alone; otherwise a repeating definition advances it unless `maxRepeats` is
   * a number and used up or the advanced date is after `finalYMDDate`.
   */
  function NextRepeatDate(rd: Option<RepeatDefinition>, ref: Date, count: nat): (r: Option<Date>)
    requires DatePart.Valid(ref) && Advanceable(rd, count)
    ensures r.Some? ==> DatePart.Valid(r.value)
    ensures count == 0 ==> r == Some(ref)
  {
    if count == 0 then Some(ref)
    else if !IsRepeat(rd) then None
    else if rd.value.maxRepeats.Numeric? && count >= rd.value.maxRepeats.value then None
    else
      var next := Advance(rd.value.repeatType.value, rd.value.period.value, ref);
      if rd.value.finalYMDDate.Some? && After(next, rd.value.finalYMDDate.value) then None
      else Some(next)
  }

  /** `YMDDate.compare(a, b) > 0` is "b is earlier in the calendar than a". */
  lemma AfterIsLater(a: Date, b: Date)
    ensures After(a, b) <==> DatePart.LexLess(b, a)
  {
  }

  /**
   * The evaluator's cases for a positive count: no repeat ends the sequence,
   * `maxRepeats` ends it before advancing, and `finalYMDDate` is inclusive.
   */
  lemma RepeatEvaluation(rd: Option<RepeatDefinition>, ref: Date, count: nat)
    requires DatePart.Valid(ref) && Advanceable(rd, count) && count > 0
    ensures !IsRepeat(rd) ==> NextRepeatDate(rd, ref, count).None?
    ensures IsRepeat(rd) && rd.value.maxRepeats.Numeric? && count >= rd.value.maxRepeats.value ==>
      NextRepeatDate(rd, ref, count).None?
    ensures IsRepeat(rd) && (!rd.value.maxRepeats.Numeric? || count < rd.value.maxRepeats.value) ==>
      var next := Advance(rd.value.repeatType.value, rd.value.period.value, ref);
      && (NextRepeatDate(rd, ref, count).Some? ==> NextRepeatDate(rd, ref, count) == Some(next))
      && (NextRepeatDate(rd, ref, count).Some? <==>
          rd.value.finalYMDDate.None? || !DatePart.LexLess(rd.value.finalYMDDate.value, next))
  {
    if IsRepeat(rd) && (!rd.value.maxRepeats.Numeric? || count < rd.value.maxRepeats.value) {
      var next := Advance(rd.value.repeatType.value, rd.value.period.value, ref);
      if rd.value.finalYMDDate.Some? {
        AfterIsLater(next, rd.value.finalYMDDate.value);
      }
    }
  }

  /** With `maxRepeats` 0 only the first occurrence (count 0) is produced. */
  lemma MaxRepeatsZeroIsOnce(rd: Option<RepeatDefinition>, ref: Date, count: nat)
    requires DatePart.Valid(ref) && Advanceable(rd, count)
    requires rd.Some? && rd.value.maxRepeats == Numeric(0)
    ensures NextRepeatDate(rd, ref, count).Some? <==> count == 0
  {
  }

  /** WEEKLY with period 3 from Saturday 2020-02-29 gives 2020-03-21. */
  lemma WeeklyExample()
    ensures NextRepeatDate(Some(RepeatDefinition(Some(Weekly), Some(3), None, Unset)),
      DatePart.DatePart(2020, 1, 29), 1) == Some(DatePart.DatePart(2020, 2, 21))
  {
    assert DatePart.AddDays(DatePart.DatePart(2020, 1, 29), 21) == DatePart.DatePart(2020, 2, 21) by {
      DatePart.NormalizeExample(2020, 1, 50, DatePart.DatePart(2020, 2, 21));
    }
  }

  /** ... and with `finalYMDDate` 2020-03-21, period 4 overshoots and ends the sequence. */
  lemma FinalDateExample()
    ensures NextRepeatDate(Some(RepeatDefinition(Some(Weekly), Some(4), Some(DatePart.DatePart(2020, 2, 21)), Unset)),
      DatePart.DatePart(2020, 1, 29), 1) == None
  {
    assert DatePart.AddDays(DatePart.DatePart(2020, 1, 29), 28) == DatePart.DatePart(2020, 2, 28) by {
      DatePart.NormalizeExample(2020, 1, 57, DatePart.DatePart(2020, 2, 28));
    }
  }

  // ---------------------------------------------------------------------
  // Placing a date

  /** Months counted across years. */
  function MonthIndex(d: Date): int {
    d.year * 12 + d.month
  }

  /** A date in an earlier month has a smaller day number. */
  lemma EarlierMonth(a: Date, b: Date)
    requires DatePart.Valid(a) && DatePart.Valid(b) && MonthIndex(a) < MonthIndex(b)
    ensures DatePart.DayNumber(a) < DatePart.DayNumber(b)
  {
    assert a.year < b.year || (a.year == b.year && a.month < b.month);
    Calendar.DayNumberOrder(a.year, a.month, a.dayOfMonth, b.year, b.month, b.dayOfMonth);
  }

  /** Moving within the month only changes the day. */
  lemma AddDaysInMonth(p: Date, k: int)
    requires DatePart.Valid(p) && 1 <= p.dayOfMonth + k <= DatePart.LastDayOfMonth(p)
    ensures DatePart.AddDays(p, k) == DatePart.DatePart(p.year, p.month, p.dayOfMonth + k)
  {
  }

  /** The last of a month lies `LastDayOfMonth - 1` days after its first. */
  lemma MonthSpan(d: Date)
    requires 0 <= d.month < 12
    ensures DatePart.DayNumber(YmdDate.LastOfMonth(d))
      == DatePart.DayNumber(YmdDate.FirstOfMonth(d)) + DatePart.LastDayOfMonth(d) - 1
  {
  }

  /** December 31 lies at least 364 days after January 1 of the same year. */
  lemma YearSpan(year: int)
    ensures DatePart.DayNumber(DatePart.DatePart(year, 11, 31))
      >= DatePart.DayNumber(DatePart.DatePart(year, 0, 1)) + 364
  {
    Calendar.MonthStep(year, 11);
  }

  /**
   * DAY_OF_WEEK: the reference date moved to `dow` within its Sunday-based
   * week; without a repeat a weekday already past moves on to the next week.
   */
  function WeekdayAdjust(ref: Date, dow: int, isRepeat: bool): (r: Date)
    requires DatePart.Valid(ref) && 0 <= dow < 7
    ensures DatePart.Valid(r) && DatePart.DayOfWeek(r) == dow
    ensures !isRepeat ==> DatePart.DayNumber(ref) <= DatePart.DayNumber(r) < DatePart.DayNumber(ref) + 7
    ensures isRepeat ==> DatePart.DayNumber(r) == DatePart.DayNumber(ref) + dow - DatePart.DayOfWeek(ref)
  {
    var w := DatePart.DayOfWeek(ref);
    if w == dow then ref
    else
      var delta := if dow - w < 0 && !isRepeat then dow - w + 7 else dow - w;
      WeekdayLands(ref, delta, dow);
      DatePart.AddDays(ref, delta)
  }

  lemma WeekdayLands(ref: Date, delta: int, dow: int)
    requires DatePart.Valid(ref) && 0 <= dow < 7
    requires DatePart.DayOfWeek(ref) + delta == dow || DatePart.DayOfWeek(ref) + delta == dow + 7
    ensures DatePart.Valid(DatePart.AddDays(ref, delta)) && DatePart.DayOfWeek(DatePart.AddDays(ref, delta)) == dow
    ensures DatePart.DayNumber(DatePart.AddDays(ref, delta)) == DatePart.DayNumber(ref) + delta
  {
    YmdDate.WeekdayAfter(ref, delta);
    WithinAWeek(DatePart.DayOfWeek(ref) + delta, dow);
  }

  lemma WithinAWeek(x: int, dow: int)
    requires 0 <= dow < 7 && (x == dow || x == dow + 7)
    ensures x % 7 == dow
  {
  }

  /**
   * DAY_OF_MONTH: day `offset + 1` of the month, pinned to its last day; without
   * a repeat a day already past moves on to the following month.
   */
  function PlaceDayOfMonth(next: Date, offset: int, isRepeat: bool): (r: Date)
    requires DatePart.Valid(next) && offset >= 0
    ensures DatePart.Valid(r)
    ensures r.dayOfMonth == JsMath.Min(offset + 1, DatePart.LastDayOfMonth(r))
    ensures isRepeat ==> r.year == next.year && r.month == next.month
    ensures !isRepeat ==> !DatePart.LexLess(r, next) && MonthIndex(r) <= MonthIndex(next) + 1
  {
    var refOffset := next.dayOfMonth - 1;
    if refOffset > offset then
      AddDaysInMonth(next, offset - refOffset);
      var d := DatePart.AddDays(next, offset - refOffset);
      if !isRepeat then DatePart.AddMonthsSpec(d, 1) else d
    else if refOffset < offset then
      var newDOM := JsMath.Min(offset + 1, DatePart.LastDayOfMonth(next));
      AddDaysInMonth(next, newDOM - next.dayOfMonth);
      DatePart.AddDays(next, newDOM - next.dayOfMonth)
    else next
  }

  /**
   * DAY_END_OF_MONTH: `offset` days before the last of the month, at least the
   * first; without a repeat a day already past moves on a month, keeping its
   * day number (pinned to the new month's length) rather than counting again
   * from the new month's end.
   */
  function PlaceDayEndOfMonth(next: Date, offset: int, isRepeat: bool): (r: Date)
    requires DatePart.Valid(next) && offset >= 0
    ensures DatePart.Valid(r)
    ensures MonthIndex(r) == MonthIndex(next) ==>
      r.dayOfMonth == JsMath.Max(DatePart.LastDayOfMonth(r) - offset, 1)
    ensures MonthIndex(r) != MonthIndex(next) ==>
      && !isRepeat && MonthIndex(r) == MonthIndex(next) + 1
      && r.dayOfMonth == JsMath.Min(JsMath.Max(DatePart.LastDayOfMonth(next) - offset, 1), DatePart.LastDayOfMonth(r))
    ensures isRepeat ==> r.year == next.year && r.month == next.month
    ensures !isRepeat ==> !DatePart.LexLess(r, next)
  {
    var lastDOM := DatePart.LastDayOfMonth(next);
    var newDOM := JsMath.Max(lastDOM - offset, 1);
    var d := DatePart.DatePart(next.year, next.month, newDOM);
    if newDOM < next.dayOfMonth && !isRepeat then DatePart.AddMonthsSpec(d, 1) else d
  }

  /** DOW_OF_MONTH: the `offset`-th `dow` of the month, a month later if already past. */
  function PlaceDowOfMonth(next: Date, offset: int, dow: int, isRepeat: bool): (r: Date)
    requires DatePart.Valid(next) && offset >= 1 && 0 <= dow < 7
    ensures DatePart.Valid(r) && DatePart.DayOfWeek(r) == dow
    ensures isRepeat ==> var first := DatePart.DayNumber(YmdDate.FirstOfMonth(next));
      first + 7 * (offset - 1) <= DatePart.DayNumber(r) < first + 7 * offset
  {
    var p := YmdDate.MonthNthDayOfWeek(next, offset, dow);
    if !isRepeat && After(next, p) then YmdDate.MonthNthDayOfWeek(DatePart.AddMonthsSpec(p, 1), offset, dow)
    else p
  }

  /** DOW_END_OF_MONTH: the `offset`-th `dow` counted back from the month's end, a month later if already past. */
  function PlaceDowEndOfMonth(next: Date, offset: int, dow: int, isRepeat: bool): (r: Date)
    requires DatePart.Valid(next) && offset >= 1 && 0 <= dow < 7
    ensures DatePart.Valid(r) && DatePart.DayOfWeek(r) == dow
    ensures isRepeat ==> var last := DatePart.DayNumber(YmdDate.LastOfMonth(next));
      last - 7 * offset < DatePart.DayNumber(r) <= last - 7 * (offset - 1)
  {
    var p := YmdDate.MonthNthDayOfWeek(next, -offset, dow);
    if !isRepeat && After(next, p) then YmdDate.MonthNthDayOfWeek(DatePart.AddMonthsSpec(p, 1), -offset, dow)
    else p
  }

  /**
   * DAY_OF_SPECIFIC_MONTH: day `offset + 1` of `month`, pinned into the month;
   * without a repeat a day already past moves on a year, keeping its day
   * (February 29 becomes 28 in a common year).
   */
  function PlaceDayOfSpecificMonth(next: Date, offset: int, month: int, isRepeat: bool): (r: Date)
    requires DatePart.Valid(next) && offset >= 0 && 0 <= month < 12
    ensures DatePart.Valid(r) && r.month == month
    ensures isRepeat ==> r.year == next.year
    ensures r.year == next.year ==> r.dayOfMonth == JsMath.Min(offset + 1, DatePart.LastDayOfMonth(r))
    ensures !isRepeat ==> !DatePart.LexLess(r, next) && next.year <= r.year <= next.year + 1
  {
    var p := YmdDate.WithDayOfMonth(DatePart.DatePart(next.year, month, 1), offset + 1);
    if !isRepeat && After(next, p) then DatePart.AddYearsSpec(p, 1) else p
  }

  /** DAY_END_OF_SPECIFIC_MONTH: `offset` days before the end of `month`, at least its first. */
  function PlaceDayEndOfSpecificMonth(next: Date, offset: int, month: int, isRepeat: bool): (r: Date)
    requires DatePart.Valid(next) && offset >= 0 && 0 <= month < 12
    ensures DatePart.Valid(r) && r.month == month
    ensures isRepeat ==> r.year == next.year
    ensures r.year == next.year ==> r.dayOfMonth == JsMath.Max(DatePart.LastDayOfMonth(r) - offset, 1)
    ensures !isRepeat ==> !DatePart.LexLess(r, next) && next.year <= r.year <= next.year + 1
  {
    var first := DatePart.DatePart(next.year, month, 1);
    var p := YmdDate.WithDayOfMonth(first, DatePart.LastDayOfMonth(first) - offset);
    if !isRepeat && After(next, p) then DatePart.AddYearsSpec(p, 1) else p
  }

  /** DOW_OF_SPECIFIC_MONTH: the `offset`-th `dow` of `month`, a year later if already past. */
  function PlaceDowOfSpecificMonth(next: Date, offset: int, dow: int, month: int, isRepeat: bool): (r: Date)
    requires DatePart.Valid(next) && offset >= 1 && 0 <= dow < 7 && 0 <= month < 12
    ensures DatePart.Valid(r) && DatePart.DayOfWeek(r) == dow
    ensures isRepeat ==> var first := DatePart.DayNumber(DatePart.DatePart(next.year, month, 1));
      first + 7 * (offset - 1) <= DatePart.DayNumber(r) < first + 7 * offset
  {
    var p := YmdDate.MonthNthDayOfWeek(DatePart.DatePart(next.year, month, 1), offset, dow);
    if !isRepeat && After(next, p) then YmdDate.MonthNthDayOfWeek(DatePart.AddYearsSpec(p, 1), offset, dow)
    else p
  }

  /** DOW_END_OF_SPECIFIC_MONTH: the `offset`-th `dow` counted back from the end of `month`. */
  function PlaceDowEndOfSpecificMonth(next: Date, offset: int, dow: int, month: int, isRepeat: bool): (r: Date)
    requires DatePart.Valid(next) && offset >= 1 && 0 <= dow < 7 && 0 <= month < 12
    ensures DatePart.Valid(r) && DatePart.DayOfWeek(r) == dow
    ensures isRepeat ==> var last := DatePart.DayNumber(YmdDate.LastOfMonth(DatePart.DatePart(next.year, month, 1)));
      last - 7 * offset < DatePart.DayNumber(r) <= last - 7 * (offset - 1)
  {
    var p := YmdDate.MonthNthDayOfWeek(DatePart.DatePart(next.year, month, 1), -offset, dow);
    if !isRepeat && After(next, p) then YmdDate.MonthNthDayOfWeek(DatePart.AddYearsSpec(p, 1), -offset, dow)
    else p
  }

  /** DAY_OF_YEAR: `offset` days after January 1, placed again from the next January 1 if already past. */
  function PlaceDayOfYear(next: Date, offset: int, isRepeat: bool): (r: Date)
    requires DatePart.Valid(next) && offset >= 0
    ensures DatePart.Valid(r)
    ensures isRepeat ==> DatePart.DayNumber(r) == DatePart.DayNumber(DatePart.DatePart(next.year, 0, 1)) + offset
  {
    var p := DatePart.AddDays(DatePart.DatePart(next.year, 0, 1), offset);
    if !isRepeat && After(next, p) then DatePart.AddDays(DatePart.DatePart(p.year + 1, 0, 1), offset)
    else p
  }

  /** DAY_END_OF_YEAR: `offset` days before December 31, placed again from the next December 31 if already past. */
  function PlaceDayEndOfYear(next: Date, offset: int, isRepeat: bool): (r: Date)
    requires DatePart.Valid(next) && offset >= 0
    ensures DatePart.Valid(r)
    ensures isRepeat ==> DatePart.DayNumber(r) == DatePart.DayNumber(DatePart.DatePart(next.year, 11, 31)) - offset
  {
    var p := DaysBeforeYearEnd(next.year, offset);
    if !isRepeat && After(next, p) then DaysBeforeYearEnd(p.year + 1, offset)
    else p
  }

  /** `offset` days before December 31 of `year`. */
  function DaysBeforeYearEnd(year: int, offset: int): (r: Date)
    ensures DatePart.Valid(r)
    ensures DatePart.DayNumber(r) == DatePart.DayNumber(DatePart.DatePart(year, 11, 31)) - offset
  {
    DatePart.AddDays(DatePart.DatePart(year, 11, 31), -offset)
  }

  /** DOW_OF_YEAR: the `offset`-th `dow` of the year, a year later if already past. */
  function PlaceDowOfYear(next: Date, offset: int, dow: int, isRepeat: bool): (r: Date)
    requires DatePart.Valid(next) && offset >= 1 && 0 <= dow < 7
    ensures DatePart.Valid(r) && DatePart.DayOfWeek(r) == dow
    ensures isRepeat ==> var jan1 := DatePart.DayNumber(DatePart.DatePart(next.year, 0, 1));
      jan1 + 7 * (offset - 1) <= DatePart.DayNumber(r) < jan1 + 7 * offset
  {
    var p := YmdDate.YearNthDayOfWeek(next, offset, dow);
    if !isRepeat && After(next, p) then YmdDate.YearNthDayOfWeek(DatePart.AddYearsSpec(p, 1), offset, dow)
    else p
  }

  /** DOW_END_OF_YEAR: the `offset`-th `dow` counted back from December 31, a year later if already past. */
  function PlaceDowEndOfYear(next: Date, offset: int, dow: int, isRepeat: bool): (r: Date)
    requires DatePart.Valid(next) && offset >= 1 && 0 <= dow < 7
    ensures DatePart.Valid(r) && DatePart.DayOfWeek(r) == dow
    ensures isRepeat ==> var dec31 := DatePart.DayNumber(DatePart.DatePart(next.year, 11, 31));
      dec31 - 7 * offset < DatePart.DayNumber(r) <= dec31 - 7 * (offset - 1)
  {
    var p := YmdDate.YearNthDayOfWeek(next, -offset, dow);
    if !isRepeat && After(next, p) then YmdDate.YearNthDayOfWeek(DatePart.AddYearsSpec(p, 1), -offset, dow)
    else p
  }

  /** Without a repeat the n-th-weekday-of-month placement is not before the reference date. */
  lemma DowOfMonthNotBefore(next: Date, offset: int, dow: int)
    requires DatePart.Valid(next) && offset >= 1 && 0 <= dow < 7
    ensures DatePart.DayNumber(next) <= DatePart.DayNumber(PlaceDowOfMonth(next, offset, dow, false))
  {
    var p := YmdDate.MonthNthDayOfWeek(next, offset, dow);
    DatePart.CompareIsDayOrder(next, p);
    if After(next, p) {
      var f := YmdDate.FirstOfMonth(next);
      if MonthIndex(p) < MonthIndex(f) {
        EarlierMonth(p, f);
      }
      var q := DatePart.AddMonthsSpec(p, 1);
      EarlierMonth(next, YmdDate.FirstOfMonth(q));
    }
  }

  /**
   * The same from the end of the month, for the first four weekdays from the
   * end (which always lie inside the month).
   */
  lemma DowEndOfMonthNotBefore(next: Date, offset: int, dow: int)
    requires DatePart.Valid(next) && 1 <= offset <= 4 && 0 <= dow < 7
    ensures DatePart.DayNumber(next) <= DatePart.DayNumber(PlaceDowEndOfMonth(next, offset, dow, false))
  {
    var p := YmdDate.MonthNthDayOfWeek(next, -offset, dow);
    DatePart.CompareIsDayOrder(next, p);
    if After(next, p) {
      var f := YmdDate.FirstOfMonth(next);
      MonthSpan(next);
      if MonthIndex(p) < MonthIndex(f) {
        EarlierMonth(p, f);
      }
      var q := DatePart.AddMonthsSpec(p, 1);
      MonthSpan(q);
      EarlierMonth(next, YmdDate.FirstOfMonth(q));
    }
  }

  /** Without a repeat the n-th weekday of a specific month is not before the reference date. */
  lemma DowOfSpecificMonthNotBefore(next: Date, offset: int, dow: int, month: int)
    requires DatePart.Valid(next) && offset >= 1 && 0 <= dow < 7 && 0 <= month < 12
    ensures DatePart.DayNumber(next) <= DatePart.DayNumber(PlaceDowOfSpecificMonth(next, offset, dow, month, false))
  {
    var f := DatePart.DatePart(next.year, month, 1);
    var p := YmdDate.MonthNthDayOfWeek(f, offset, dow);
    DatePart.CompareIsDayOrder(next, p);
    if After(next, p) {
      assert YmdDate.FirstOfMonth(f) == f;
      if p.year < next.year {
        EarlierMonth(p, f);
      }
      var q := DatePart.AddYearsSpec(p, 1);
      EarlierMonth(next, YmdDate.FirstOfMonth(q));
    }
  }

  /** The same from the end of a specific month, for the first four weekdays from its end. */
  lemma DowEndOfSpecificMonthNotBefore(next: Date, offset: int, dow: int, month: int)
    requires DatePart.Valid(next) && 1 <= offset <= 4 && 0 <= dow < 7 && 0 <= month < 12
    ensures DatePart.DayNumber(next) <= DatePart.DayNumber(PlaceDowEndOfSpecificMonth(next, offset, dow, month, false))
  {
    var f := DatePart.DatePart(next.year, month, 1);
    var p := YmdDate.MonthNthDayOfWeek(f, -offset, dow);
    DatePart.CompareIsDayOrder(next, p);
    if After(next, p) {
      assert YmdDate.FirstOfMonth(f) == f;
      MonthSpan(f);
      if p.year < next.year {
        EarlierMonth(p, f);
      }
      var q := DatePart.AddYearsSpec(p, 1);
      MonthSpan(q);
      EarlierMonth(next, YmdDate.FirstOfMonth(q));
    }
  }

  /** Without a repeat the day of the year is not before the reference date. */
  lemma DayOfYearNotBefore(next: Date, offset: int)
    requires DatePart.Valid(next) && offset >= 0
    ensures DatePart.DayNumber(next) <= DatePart.DayNumber(PlaceDayOfYear(next, offset, false))
  {
    var j := DatePart.DatePart(next.year, 0, 1);
    var p := DatePart.AddDays(j, offset);
    DatePart.CompareIsDayOrder(next, p);
    if After(next, p) {
      if p.year < next.year {
        EarlierMonth(p, j);
      }
      EarlierMonth(next, DatePart.DatePart(p.year + 1, 0, 1));
    }
  }

  /** The same counted back from December 31, for offsets within one year. */
  lemma DayEndOfYearNotBefore(next: Date, offset: int)
    requires DatePart.Valid(next) && 0 <= offset <= 364
    ensures DatePart.DayNumber(next) <= DatePart.DayNumber(PlaceDayEndOfYear(next, offset, false))
  {
    var p := DaysBeforeYearEnd(next.year, offset);
    if After(next, p) {
      EndOfYearStaysInYear(next.year, offset);
      EndOfYearIsLater(next, p.year + 1, offset);
    } else {
      DatePart.CompareIsDayOrder(next, p);
    }
  }

  lemma EndOfYearStaysInYear(year: int, offset: int)
    requires 0 <= offset <= 364
    ensures DaysBeforeYearEnd(year, offset).year >= year
  {
    var p := DaysBeforeYearEnd(year, offset);
    var j := DatePart.DatePart(year, 0, 1);
    YearSpan(year);
    if p.year < year {
      EarlierMonth(p, j);
    }
  }

  lemma EndOfYearIsLater(next: Date, year: int, offset: int)
    requires DatePart.Valid(next) && next.year < year && 0 <= offset <= 364
    ensures DatePart.DayNumber(next) < DatePart.DayNumber(DaysBeforeYearEnd(year, offset))
  {
    YearSpan(year);
    EarlierMonth(next, DatePart.DatePart(year, 0, 1));
  }

  /** Without a repeat the n-th weekday of the year is not before the reference date. */
  lemma DowOfYearNotBefore(next: Date, offset: int, dow: int)
    requires DatePart.Valid(next) && offset >= 1 && 0 <= dow < 7
    ensures DatePart.DayNumber(next) <= DatePart.DayNumber(PlaceDowOfYear(next, offset, dow, false))
  {
    var p := YmdDate.YearNthDayOfWeek(next, offset, dow);
    DatePart.CompareIsDayOrder(next, p);
    if After(next, p) {
      var j := DatePart.DatePart(next.year, 0, 1);
      if p.year < next.year {
        EarlierMonth(p, j);
      }
      var q := DatePart.AddYearsSpec(p, 1);
      EarlierMonth(next, DatePart.DatePart(q.year, 0, 1));
    }
  }

  /** The same counted back from December 31, for the weekdays of one year. */
  lemma DowEndOfYearNotBefore(next: Date, offset: int, dow: int)
    requires DatePart.Valid(next) && 1 <= offset <= 52 && 0 <= dow < 7
    ensures DatePart.DayNumber(next) <= DatePart.DayNumber(PlaceDowEndOfYear(next, offset, dow, false))
  {
    var p := YmdDate.YearNthDayOfWeek(next, -offset, dow);
    DatePart.CompareIsDayOrder(next, p);
    if After(next, p) {
      YearSpan(next.year);
      if p.year < next.year {
        EarlierMonth(p, DatePart.DatePart(next.year, 0, 1));
      }
      var q := DatePart.AddYearsSpec(p, 1);
      YearSpan(q.year);
      EarlierMonth(next, DatePart.DatePart(q.year, 0, 1));
    }
  }

  // ---------------------------------------------------------------------
  // Resolving the next date

  /** What a resolver reads: a known type, the type's fields, and what advancing needs. */
  predicate Resolvable(def: OccurrenceDefinition, count: nat) {
    def.occurrenceType.Some? && FieldsOk(def.occurrenceType.value, def) && Advanceable(def.repeatDefinition, count)
  }

  /** The placement step of the resolvers that advance first and place afterwards. */
  function Place(t: OccurrenceType, def: OccurrenceDefinition, next: Date, isRepeat: bool): (r: Date)
    requires DatePart.Valid(next) && !t.DayOfWeek? && FieldsOk(t, def)
    ensures DatePart.Valid(r)
  {
    match t
    case DayOfMonth => PlaceDayOfMonth(next, def.offset.value, isRepeat)
    case DayEndOfMonth => PlaceDayEndOfMonth(next, def.offset.value, isRepeat)
    case DowOfMonth => PlaceDowOfMonth(next, def.offset.value, def.dayOfWeek.value, isRepeat)
    case DowEndOfMonth => PlaceDowEndOfMonth(next, def.offset.value, def.dayOfWeek.value, isRepeat)
    case DayOfSpecificMonth => PlaceDayOfSpecificMonth(next, def.offset.value, def.month.value, isRepeat)
    case DayEndOfSpecificMonth => PlaceDayEndOfSpecificMonth(next, def.offset.value, def.month.value, isRepeat)
    case DowOfSpecificMonth =>
      PlaceDowOfSpecificMonth(next, def.offset.value, def.dayOfWeek.value, def.month.value, isRepeat)
    case DowEndOfSpecificMonth =>
      PlaceDowEndOfSpecificMonth(next, def.offset.value, def.dayOfWeek.value, def.month.value, isRepeat)
    case DayOfYear => PlaceDayOfYear(next, def.offset.value, isRepeat)
    case DayEndOfYear => PlaceDayEndOfYear(next, def.offset.value, isRepeat)
    case DowOfYear => PlaceDowOfYear(next, def.offset.value, def.dayOfWeek.value, isRepeat)
    case DowEndOfYear => PlaceDowEndOfYear(next, def.offset.value, def.dayOfWeek.value, isRepeat)
  }

  /**
   * `occurrenceType.getNextYMDDate`: DAY_OF_WEEK adjusts the reference date
   * and then advances it; every other type advances it and then places it.
   */
  function NextYmdDate(def: OccurrenceDefinition, ref: Date, count: nat): (r: Option<Date>)
    requires DatePart.Valid(ref) && Resolvable(def, count)
    ensures r.Some? ==> DatePart.Valid(r.value)
    ensures count == 0 ==> r.Some?
    ensures count > 0 && !IsRepeat(def.repeatDefinition) ==> r.None?
    ensures !def.occurrenceType.value.DayOfWeek? ==>
      (r.Some? <==> NextRepeatDate(def.repeatDefinition, ref, count).Some?)
  {
    var t := def.occurrenceType.value;
    var isRepeat := IsRepeat(def.repeatDefinition);
    if t.DayOfWeek? then
      NextRepeatDate(def.repeatDefinition, WeekdayAdjust(ref, def.dayOfWeek.value, isRepeat), count)
    else
      match NextRepeatDate(def.repeatDefinition, ref, count)
      case None => None
      case Some(next) => Some(Place(t, def, next, isRepeat))
  }

  /**
   * The placement lands on the definition's weekday for the weekday types and
   * in the definition's month for the day-of-specific-month types.
   */
  lemma PlaceFacts(t: OccurrenceType, def: OccurrenceDefinition, next: Date, isRepeat: bool)
    requires DatePart.Valid(next) && !t.DayOfWeek? && FieldsOk(t, def)
    ensures t.HasDayOfWeek() ==> DatePart.DayOfWeek(Place(t, def, next, isRepeat)) == def.dayOfWeek.value
    ensures t.HasSpecificMonth() && !t.HasDayOfWeek() ==> Place(t, def, next, isRepeat).month == def.month.value
  {
    var r := Place(t, def, next, isRepeat);
    match t
    case DayOfMonth =>
    case DayEndOfMonth =>
    case DowOfMonth =>
      assert r == PlaceDowOfMonth(next, def.offset.value, def.dayOfWeek.value, isRepeat);
    case DowEndOfMonth =>
      assert r == PlaceDowEndOfMonth(next, def.offset.value, def.dayOfWeek.value, isRepeat);
    case DayOfSpecificMonth =>
      assert r == PlaceDayOfSpecificMonth(next, def.offset.value, def.month.value, isRepeat);
    case DayEndOfSpecificMonth =>
      assert r == PlaceDayEndOfSpecificMonth(next, def.offset.value, def.month.value, isRepeat);
    case DowOfSpecificMonth =>
      assert r == PlaceDowOfSpecificMonth(next, def.offset.value, def.dayOfWeek.value, def.month.value, isRepeat);
    case DowEndOfSpecificMonth =>
      assert r == PlaceDowEndOfSpecificMonth(next, def.offset.value, def.dayOfWeek.value, def.month.value, isRepeat);
    case DayOfYear =>
    case DayEndOfYear =>
    case DowOfYear =>
      assert r == PlaceDowOfYear(next, def.offset.value, def.dayOfWeek.value, isRepeat);
    case DowEndOfYear =>
      assert r == PlaceDowEndOfYear(next, def.offset.value, def.dayOfWeek.value, isRepeat);
  }

  /** Advancing by whole weeks keeps the weekday. */
  lemma WeeklyKeepsWeekday(d: Date, weeks: int)
    requires DatePart.Valid(d)
    ensures DatePart.DayOfWeek(Advance(Weekly, weeks, d)) == DatePart.DayOfWeek(d)
  {
    assert Advance(Weekly, weeks, d) == DatePart.AddDays(d, weeks * 7);
    YmdDate.WeekdayAfter(d, weeks * 7);
    WholeWeeks(DatePart.DayOfWeek(d), weeks);
  }

  lemma WholeWeeks(w: int, weeks: int)
    requires 0 <= w < 7
    ensures (w + weeks * 7) % 7 == w
  {
    var a := w + weeks * 7;
    assert a == 7 * (a / 7) + a % 7;
    assert 7 * (a / 7 - weeks) == w - a % 7;
  }

  /**
   * The resolved date falls on the definition's weekday; for DAY_OF_WEEK,
   * once the date has been advanced, only when it advances by whole weeks.
   */
  lemma ResolvedWeekday(def: OccurrenceDefinition, ref: Date, count: nat)
    requires DatePart.Valid(ref) && Resolvable(def, count) && def.occurrenceType.value.HasDayOfWeek()
    requires def.occurrenceType.value.DayOfWeek? && count > 0 ==>
      def.repeatDefinition.Some? && def.repeatDefinition.value.repeatType == Some(Weekly)
    ensures NextYmdDate(def, ref, count).Some? ==>
      DatePart.DayOfWeek(NextYmdDate(def, ref, count).value) == def.dayOfWeek.value
  {
    var r := NextYmdDate(def, ref, count);
    var t := def.occurrenceType.value;
    if !t.DayOfWeek? && r.Some? {
      var next := NextRepeatDate(def.repeatDefinition, ref, count).value;
      assert r.value == Place(t, def, next, IsRepeat(def.repeatDefinition));
      PlaceFacts(t, def, next, IsRepeat(def.repeatDefinition));
    } else if t.DayOfWeek? && count > 0 && r.Some? {
      var adjusted := WeekdayAdjust(ref, def.dayOfWeek.value, true);
      WeeklyKeepsWeekday(adjusted, def.repeatDefinition.value.period.value);
    }
  }

  /** Without a repeat, DAY_OF_WEEK gives the first day with that weekday on or after the reference date. */
  lemma DayOfWeekFirstOccurrence(def: OccurrenceDefinition, ref: Date)
    requires DatePart.Valid(ref) && Resolvable(def, 0) && def.occurrenceType.value.DayOfWeek?
    requires !IsRepeat(def.repeatDefinition)
    ensures var r := NextYmdDate(def, ref, 0).value;
      && DatePart.DayOfWeek(r) == def.dayOfWeek.value
      && DatePart.DayNumber(ref) <= DatePart.DayNumber(r) < DatePart.DayNumber(ref) + 7
  {
  }

  /**
   * Without a repeat, every type places the first occurrence on or after the
   * reference date (for the from-the-end weekday types within four weeks of
   * the month's end or within a year of its end, and for DAY_END_OF_YEAR
   * within a year).
   */
  lemma NonRepeatNotBefore(def: OccurrenceDefinition, ref: Date)
    requires DatePart.Valid(ref) && Resolvable(def, 0) && !IsRepeat(def.repeatDefinition)
    requires def.occurrenceType.value in {DowEndOfMonth, DowEndOfSpecificMonth} ==> def.offset.value <= 4
    requires def.occurrenceType.value == DowEndOfYear ==> def.offset.value <= 52
    requires def.occurrenceType.value == DayEndOfYear ==> def.offset.value <= 364
    ensures DatePart.DayNumber(ref) <= DatePart.DayNumber(NextYmdDate(def, ref, 0).value)
  {
    var r := NextYmdDate(def, ref, 0).value;
    var t := def.occurrenceType.value;
    if !t.DayOfWeek? {
      assert r == Place(t, def, ref, false);
      match t
      case DayOfMonth => DatePart.CompareIsDayOrder(r, ref);
      case DayEndOfMonth => DatePart.CompareIsDayOrder(r, ref);
      case DowOfMonth => DowOfMonthNotBefore(ref, def.offset.value, def.dayOfWeek.value);
      case DowEndOfMonth => DowEndOfMonthNotBefore(ref, def.offset.value, def.dayOfWeek.value);
      case DayOfSpecificMonth => DatePart.CompareIsDayOrder(r, ref);
      case DayEndOfSpecificMonth => DatePart.CompareIsDayOrder(r, ref);
      case DowOfSpecificMonth =>
        DowOfSpecificMonthNotBefore(ref, def.offset.value, def.dayOfWeek.value, def.month.value);
      case DowEndOfSpecificMonth =>
        DowEndOfSpecificMonthNotBefore(ref, def.offset.value, def.dayOfWeek.value, def.month.value);
      case DayOfYear => DayOfYearNotBefore(ref, def.offset.value);
      case DayEndOfYear => DayEndOfYearNotBefore(ref, def.offset.value);
      case DowOfYear => DowOfYearNotBefore(ref, def.offset.value, def.dayOfWeek.value);
      case DowEndOfYear => DowEndOfYearNotBefore(ref, def.offset.value, def.dayOfWeek.value);
    }
  }

  // ---------------------------------------------------------------------
  // Occurrence state

  /** How often and when a definition has occurred; absent fields are `None`. */
  datatype OccurrenceState = OccurrenceState(
    lastOccurrenceYMDDate: Option<Date>,
    occurrenceCount: Option<nat>,
    occurrencesAllDone: bool)

  /** The occurrence count a state contributes, 0 when absent. */
  function StateCount(state: Option<OccurrenceState>): nat {
    if state.Some? && state.value.occurrenceCount.Some? then state.value.occurrenceCount.value else 0
  }

  /** The reference date a state contributes, `today` when absent. */
  function StateDate(state: Option<OccurrenceState>, today: Date): Date {
    if state.Some? && state.value.lastOccurrenceYMDDate.Some? then state.value.lastOccurrenceYMDDate.value else today
  }

  predicate StateDateOk(state: Option<OccurrenceState>) {
    state.Some? && state.value.lastOccurrenceYMDDate.Some? ==> DatePart.Valid(state.value.lastOccurrenceYMDDate.value)
  }

  /**
   * The state `getNextDateOccurrenceState` returns: an all-done state as it is;
   * otherwise the next resolved date with the count one higher, or, when the
   * resolver is exhausted, the previous state marked all done.
   */
  function NextState(def: OccurrenceDefinition, last: Option<OccurrenceState>, today: Date): (r: OccurrenceState)
    requires DatePart.Valid(today) && StateDateOk(last) && Resolvable(def, StateCount(last))
    ensures r.lastOccurrenceYMDDate.Some? && !r.occurrencesAllDone ==> DatePart.Valid(r.lastOccurrenceYMDDate.value)
  {
    if last.Some? && last.value.occurrencesAllDone then last.value
    else Advanced(last, NextYmdDate(def, StateDate(last, today), StateCount(last)), StateCount(last))
  }

  /**
   * The state after resolving `next` from a state with `count` occurrences:
   * the date with the count one higher, or the state marked all done.
   */
  function Advanced(last: Option<OccurrenceState>, next: Option<Date>, count: nat): (r: OccurrenceState)
    requires next.None? ==> last.Some?
    ensures r.occurrencesAllDone <==> next.None?
    ensures next.Some? ==> r.lastOccurrenceYMDDate == next && r.occurrenceCount == Some(count + 1)
  {
    match next
    case None => last.value.(occurrencesAllDone := true)
    case Some(d) => OccurrenceState(Some(d), Some(count + 1), false)
  }

  /** `getNextDateOccurrenceState`, marking the copied state all done when the occurrences are used up. */
  method NextDateOccurrenceState(def: OccurrenceDefinition, lastState: Option<OccurrenceState>, today: Date)
    returns (r: OccurrenceState)
    requires DatePart.Valid(today) && StateDateOk(lastState) && Resolvable(def, StateCount(lastState))
    ensures r == NextState(def, lastState, today)
  {
    var refDate: Option<Date> := None;
    var refCount: nat := 0;
    if lastState.Some? {
      var state := lastState.value;
      if state.occurrencesAllDone {
        return state;
      }
      refDate := state.lastOccurrenceYMDDate;
      if state.occurrenceCount.Some? {
        refCount := state.occurrenceCount.value;
      }
    }
    var ref := if refDate.Some? then refDate.value else today;
    assert ref == StateDate(lastState, today) && refCount == StateCount(lastState);
    var next := NextYmdDate(def, ref, refCount);
    NextStateFromRefs(def, lastState, today, ref, refCount, next);
    if next.None? {
      r := lastState.value;
      r := r.(occurrencesAllDone := true);
      return;
    }
    r := OccurrenceState(next, Some(refCount + 1), false);
  }

  /** `NextState` in terms of the reference date and count read off the state. */
  lemma NextStateFromRefs(def: OccurrenceDefinition, last: Option<OccurrenceState>, today: Date,
                          ref: Date, refCount: nat, next: Option<Date>)
    requires DatePart.Valid(today) && StateDateOk(last) && Resolvable(def, StateCount(last))
    requires !(last.Some? && last.value.occurrencesAllDone)
    requires ref == StateDate(last, today) && refCount == StateCount(last)
    requires DatePart.Valid(ref) && next == NextYmdDate(def, ref, refCount)
    ensures next.None? ==> last.Some?
    ensures NextState(def, last, today) == Advanced(last, next, refCount)
  {
    NextStateAdvances(def, last, today);
  }

  /** A state that is not all done advances by the next resolved date. */
  lemma NextStateAdvances(def: OccurrenceDefinition, last: Option<OccurrenceState>, today: Date)
    requires DatePart.Valid(today) && StateDateOk(last) && Resolvable(def, StateCount(last))
    requires !(last.Some? && last.value.occurrencesAllDone)
    ensures NextState(def, last, today)
      == Advanced(last, NextYmdDate(def, StateDate(last, today), StateCount(last)), StateCount(last))
  {
  }

  /** An all-done state is returned unchanged. */
  lemma AllDoneIsFinal(def: OccurrenceDefinition, last: OccurrenceState, today: Date)
    requires DatePart.Valid(today) && StateDateOk(Some(last)) && Resolvable(def, StateCount(Some(last)))
    requires last.occurrencesAllDone
    ensures NextState(def, Some(last), today) == last
  {
  }

  /**
   * A state that is not all done either advances (a valid date, the count one
   * higher, not done) or is exhausted (previous date and count kept, done);
   * the first occurrence (count 0) is never exhausted.
   */
  lemma NextStateCases(def: OccurrenceDefinition, last: Option<OccurrenceState>, today: Date)
    requires DatePart.Valid(today) && StateDateOk(last) && Resolvable(def, StateCount(last))
    requires last.Some? ==> !last.value.occurrencesAllDone
    ensures var r := NextState(def, last, today);
      || (&& r.lastOccurrenceYMDDate.Some? && DatePart.Valid(r.lastOccurrenceYMDDate.value)
          && r.occurrenceCount == Some(StateCount(last) + 1) && !r.occurrencesAllDone)
      || (&& last.Some? && StateCount(last) > 0 && r.occurrencesAllDone
          && r.lastOccurrenceYMDDate == last.value.lastOccurrenceYMDDate
          && r.occurrenceCount == last.value.occurrenceCount)
    ensures StateCount(last) == 0 ==> !NextState(def, last, today).occurrencesAllDone
  {
    NextStateAdvances(def, last, today);
    var next := NextYmdDate(def, StateDate(last, today), StateCount(last));
    if next.None? {
      assert StateCount(last) > 0 && last.Some?;
    }
  }

  /** A definition without a repeat occurs once: the state after the first occurrence is all done next time. */
  lemma NonRepeatOccursOnce(def: OccurrenceDefinition, last: Option<OccurrenceState>, today: Date)
    requires DatePart.Valid(today) && StateDateOk(last) && Resolvable(def, StateCount(last))
    requires !IsRepeat(def.repeatDefinition)
    ensures var r := NextState(def, last, today);
      StateDateOk(Some(r)) && Resolvable(def, StateCount(Some(r)))
      && NextState(def, Some(r), today).occurrencesAllDone
  {
    var r := NextState(def, last, today);
    if !r.occurrencesAllDone {
      assert StateCount(Some(r)) > 0;
    }
  }

  /** Once the count reaches `maxRepeats` the state is marked all done. */
  lemma MaxRepeatsExhausts(def: OccurrenceDefinition, last: OccurrenceState, today: Date)
    requires DatePart.Valid(today) && StateDateOk(Some(last)) && Resolvable(def, StateCount(Some(last)))
    requires IsRepeat(def.repeatDefinition) && def.repeatDefinition.value.maxRepeats.Numeric?
    requires StateCount(Some(last)) > 0 && StateCount(Some(last)) >= def.repeatDefinition.value.maxRepeats.value
    ensures NextState(def, Some(last), today).occurrencesAllDone
    ensures NextState(def, Some(last), today).occurrenceCount == last.occurrenceCount
  {
  }

  // ---------------------------------------------------------------------
  // Worked examples

  /** Every Monday, without a repeat. */
  const MondayOnce := OccurrenceDefinition(Some(DayOfWeek), None, Some(1), None, None)

  /** Sunday 2020-12-20 gives Monday 2020-12-21; Monday 2020-12-21 gives itself. */
  lemma MondayOnceExamples(today: Date)
    requires DatePart.Valid(today)
    ensures NextState(MondayOnce, Some(OccurrenceState(Some(DatePart.DatePart(2020, 11, 20)), Some(0), false)), today)
      == OccurrenceState(Some(DatePart.DatePart(2020, 11, 21)), Some(1), false)
    ensures NextState(MondayOnce, Some(OccurrenceState(Some(DatePart.DatePart(2020, 11, 21)), Some(0), false)), today)
      == OccurrenceState(Some(DatePart.DatePart(2020, 11, 21)), Some(1), false)
  {
    assert DatePart.DayOfWeek(DatePart.DatePart(2020, 11, 20)) == 0;
    assert DatePart.DayOfWeek(DatePart.DatePart(2020, 11, 21)) == 1;
    AddDaysInMonth(DatePart.DatePart(2020, 11, 20), 1);
  }

  /** Tuesday 2020-12-22 gives Monday 2020-12-28, after which the occurrences are all done. */
  lemma MondayOnceNextWeek(today: Date)
    requires DatePart.Valid(today)
    ensures NextState(MondayOnce, Some(OccurrenceState(Some(DatePart.DatePart(2020, 11, 22)), Some(0), false)), today)
      == OccurrenceState(Some(DatePart.DatePart(2020, 11, 28)), Some(1), false)
    ensures NextState(MondayOnce, Some(OccurrenceState(Some(DatePart.DatePart(2020, 11, 28)), Some(1), false)), today)
      == OccurrenceState(Some(DatePart.DatePart(2020, 11, 28)), Some(1), true)
  {
    assert DatePart.DayOfWeek(DatePart.DatePart(2020, 11, 22)) == 2;
    AddDaysInMonth(DatePart.DatePart(2020, 11, 22), 6);
  }

  /** Every Monday, weekly, at most three times. */
  const MondayWeekly := OccurrenceDefinition(Some(DayOfWeek), None, Some(1), None,
    Some(RepeatDefinition(Some(Weekly), Some(1), None, Numeric(3))))

  /** From Tuesday 2020-12-08 (count 1) the repeat goes back to Monday and on a week, to 2020-12-14. */
  lemma MondayWeeklyFirstRepeat(today: Date)
    requires DatePart.Valid(today)
    ensures NextState(MondayWeekly, Some(OccurrenceState(Some(DatePart.DatePart(2020, 11, 8)), Some(1), false)), today)
      == OccurrenceState(Some(DatePart.DatePart(2020, 11, 14)), Some(2), false)
  {
    var ref := DatePart.DatePart(2020, 11, 8);
    assert DatePart.DayOfWeek(ref) == 2;
    AddDaysInMonth(ref, -1);
    assert WeekdayAdjust(ref, 1, true) == DatePart.DatePart(2020, 11, 7);
    AddDaysInMonth(DatePart.DatePart(2020, 11, 7), 7);
    assert NextYmdDate(MondayWeekly, ref, 1) == Some(DatePart.DatePart(2020, 11, 14));
  }

  /** ... then 2020-12-21 (count 3), after which `maxRepeats` 3 is used up. */
  lemma MondayWeeklyLastRepeat(today: Date)
    requires DatePart.Valid(today)
    ensures NextState(MondayWeekly, Some(OccurrenceState(Some(DatePart.DatePart(2020, 11, 14)), Some(2), false)), today)
      == OccurrenceState(Some(DatePart.DatePart(2020, 11, 21)), Some(3), false)
    ensures NextState(MondayWeekly, Some(OccurrenceState(Some(DatePart.DatePart(2020, 11, 21)), Some(3), false)), today)
      == OccurrenceState(Some(DatePart.DatePart(2020, 11, 21)), Some(3), true)
  {
    var ref := DatePart.DatePart(2020, 11, 14);
    assert DatePart.DayOfWeek(ref) == 1;
    assert WeekdayAdjust(ref, 1, true) == ref;
    AddDaysInMonth(ref, 7);
    assert NextYmdDate(MondayWeekly, ref, 2) == Some(DatePart.DatePart(2020, 11, 21));
  }

  /** The 29th of the month, every three months. */
  const TwentyNinthQuarterly := OccurrenceDefinition(Some(DayOfMonth), Some(28), None, None,
    Some(RepeatDefinition(Some(Monthly), Some(3), None, Unset)))

  /** From 2019-11-30 a quarter on is February 2020, whose 29th exists. */
  lemma TwentyNinthInLeapFebruary(today: Date)
    requires DatePart.Valid(today)
    ensures NextState(TwentyNinthQuarterly, Some(OccurrenceState(Some(DatePart.DatePart(2019, 10, 30)), Some(1), false)), today)
      == OccurrenceState(Some(DatePart.DatePart(2020, 1, 29)), Some(2), false)
  {
    var ref := DatePart.DatePart(2019, 10, 30);
    var next := DatePart.DatePart(2020, 1, 29);
    assert DatePart.AddMonthsSpec(ref, 3) == next;
    assert NextRepeatDate(TwentyNinthQuarterly.repeatDefinition, ref, 1) == Some(next);
    assert PlaceDayOfMonth(next, 28, true) == next;
  }

  /** From 2020-11-30 a quarter on is February 2021, pinned to its 28th. */
  lemma TwentyNinthInCommonFebruary(today: Date)
    requires DatePart.Valid(today)
    ensures NextState(TwentyNinthQuarterly, Some(OccurrenceState(Some(DatePart.DatePart(2020, 10, 30)), Some(1), false)), today)
      == OccurrenceState(Some(DatePart.DatePart(2021, 1, 28)), Some(2), false)
  {
    var ref := DatePart.DatePart(2020, 10, 30);
    var next := DatePart.DatePart(2021, 1, 28);
    assert DatePart.AddMonthsSpec(ref, 3) == next;
    assert NextRepeatDate(TwentyNinthQuarterly.repeatDefinition, ref, 1) == Some(next);
    assert PlaceDayOfMonth(next, 28, true) == next;
  }

  /**
   * DAY_END_OF_MONTH with offset 1 from 2021-01-31 moves on to February and
   * keeps the day, giving 2021-02-28, the last day rather than the one before.
   */
  lemma DayEndOfMonthKeepsDay()
    ensures PlaceDayEndOfMonth(DatePart.DatePart(2021, 0, 31), 1, false) == DatePart.DatePart(2021, 1, 28)
    ensures DatePart.LastDayOfMonth(DatePart.DatePart(2021, 1, 28)) == 28
  {
  }
}
