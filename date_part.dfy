/**
 * DatePart.js: dates as (year, 0-based month, 1-based day of month) records,
 * their cleaning, text form, day/month/year arithmetic, comparison and the
 * date filters.
 */
module DatePart {
  import opened Wrappers
  import Calendar
  import JsText
  import JsMath

  datatype DatePart = DatePart(year: int, month: int, dayOfMonth: int)

  /** A date part whose month is 0..11 and whose day exists in that month. */
  predicate Valid(p: DatePart) {
    Calendar.IsValidDate(p.year, p.month, p.dayOfMonth)
  }

  /** Consecutive numbering of days, so that day arithmetic is integer arithmetic. */
  function DayNumber(p: DatePart): int
    requires 0 <= p.month < 12
  {
    Calendar.DayNumber(p.year, p.month, p.dayOfMonth)
  }

  /** Days in the month of a date part. */
  function LastDayOfMonth(p: DatePart): int
    requires 0 <= p.month < 12
  {
    Calendar.DaysInMonth(p.year, p.month)
  }

  /** Day of the week of a valid date, 0 = Sunday. */
  function DayOfWeek(p: DatePart): int
    requires 0 <= p.month < 12
  {
    Calendar.DayOfWeek(p.year, p.month, p.dayOfMonth)
  }

  /** The longest length of each month, February taken as 28. */
  const QuickMaxDayOfMonths: seq<int> := [31, 28, 31, 30, 31, 30, 31, 31, 30, 31, 30, 31]

  /**
   * What `new Date(year, month, day)` makes of any triple: the month carried
   * into the year by floor division, the day carried into the month.
   */
  function Normalize(year: int, month: int, day: int): (r: DatePart)
    ensures Valid(r)
    ensures DayNumber(r) == Calendar.DayNumber(year + month / 12, month % 12, day)
    ensures Calendar.IsValidDate(year, month, day) ==> r == DatePart(year, month, day)
  {
    var t := Calendar.Normalize(year, month, day);
    DatePart(t.0, t.1, t.2)
  }

  /** A date part object as received: each field is either a number or not (`None`). */
  datatype DatePartFields = DatePartFields(year: Option<int>, month: Option<int>, dayOfMonth: Option<int>)

  function FieldsOf(p: DatePart): DatePartFields {
    DatePartFields(Some(p.year), Some(p.month), Some(p.dayOfMonth))
  }

  /** A cleaned date part; `changed` is false when the argument itself is returned. */
  datatype Cleaned = Cleaned(value: DatePart, changed: bool)

  /** The fix-up step of `cleanDatePart` once every field is a number. */
  function CleanNumbers(year: int, month: int, day: int): (r: DatePart)
    ensures Valid(r)
    ensures r == Normalize(year, month, day)
    ensures DayNumber(r) == Calendar.DayNumber(year + month / 12, month % 12, day)
  {
    if month < 0 || month > 11 || day < 1 || day > QuickMaxDayOfMonths[month] then
      Normalize(year, month, day)
    else
      DatePart(year, month, day)
  }

  /**
   * `cleanDatePart`: `None` stays `None`; fields that are not numbers come from
   * `today`; the result is a valid date, and the argument is returned unchanged
   * exactly when it already was a valid date.
   */
  function CleanDatePart(input: Option<DatePartFields>, today: DatePart): (r: Option<Cleaned>)
    ensures r.None? <==> input.None?
    ensures r.Some? ==> r.value == CleanFields(input.value, today)
  {
    match input
    case None => None
    case Some(f) => Some(CleanFields(f, today))
  }

  /** The fields of `f`, each missing one taken from `today`. */
  function Resolved(f: DatePartFields, today: DatePart): DatePart {
    DatePart(
      if f.year.Some? then f.year.value else today.year,
      if f.month.Some? then f.month.value else today.month,
      if f.dayOfMonth.Some? then f.dayOfMonth.value else today.dayOfMonth)
  }

  /** `cleanDatePart` on an object. */
  function CleanFields(f: DatePartFields, today: DatePart): (r: Cleaned)
    ensures Valid(r.value)
    ensures !r.changed <==>
      (f.year.Some? && f.month.Some? && f.dayOfMonth.Some?
       && Calendar.IsValidDate(f.year.value, f.month.value, f.dayOfMonth.value))
    ensures !r.changed <==> FieldsOf(r.value) == f
    ensures var q := Resolved(f, today);
      DayNumber(r.value) == Calendar.DayNumber(q.year + q.month / 12, q.month % 12, q.dayOfMonth)
  {
    var q := Resolved(f, today);
    var p := CleanNumbers(q.year, q.month, q.dayOfMonth);
    UnchangedExactlyWhenValid(f, q.year, q.month, q.dayOfMonth);
    Cleaned(p, FieldsOf(p) != f)
  }

  lemma UnchangedExactlyWhenValid(f: DatePartFields, year: int, month: int, day: int)
    requires f.year.Some? ==> year == f.year.value
    requires f.month.Some? ==> month == f.month.value
    requires f.dayOfMonth.Some? ==> day == f.dayOfMonth.value
    ensures FieldsOf(CleanNumbers(year, month, day)) == f <==>
      (f.year.Some? && f.month.Some? && f.dayOfMonth.Some? && Calendar.IsValidDate(year, month, day))
  {
    var p := CleanNumbers(year, month, day);
    if f.year.Some? && f.month.Some? && f.dayOfMonth.Some? && Calendar.IsValidDate(year, month, day) {
      assert p == DatePart(year, month, day);
    }
  }

  /** A valid date part comes back from cleaning as itself. */
  lemma CleanOfValid(p: DatePart, today: DatePart)
    requires Valid(p)
    ensures CleanDatePart(Some(FieldsOf(p)), today) == Some(Cleaned(p, false))
  {
    var c := CleanFields(FieldsOf(p), today);
    assert FieldsOf(c.value) == FieldsOf(p);
  }

  /** Overflowing days and months are carried, as the two documented examples show. */
  lemma CleanCarriesOverflow(today: DatePart)
    ensures CleanDatePart(Some(DatePartFields(Some(2021), Some(11), Some(32))), today).value.value
      == DatePart(2022, 0, 1)
    ensures CleanDatePart(Some(DatePartFields(Some(2021), Some(1), Some(29))), today).value.value
      == DatePart(2021, 2, 1)
  {
    NormalizeExample(2021, 11, 32, DatePart(2022, 0, 1));
    NormalizeExample(2021, 1, 29, DatePart(2021, 2, 1));
  }

  lemma NormalizeExample(year: int, month: int, day: int, expected: DatePart)
    requires 0 <= month < 12 && Valid(expected)
    requires Calendar.DayNumber(year, month, day) == DayNumber(expected)
    ensures Normalize(year, month, day) == expected
  {
    var a := Normalize(year, month, day);
    assert month / 12 == 0 && month % 12 == month;
    Calendar.DayNumberInjective(a.year, a.month, a.dayOfMonth, expected.year, expected.month, expected.dayOfMonth);
  }

  /** `datePartToString`: the cleaned date as `year-month-day`, month 1-based, no padding. */
  function DatePartToString(input: Option<DatePartFields>, today: DatePart): (r: Option<string>)
    ensures r.None? <==> input.None?
  {
    match CleanDatePart(input, today)
    case None => None
    case Some(c) =>
      Some(JsText.IntToString(c.value.year) + "-" + JsText.IntToString(c.value.month + 1)
        + "-" + JsText.IntToString(c.value.dayOfMonth))
  }

  /**
   * `datePartFromString`: trimmed text split on '-' must give exactly three
   * parts, each starting with an integer; the result is cleaned.
   */
  function DatePartFromString(text: string): (r: Option<DatePart>)
    ensures |JsText.Split(JsText.Trim(text), '-')| != 3 ==> r.None?
    ensures r.Some? ==> Valid(r.value)
  {
    if text == "" then None
    else FromParts(JsText.Split(JsText.Trim(text), '-'), false)
  }

  /** Three integer texts become a date, the year negated when `negative`. */
  function FromParts(parts: seq<string>, negative: bool): (r: Option<DatePart>)
    ensures |parts| != 3 ==> r.None?
    ensures r.Some? ==> Valid(r.value)
  {
    if |parts| != 3 then None
    else FromNumbers(JsText.ParseInt(parts[0]), JsText.ParseInt(parts[1]), JsText.ParseInt(parts[2]), negative)
  }

  /** Parsed year, month number (1-12) and day; any of them NaN gives no date. */
  function FromNumbers(year: Option<int>, month: Option<int>, day: Option<int>, negative: bool): (r: Option<DatePart>)
    ensures r.Some? <==> year.Some? && month.Some? && day.Some?
    ensures r.Some? ==> Valid(r.value)
  {
    if year.None? || month.None? || day.None? then None
    else Some(CleanNumbers(if negative then -year.value else year.value, month.value - 1, day.value))
  }

  /** Numbers naming a valid date give that date back. */
  lemma FromValidNumbers(p: DatePart, negative: bool)
    requires Valid(p)
    ensures FromNumbers(Some(if negative then -p.year else p.year), Some(p.month + 1), Some(p.dayOfMonth), negative) == Some(p)
  {
    assert CleanNumbers(p.year, p.month, p.dayOfMonth) == p;
  }

  /** The text of a valid date with a non-negative year parses back to that date. */
  lemma StringRoundTrip(p: DatePart, today: DatePart)
    requires Valid(p) && p.year >= 0
    ensures DatePartFromString(DatePartToString(Some(FieldsOf(p)), today).value) == Some(p)
  {
    assert DatePartToString(Some(FieldsOf(p)), today).value
      == JsText.IntToString(p.year) + "-" + JsText.IntToString(p.month + 1) + "-" + JsText.IntToString(p.dayOfMonth) by {
      ToStringOfValid(p, today);
    }
    PositiveTextParses(p);
  }

  lemma PositiveTextParses(p: DatePart)
    requires Valid(p) && p.year >= 0
    ensures DatePartFromString(JsText.IntToString(p.year) + "-" + JsText.IntToString(p.month + 1)
      + "-" + JsText.IntToString(p.dayOfMonth)) == Some(p)
  {
    var ys, ms, ds := JsText.IntToString(p.year), JsText.IntToString(p.month + 1), JsText.IntToString(p.dayOfMonth);
    var text := ys + "-" + ms + "-" + ds;
    SplitThree(ys, ms, ds);
    JsText.TrimNoop(text);
    JsText.ParseIntToString(p.year);
    JsText.ParseIntToString(p.month + 1);
    JsText.ParseIntToString(p.dayOfMonth);
    assert DatePartFromString(text) == FromParts([ys, ms, ds], false);
    PartsOfValid(ys, ms, ds, p, false);
  }

  /** A valid date is written without cleaning it first. */
  lemma ToStringOfValid(p: DatePart, today: DatePart)
    requires Valid(p)
    ensures DatePartToString(Some(FieldsOf(p)), today) == Some(JsText.IntToString(p.year) + "-"
      + JsText.IntToString(p.month + 1) + "-" + JsText.IntToString(p.dayOfMonth))
  {
    assert CleanDatePart(Some(FieldsOf(p)), today).value.value == p;
  }

  /** Three pieces without '-' joined by '-' split back into those pieces. */
  lemma SplitThree(a: string, b: string, c: string)
    requires forall i :: 0 <= i < |a| ==> JsText.IsDigit(a[i])
    requires forall i :: 0 <= i < |b| ==> JsText.IsDigit(b[i])
    requires forall i :: 0 <= i < |c| ==> JsText.IsDigit(c[i])
    ensures JsText.Split(a + "-" + b + "-" + c, '-') == [a, b, c]
  {
    NoMinus(a);
    NoMinus(b);
    NoMinus(c);
    assert a + "-" + b + "-" + c == a + ['-'] + (b + ['-'] + c);
    JsText.SplitAt(a, '-', b + ['-'] + c);
    JsText.SplitAt(b, '-', c);
    JsText.SplitWhole(c, '-');
  }

  lemma NoMinus(s: string)
    requires forall i :: 0 <= i < |s| ==> JsText.IsDigit(s[i])
    ensures '-' !in s
  {
  }

  /**
   * The text of a date in a negative year starts with '-', so it splits into
   * four parts and does not parse back.
   */
  lemma NegativeYearNotParsed(p: DatePart, today: DatePart)
    requires Valid(p) && p.year < 0
    ensures DatePartFromString(DatePartToString(Some(FieldsOf(p)), today).value) == None
  {
    var ys, ms, ds := JsText.NatToString(-p.year), JsText.IntToString(p.month + 1), JsText.IntToString(p.dayOfMonth);
    NegativeYearString(p, today);
    SignedInner(ys, ms, ds);
    var t := JsText.Trim("-" + (ys + "-" + ms + "-" + ds));
    assert JsText.Split(t, '-') == [""] + JsText.Split(t[1..], '-');
  }

  /**
   * The parser with the sign of the year restored: a leading '-' of the
   * trimmed text is the year's sign, the rest is split as before.
   */
  function DatePartFromStringSigned(text: string): (r: Option<DatePart>)
    ensures r.Some? ==> Valid(r.value)
  {
    var t := JsText.Trim(text);
    if |t| > 0 && t[0] == '-' then FromParts(JsText.Split(t[1..], '-'), true)
    else FromParts(JsText.Split(t, '-'), false)
  }

  /** The corrected parser only differs on text that starts with '-'. */
  lemma SignedAgreesWithoutSign(text: string)
    requires var t := JsText.Trim(text); |t| == 0 || t[0] != '-'
    ensures DatePartFromStringSigned(text) == DatePartFromString(text)
  {
    if text == "" {
      JsText.SplitWhole("", '-');
    }
  }

  /** With the sign restored, the text of every valid date parses back to it. */
  lemma SignedStringRoundTrip(p: DatePart, today: DatePart)
    requires Valid(p)
    ensures DatePartFromStringSigned(DatePartToString(Some(FieldsOf(p)), today).value) == Some(p)
  {
    var ms, ds := JsText.IntToString(p.month + 1), JsText.IntToString(p.dayOfMonth);
    ToStringOfValid(p, today);
    if p.year >= 0 {
      StringRoundTrip(p, today);
      DigitTextTrimmed(JsText.IntToString(p.year), ms, ds);
      SignedAgreesWithoutSign(DatePartToString(Some(FieldsOf(p)), today).value);
    } else {
      SignedNegativeYear(p, today);
    }
  }

  lemma SignedNegativeYear(p: DatePart, today: DatePart)
    requires Valid(p) && p.year < 0
    ensures DatePartFromStringSigned(DatePartToString(Some(FieldsOf(p)), today).value) == Some(p)
  {
    var ys, ms, ds := JsText.NatToString(-p.year), JsText.IntToString(p.month + 1), JsText.IntToString(p.dayOfMonth);
    var text := "-" + (ys + "-" + ms + "-" + ds);
    assert DatePartToString(Some(FieldsOf(p)), today).value == text by {
      NegativeYearString(p, today);
    }
    NegativeTextParses(p);
  }

  lemma NegativeTextParses(p: DatePart)
    requires Valid(p) && p.year < 0
    ensures DatePartFromStringSigned("-" + (JsText.NatToString(-p.year) + "-" + JsText.IntToString(p.month + 1)
      + "-" + JsText.IntToString(p.dayOfMonth))) == Some(p)
  {
    var ys, ms, ds := JsText.NatToString(-p.year), JsText.IntToString(p.month + 1), JsText.IntToString(p.dayOfMonth);
    NegativeFieldsParse(p);
    SignedInner(ys, ms, ds);
    SignedParse("-" + (ys + "-" + ms + "-" + ds), ys, ms, ds, p);
  }

  lemma NegativeFieldsParse(p: DatePart)
    requires p.year < 0
    ensures JsText.ParseInt(JsText.NatToString(-p.year)) == Some(-p.year)
    ensures JsText.ParseInt(JsText.IntToString(p.month + 1)) == Some(p.month + 1)
    ensures JsText.ParseInt(JsText.IntToString(p.dayOfMonth)) == Some(p.dayOfMonth)
  {
    JsText.ParseIntMagnitude(p.year);
    JsText.ParseIntToString(p.month + 1);
    JsText.ParseIntToString(p.dayOfMonth);
  }

  /** The text of a date in a negative year is '-' before the digits of the year's magnitude. */
  lemma NegativeYearString(p: DatePart, today: DatePart)
    requires Valid(p) && p.year < 0
    ensures DatePartToString(Some(FieldsOf(p)), today).value
      == "-" + (JsText.NatToString(-p.year) + "-" + JsText.IntToString(p.month + 1) + "-" + JsText.IntToString(p.dayOfMonth))
  {
    var ys, ms, ds := JsText.NatToString(-p.year), JsText.IntToString(p.month + 1), JsText.IntToString(p.dayOfMonth);
    assert JsText.IntToString(p.year) == "-" + ys;
    assert DatePartToString(Some(FieldsOf(p)), today).value == JsText.IntToString(p.year) + "-" + ms + "-" + ds by {
      ToStringOfValid(p, today);
    }
    NegatedText(ys, ms, ds);
  }

  lemma SignedParse(text: string, ys: string, ms: string, ds: string, p: DatePart)
    requires Valid(p)
    requires var t := JsText.Trim(text); |t| > 0 && t[0] == '-' && JsText.Split(t[1..], '-') == [ys, ms, ds]
    requires JsText.ParseInt(ys) == Some(-p.year)
    requires JsText.ParseInt(ms) == Some(p.month + 1) && JsText.ParseInt(ds) == Some(p.dayOfMonth)
    ensures DatePartFromStringSigned(text) == Some(p)
  {
    var t := JsText.Trim(text);
    assert DatePartFromStringSigned(text) == FromParts(JsText.Split(t[1..], '-'), true);
    PartsOfValid(ys, ms, ds, p, true);
  }

  lemma PartsOfValid(ys: string, ms: string, ds: string, p: DatePart, negative: bool)
    requires Valid(p)
    requires JsText.ParseInt(ys) == Some(if negative then -p.year else p.year)
    requires JsText.ParseInt(ms) == Some(p.month + 1) && JsText.ParseInt(ds) == Some(p.dayOfMonth)
    ensures FromParts([ys, ms, ds], negative) == Some(p)
  {
    var parts := [ys, ms, ds];
    assert FromParts(parts, negative)
      == FromNumbers(Some(if negative then -p.year else p.year), Some(p.month + 1), Some(p.dayOfMonth), negative);
    FromValidNumbers(p, negative);
  }

  lemma NegatedText(ys: string, ms: string, ds: string)
    ensures ("-" + ys) + "-" + ms + "-" + ds == "-" + (ys + "-" + ms + "-" + ds)
  {
  }

  /** The signed parser strips the sign and splits the rest into its three runs. */
  lemma SignedInner(ys: string, ms: string, ds: string)
    requires |ys| > 0 && |ms| > 0 && |ds| > 0
    requires forall i :: 0 <= i < |ys| ==> JsText.IsDigit(ys[i])
    requires forall i :: 0 <= i < |ms| ==> JsText.IsDigit(ms[i])
    requires forall i :: 0 <= i < |ds| ==> JsText.IsDigit(ds[i])
    ensures var t := JsText.Trim("-" + (ys + "-" + ms + "-" + ds));
      |t| > 0 && t[0] == '-' && JsText.Split(t[1..], '-') == [ys, ms, ds]
  {
    var inner := ys + "-" + ms + "-" + ds;
    DigitTextTrimmed(ys, ms, ds);
    assert inner[|inner| - 1] == ds[|ds| - 1];
    SignedTextTrimmed(inner);
    SplitThree(ys, ms, ds);
  }

  /** Digit runs joined by '-' have nothing to trim and start with a digit. */
  lemma DigitTextTrimmed(a: string, b: string, c: string)
    requires |a| > 0 && |c| > 0
    requires forall i :: 0 <= i < |a| ==> JsText.IsDigit(a[i])
    requires forall i :: 0 <= i < |c| ==> JsText.IsDigit(c[i])
    ensures var text := a + "-" + b + "-" + c;
      JsText.Trim(text) == text && text[0] == a[0] && text[0] != '-'
  {
    var text := a + "-" + b + "-" + c;
    assert text[0] == a[0];
    assert text[|text| - 1] == c[|c| - 1];
    JsText.TrimNoop(text);
  }

  /** A '-' in front of trimmed text ending in a digit leaves nothing to trim. */
  lemma SignedTextTrimmed(inner: string)
    requires JsText.Trim(inner) == inner && |inner| > 0 && JsText.IsDigit(inner[|inner| - 1])
    ensures JsText.Trim("-" + inner) == "-" + inner && ("-" + inner)[1..] == inner
  {
    var text := "-" + inner;
    assert text[|text| - 1] == inner[|inner| - 1];
    JsText.TrimNoop(text);
  }

  /**
   * `addDays`: zero returns the argument; otherwise the (cleaned) date moved by
   * `delta` days.
   */
  function AddDays(p: DatePart, delta: int): (r: DatePart)
    ensures delta == 0 ==> r == p
    ensures delta != 0 ==> Valid(r)
    ensures Valid(p) ==> Valid(r) && DayNumber(r) == DayNumber(p) + delta
  {
    if delta == 0 then p
    else
      var r := Normalize(p.year, p.month, p.dayOfMonth + delta);
      assert Valid(p) ==> p.month / 12 == 0 && p.month % 12 == p.month;
      r
  }

  /**
   * What `addMonths` computes: the month moved by `delta` with the year carried
   * by floor division, the day pinned to the last day of the new month.
   */
  function AddMonthsSpec(p: DatePart, delta: int): (r: DatePart)
    ensures delta == 0 ==> r == p
    ensures delta != 0 ==> 0 <= r.month < 12 && r.year * 12 + r.month == p.year * 12 + p.month + delta
    ensures delta != 0 ==> r.dayOfMonth == JsMath.Min(p.dayOfMonth, LastDayOfMonth(r))
    ensures Valid(p) ==> Valid(r)
  {
    if delta == 0 then p
    else
      var m := p.month + delta;
      var year, month := p.year + m / 12, m % 12;
      DatePart(year, month, JsMath.Min(p.dayOfMonth, Calendar.DaysInMonth(year, month)))
  }

  /** Apart from February the quick table holds the true month lengths. */
  lemma QuickMaxIsMonthLength(year: int, month: int)
    requires 0 <= month < 12 && month != 1
    ensures QuickMaxDayOfMonths[month] == Calendar.DaysInMonth(year, month)
  {
  }

  /** `addMonths`, updating a copy of the date part field by field. */
  method AddMonths(p: DatePart, delta: int) returns (r: DatePart)
    ensures r == AddMonthsSpec(p, delta)
  {
    r := p;
    if delta != 0 {
      r := r.(month := r.month + delta);
      if r.month > 11 {
        r := r.(year := r.year + JsMath.FloorDiv(r.month, 12));
        r := r.(month := JsMath.Rem(r.month, 12));
      } else if r.month < 0 {
        JsMath.NegativeMonthRemainder(r.month);
        r := r.(year := r.year + JsMath.FloorDiv(r.month, 12));
        r := r.(month := 12 + JsMath.Rem(r.month, 12));
        if r.month == 12 {
          r := r.(month := 0);
        }
      }
      assert r.year == p.year + (p.month + delta) / 12 && r.month == (p.month + delta) % 12;
      if r.month == 1 && r.dayOfMonth >= 29 {
        r := r.(dayOfMonth := 29);
        Calendar.FebruaryTwentyNinth(r.year);
        if Normalize(r.year, r.month, r.dayOfMonth).month != 1 {
          r := r.(dayOfMonth := 28);
        }
      } else {
        if r.month != 1 {
          QuickMaxIsMonthLength(r.year, r.month);
        }
        if r.dayOfMonth > QuickMaxDayOfMonths[r.month] {
          r := r.(dayOfMonth := QuickMaxDayOfMonths[r.month]);
        }
      }
    }
  }

  /** Month arithmetic composes while no day needs pinning. */
  lemma AddMonthsCompose(p: DatePart, a: int, b: int)
    requires Valid(p) && p.dayOfMonth <= 28
    ensures AddMonthsSpec(AddMonthsSpec(p, a), b) == AddMonthsSpec(p, a + b)
  {
    var q := AddMonthsSpec(p, a);
    var r := AddMonthsSpec(q, b);
    var s := AddMonthsSpec(p, a + b);
    assert q.year * 12 + q.month == p.year * 12 + p.month + a;
    assert r.year * 12 + r.month == s.year * 12 + s.month;
    assert r.year == s.year && r.month == s.month;
  }

  /** What `addYears` computes: only the year changes, except February 29 in a common year. */
  function AddYearsSpec(p: DatePart, delta: int): (r: DatePart)
    ensures r.month == p.month
    ensures Valid(p) ==> Valid(r)
    ensures delta != 0 ==> r.year == p.year + delta
    ensures r.dayOfMonth != p.dayOfMonth ==> p.month == 1 && p.dayOfMonth >= 29 && delta != 0
  {
    if delta == 0 then p
    else
      var year := p.year + delta;
      DatePart(year, p.month,
        if p.month == 1 && p.dayOfMonth >= 29 then Calendar.DaysInMonth(year, 1) else p.dayOfMonth)
  }

  /** `addYears`, updating a copy of the date part field by field. */
  method AddYears(p: DatePart, delta: int) returns (r: DatePart)
    ensures r == AddYearsSpec(p, delta)
  {
    r := p;
    if delta != 0 {
      r := r.(year := r.year + delta);
      if r.month == 1 && r.dayOfMonth >= 29 {
        r := r.(dayOfMonth := 29);
        Calendar.FebruaryTwentyNinth(r.year);
        if Normalize(r.year, r.month, r.dayOfMonth).month != 1 {
          r := r.(dayOfMonth := 28);
        }
      }
    }
  }

  /** On valid dates, adding years is adding twelve times as many months. */
  lemma AddYearsIsTwelveMonths(p: DatePart, k: int)
    requires Valid(p)
    ensures AddYearsSpec(p, k) == AddMonthsSpec(p, 12 * k)
  {
    if k != 0 {
      assert (p.month + 12 * k) / 12 == k;
      assert (p.month + 12 * k) % 12 == p.month;
    }
  }

  /**
   * `deltaDays`: within one month the difference of the days, otherwise the
   * difference of the (cleaned) dates' day numbers.
   */
  function DeltaDays(a: DatePart, b: DatePart): (r: int)
    ensures Valid(a) && Valid(b) ==> r == DayNumber(b) - DayNumber(a)
  {
    if a.year == b.year && a.month == b.month then b.dayOfMonth - a.dayOfMonth
    else
      DayNumber(Normalize(b.year, b.month, b.dayOfMonth)) - DayNumber(Normalize(a.year, a.month, a.dayOfMonth))
  }

  /** Adding the day difference to the first date gives the second. */
  lemma AddDeltaDays(a: DatePart, b: DatePart)
    requires Valid(a) && Valid(b)
    ensures AddDays(a, DeltaDays(a, b)) == b
  {
    var r := AddDays(a, DeltaDays(a, b));
    Calendar.DayNumberInjective(r.year, r.month, r.dayOfMonth, b.year, b.month, b.dayOfMonth);
  }

  /**
   * `compareDateParts`: negative, zero or positive, lexicographically on
   * (year, month, dayOfMonth), `None` before any date.
   */
  function CompareDateParts(a: Option<DatePart>, b: Option<DatePart>): (r: int)
    ensures a.None? ==> (r == 0 <==> b.None?) && r <= 0
    ensures a.Some? && b.None? ==> r > 0
    ensures a.Some? && b.Some? ==>
      (r < 0 <==> LexLess(a.value, b.value)) && (r == 0 <==> a == b)
  {
    if a == b then 0
    else if a.None? then (if b.Some? then -1 else 0)
    else if b.None? then 1
    else if a.value.year - b.value.year != 0 then a.value.year - b.value.year
    else if a.value.month - b.value.month != 0 then a.value.month - b.value.month
    else a.value.dayOfMonth - b.value.dayOfMonth
  }

  predicate LexLess(a: DatePart, b: DatePart) {
    a.year < b.year || (a.year == b.year && a.month < b.month)
    || (a.year == b.year && a.month == b.month && a.dayOfMonth < b.dayOfMonth)
  }

  /** On valid dates the comparison agrees with the order of days. */
  lemma CompareIsDayOrder(a: DatePart, b: DatePart)
    requires Valid(a) && Valid(b)
    ensures CompareDateParts(Some(a), Some(b)) < 0 <==> DayNumber(a) < DayNumber(b)
    ensures CompareDateParts(Some(a), Some(b)) == 0 <==> DayNumber(a) == DayNumber(b)
  {
    if LexLess(a, b) {
      Calendar.DayNumberOrder(a.year, a.month, a.dayOfMonth, b.year, b.month, b.dayOfMonth);
    } else if LexLess(b, a) {
      Calendar.DayNumberOrder(b.year, b.month, b.dayOfMonth, a.year, a.month, a.dayOfMonth);
    }
  }

  /** Swapping the arguments flips the sign of the comparison. */
  lemma CompareAntisymmetric(a: Option<DatePart>, b: Option<DatePart>)
    ensures CompareDateParts(a, b) < 0 <==> CompareDateParts(b, a) > 0
  {
  }

  /** `areDatePartsIdentical`: the same fields, or both absent. */
  function AreDatePartsIdentical(a: Option<DatePart>, b: Option<DatePart>): (r: bool)
    ensures r <==> a == b
  {
    if a == b then true
    else if a.None? || b.None? then false
    else (a.value.dayOfMonth == b.value.dayOfMonth && a.value.month == b.value.month
      && a.value.year == b.value.year)
  }

  /** `areDatePartsEquivalent`: identical, or identical once both are cleaned. */
  function AreDatePartsEquivalent(a: Option<DatePart>, b: Option<DatePart>): (r: bool)
    ensures r <==> ((a.None? && b.None?) || (a.Some? && b.Some? &&
      Calendar.DayNumber(a.value.year + a.value.month / 12, a.value.month % 12, a.value.dayOfMonth)
      == Calendar.DayNumber(b.value.year + b.value.month / 12, b.value.month % 12, b.value.dayOfMonth)))
  {
    if AreDatePartsIdentical(a, b) then true
    else
      var ca := if a.Some? then Some(Normalize(a.value.year, a.value.month, a.value.dayOfMonth)) else None;
      var cb := if b.Some? then Some(Normalize(b.value.year, b.value.month, b.value.dayOfMonth)) else None;
      if ca.Some? && cb.Some? then
        Calendar.DayNumberInjective(ca.value.year, ca.value.month, ca.value.dayOfMonth,
          if DayNumber(ca.value) == DayNumber(cb.value) then cb.value.year else ca.value.year,
          if DayNumber(ca.value) == DayNumber(cb.value) then cb.value.month else ca.value.month,
          if DayNumber(ca.value) == DayNumber(cb.value) then cb.value.dayOfMonth else ca.value.dayOfMonth);
        AreDatePartsIdentical(ca, cb)
      else AreDatePartsIdentical(ca, cb)
  }

  /**
   * `getClosestSundayOnOrBefore`: a Sunday is returned as is, any other date
   * moves back by its day of the week.
   */
  function GetClosestSundayOnOrBefore(p: Option<DatePart>): (r: Option<DatePart>)
    ensures r.None? <==> p.None?
    ensures r.Some? && Valid(p.value) ==>
      Valid(r.value) && DayOfWeek(r.value) == 0
      && DayNumber(p.value) - 6 <= DayNumber(r.value) <= DayNumber(p.value)
  {
    match p
    case None => None
    case Some(d) =>
      var w := DayOfWeek(Normalize(d.year, d.month, d.dayOfMonth));
      SundayBack(d);
      if w == 0 then Some(d) else Some(AddDays(d, -w))
  }

  lemma SundayBack(d: DatePart)
    ensures Valid(d) ==> var w := DayOfWeek(d);
      Normalize(d.year, d.month, d.dayOfMonth) == d
      && (w == 0 ==> DayOfWeek(d) == 0)
      && (w != 0 ==>
        Valid(AddDays(d, -w)) && DayOfWeek(AddDays(d, -w)) == 0
        && DayNumber(d) - 6 <= DayNumber(AddDays(d, -w)) < DayNumber(d))
  {
    if Valid(d) && DayOfWeek(d) != 0 {
      BackToSunday(d, AddDays(d, -DayOfWeek(d)));
    }
  }

  lemma BackToSunday(d: DatePart, r: DatePart)
    requires Valid(d) && 0 <= r.month < 12 && DayNumber(r) == DayNumber(d) - DayOfWeek(d)
    ensures DayOfWeek(r) == 0
  {
    assert DayOfWeek(d) == (DayNumber(d) + 6) % 7;
    assert DayOfWeek(r) == (DayNumber(r) + 6) % 7;
    WeekdayBack(DayNumber(d), DayOfWeek(d), DayNumber(r));
  }

  /** Stepping back by the weekday of day `n` lands on a Sunday. */
  lemma WeekdayBack(n: int, w: int, m: int)
    requires w == (n + 6) % 7 && m == n - w
    ensures (m + 6) % 7 == 0
  {
    assert m + 6 == 7 * ((n + 6) / 7);
  }

  // ---------------------------------------------------------------------
  // Filters

  /** A single filter: any of its fields may be missing (`None`). */
  type SingleFilter = DatePartFields

  /** `isDatePartSingleFilter`: some field is a number. */
  function IsDatePartSingleFilter(f: Option<SingleFilter>): (r: bool)
    ensures r ==> f.Some?
  {
    f.Some? && (f.value.year.Some? || f.value.month.Some? || f.value.dayOfMonth.Some?)
  }

  predicate IsFullFilter(f: SingleFilter) {
    f.year.Some? && f.month.Some? && f.dayOfMonth.Some?
  }

  /** `isPartialDatePartSingleFilter`: some field set and some field missing. */
  function IsPartialDatePartSingleFilter(f: Option<SingleFilter>): (r: bool)
    ensures r <==> IsDatePartSingleFilter(f) && !IsFullFilter(f.value)
  {
    if f.None? then false
    else if f.value.year.Some? then f.value.month.None? || f.value.dayOfMonth.None?
    else f.value.month.Some? || f.value.dayOfMonth.Some?
  }

  /** A date part filter: a lower bound, an upper bound and a single date. */
  datatype DatePartFilter = DatePartFilter(
    earliestDatePart: Option<SingleFilter>,
    latestDatePart: Option<SingleFilter>,
    datePart: Option<SingleFilter>)

  /** `isDatePartFilter`: one of the three single filters has something to apply. */
  function IsDatePartFilter(f: Option<DatePartFilter>): (r: bool)
    ensures r <==> (f.Some? && (IsDatePartSingleFilter(f.value.earliestDatePart)
      || IsDatePartSingleFilter(f.value.latestDatePart) || IsDatePartSingleFilter(f.value.datePart)))
  {
    if f.None? then false
    else (IsDatePartSingleFilter(f.value.earliestDatePart)
      || IsDatePartSingleFilter(f.value.latestDatePart)
      || IsDatePartSingleFilter(f.value.datePart))
  }

  function FilterDate(f: SingleFilter): DatePart
    requires IsFullFilter(f)
  {
    DatePart(f.year.value, f.month.value, f.dayOfMonth.value)
  }

  /**
   * `isDatePartOnOrBeforeSingleFilter`: a full filter is a date comparison;
   * otherwise no field that the filter sets may be exceeded.
   */
  function IsDatePartOnOrBeforeSingleFilter(f: Option<SingleFilter>, p: Option<DatePart>): (r: bool)
    ensures p.None? ==> !r
    ensures p.Some? && f.Some? && IsFullFilter(f.value) ==>
      (r <==> CompareDateParts(p, Some(FilterDate(f.value))) <= 0)
    ensures p.Some? && (f.None? || !IsFullFilter(f.value)) ==>
      (r <==> (f.None? || ((f.value.year.None? || p.value.year <= f.value.year.value)
        && (f.value.month.None? || p.value.month <= f.value.month.value)
        && (f.value.dayOfMonth.None? || p.value.dayOfMonth <= f.value.dayOfMonth.value))))
  {
    if p.None? then false
    else if f.None? then true
    else
      var d := p.value;
      var filter := f.value;
      if filter.year.Some? && filter.month.Some? && filter.dayOfMonth.Some? then
        CompareDateParts(p, Some(FilterDate(filter))) <= 0
      else if filter.year.Some? && d.year > filter.year.value then false
      else if filter.month.Some? && d.month > filter.month.value then false
      else if filter.dayOfMonth.Some? && d.dayOfMonth > filter.dayOfMonth.value then false
      else true
  }

  /** `isDatePartOnOrAfterSingleFilter`, the mirror image. */
  function IsDatePartOnOrAfterSingleFilter(f: Option<SingleFilter>, p: Option<DatePart>): (r: bool)
    ensures p.None? ==> !r
    ensures p.Some? && f.Some? && IsFullFilter(f.value) ==>
      (r <==> CompareDateParts(p, Some(FilterDate(f.value))) >= 0)
    ensures p.Some? && (f.None? || !IsFullFilter(f.value)) ==>
      (r <==> (f.None? || ((f.value.year.None? || p.value.year >= f.value.year.value)
        && (f.value.month.None? || p.value.month >= f.value.month.value)
        && (f.value.dayOfMonth.None? || p.value.dayOfMonth >= f.value.dayOfMonth.value))))
  {
    if p.None? then false
    else if f.None? then true
    else
      var d := p.value;
      var filter := f.value;
      if filter.year.Some? && filter.month.Some? && filter.dayOfMonth.Some? then
        CompareDateParts(p, Some(FilterDate(filter))) >= 0
      else if filter.year.Some? && d.year < filter.year.value then false
      else if filter.month.Some? && d.month < filter.month.value then false
      else if filter.dayOfMonth.Some? && d.dayOfMonth < filter.dayOfMonth.value then false
      else true
  }

  /**
   * A single filter has something to apply exactly when it rejects some date:
   * the date one below each field it sets fails its lower bound.
   */
  lemma SingleFilterConstrains(f: SingleFilter)
    ensures IsDatePartSingleFilter(Some(f)) <==> exists p :: !IsDatePartOnOrAfterSingleFilter(Some(f), Some(p))
  {
    if IsDatePartSingleFilter(Some(f)) {
      var p := DatePart(
        if f.year.Some? then f.year.value - 1 else 0,
        if f.month.Some? then f.month.value - 1 else 0,
        if f.dayOfMonth.Some? then f.dayOfMonth.value - 1 else 0);
      assert !IsDatePartOnOrAfterSingleFilter(Some(f), Some(p));
    }
  }

  /** A full single filter is a date: on or before and on or after it means equal to it. */
  lemma FullFilterPinsDate(f: SingleFilter, p: DatePart)
    requires IsFullFilter(f)
    ensures IsDatePartOnOrBeforeSingleFilter(Some(f), Some(p))
      || IsDatePartOnOrAfterSingleFilter(Some(f), Some(p))
    ensures (IsDatePartOnOrBeforeSingleFilter(Some(f), Some(p))
      && IsDatePartOnOrAfterSingleFilter(Some(f), Some(p))) <==> p == FilterDate(f)
  {
  }

  /** Resolved bounds of a filter: `None` when the filter applies nothing. */
  datatype Bounds = Bounds(earliest: Option<SingleFilter>, latest: Option<SingleFilter>)

  /** `resolveFilterParts`: explicit bounds win; a lone `datePart` is both bounds. */
  function ResolveFilterParts(f: Option<DatePartFilter>): (r: Option<Bounds>)
    ensures r.Some? ==> r.value.earliest.Some? || r.value.latest.Some?
    ensures f.Some? && (f.value.earliestDatePart.Some? || f.value.latestDatePart.Some?) ==>
      r == Some(Bounds(f.value.earliestDatePart, f.value.latestDatePart))
    ensures f.Some? && f.value.earliestDatePart.None? && f.value.latestDatePart.None? ==>
      r == if f.value.datePart.Some? then Some(Bounds(f.value.datePart, f.value.datePart)) else None
  {
    if f.None? then None
    else if f.value.earliestDatePart.Some? || f.value.latestDatePart.Some? then
      Some(Bounds(f.value.earliestDatePart, f.value.latestDatePart))
    else if f.value.datePart.Some? then Some(Bounds(f.value.datePart, f.value.datePart))
    else None
  }

  function InBounds(b: Bounds, p: Option<DatePart>): bool {
    IsDatePartOnOrAfterSingleFilter(b.earliest, p) && IsDatePartOnOrBeforeSingleFilter(b.latest, p)
  }

  /** `isDatePartInFilter`: on or after the earliest bound and on or before the latest. */
  function IsDatePartInFilter(f: Option<DatePartFilter>, p: Option<DatePart>): (r: bool)
    ensures p.None? ==> !r
    ensures p.Some? && ResolveFilterParts(f).None? ==> r
    ensures ResolveFilterParts(f).Some? ==> (r <==> InBounds(ResolveFilterParts(f).value, p))
  {
    if p.None? then false
    else match ResolveFilterParts(f)
      case None => true
      case Some(b) => InBounds(b, p)
  }

  /** A lone `datePart` filter with all fields set passes that date only. */
  lemma SingleDateFilter(f: SingleFilter, p: DatePart)
    requires IsFullFilter(f)
    ensures IsDatePartInFilter(Some(DatePartFilter(None, None, Some(f))), Some(p)) <==> p == FilterDate(f)
  {
    FullFilterPinsDate(f, p);
  }

  /** `isDatePartRangeFullyInFilter`: both ends of the range pass the filter. */
  function IsDatePartRangeFullyInFilter(f: Option<DatePartFilter>, a: Option<DatePart>, b: Option<DatePart>): (r: bool)
    ensures r <==> a.Some? && b.Some? && IsDatePartInFilter(f, a) && IsDatePartInFilter(f, b)
  {
    if a.None? || b.None? then false
    else match ResolveFilterParts(f)
      case None => true
      case Some(_) => IsDatePartInFilter(f, a) && (a == b || IsDatePartInFilter(f, b))
  }

  /**
   * `isDatePartRangeOverlappingFilter`: the range is put in order; a filter
   * with a partial bound goes to the field-wise test, otherwise the earlier
   * end must be on or before the latest bound and the later end on or after
   * the earliest bound.
   */
  function IsDatePartRangeOverlappingFilter(f: Option<DatePartFilter>, a: Option<DatePart>, b: Option<DatePart>): (r: bool)
    ensures a.None? || b.None? ==> !r
    ensures a.Some? && b.Some? && ResolveFilterParts(f).None? ==> r
  {
    if a.None? || b.None? then false
    else match ResolveFilterParts(f)
      case None => true
      case Some(bounds) =>
        var (earlier, later) := if CompareDateParts(a, b) > 0 then (b.value, a.value) else (a.value, b.value);
        if IsPartialDatePartSingleFilter(bounds.earliest) || IsPartialDatePartSingleFilter(bounds.latest) then
          IsDatePartRangeOverlappingPartialFilter(bounds, earlier, later)
        else
          IsDatePartOnOrBeforeSingleFilter(bounds.latest, Some(earlier))
          && IsDatePartOnOrAfterSingleFilter(bounds.earliest, Some(later))
  }

  /** `Number.MIN_SAFE_INTEGER` and `Number.MAX_SAFE_INTEGER`. */
  const MinSafeInteger: int := -9007199254740991
  const MaxSafeInteger: int := 9007199254740991

  /** The earliest bound with missing fields defaulted to the smallest safe integer. */
  function LowBound(f: Option<SingleFilter>): DatePart {
    if f.None? then DatePart(MinSafeInteger, MinSafeInteger, MinSafeInteger)
    else DatePart(
      if f.value.year.Some? then f.value.year.value else MinSafeInteger,
      if f.value.month.Some? then f.value.month.value else MinSafeInteger,
      if f.value.dayOfMonth.Some? then f.value.dayOfMonth.value else MinSafeInteger)
  }

  /** The latest bound with missing fields defaulted to the largest safe integer. */
  function HighBound(f: Option<SingleFilter>): DatePart {
    if f.None? then DatePart(MaxSafeInteger, MaxSafeInteger, MaxSafeInteger)
    else DatePart(
      if f.value.year.Some? then f.value.year.value else MaxSafeInteger,
      if f.value.month.Some? then f.value.month.value else MaxSafeInteger,
      if f.value.dayOfMonth.Some? then f.value.dayOfMonth.value else MaxSafeInteger)
  }

  /**
   * `_isDatePartRangeOverlappingPartialFilter`: years must overlap; then month
   * and day ranges are tested with wrap-around over year and month ends, and a
   * range spanning two or more years (or months) always passes.
   */
  function IsDatePartRangeOverlappingPartialFilter(bounds: Bounds, earlier: DatePart, later: DatePart): bool
  {
    var lo := LowBound(bounds.earliest);
    var hi := HighBound(bounds.latest);
    if earlier.year > hi.year || later.year < lo.year then false
    else
      var yearSpan := later.year - earlier.year;
      var monthSpan := later.month - earlier.month;
      if yearSpan < 1 then
        if hi.month < lo.month then
          if earlier.month > hi.month && earlier.month < lo.month
            && later.month > hi.month && later.month < lo.month then false
          else DaysOverlap(lo, hi, earlier, later, monthSpan)
        else if earlier.month > hi.month || later.month < lo.month then false
        else DaysOverlap(lo, hi, earlier, later, monthSpan)
      else if yearSpan < 2 then
        if hi.month < lo.month then true
        else if earlier.month > hi.month && later.month < lo.month then false
        else DaysOverlap(lo, hi, earlier, later, monthSpan + 12)
      else true
  }

  /** The day-of-month half of the partial test, given how many month ends the range crosses. */
  function DaysOverlap(lo: DatePart, hi: DatePart, earlier: DatePart, later: DatePart, monthSpan: int): bool {
    if monthSpan < 1 then
      if hi.dayOfMonth < lo.dayOfMonth then
        !(earlier.dayOfMonth > hi.dayOfMonth && earlier.dayOfMonth < lo.dayOfMonth
          && later.dayOfMonth > hi.dayOfMonth && later.dayOfMonth < lo.dayOfMonth)
      else
        !(later.dayOfMonth < lo.dayOfMonth || earlier.dayOfMonth > hi.dayOfMonth)
    else if monthSpan < 2 then
      hi.dayOfMonth < lo.dayOfMonth
      || !(earlier.dayOfMonth > hi.dayOfMonth && later.dayOfMonth < lo.dayOfMonth)
    else true
  }

  /** A date matches defaulted bounds field by field. */
  predicate FieldwiseBetween(lo: DatePart, hi: DatePart, d: DatePart) {
    lo.year <= d.year <= hi.year && lo.month <= d.month <= hi.month
    && lo.dayOfMonth <= d.dayOfMonth <= hi.dayOfMonth
  }

  /**
   * The partial test never rejects a range that contains a date matching the
   * bounds field by field.
   */
  lemma PartialOverlapSound(bounds: Bounds, earlier: DatePart, later: DatePart, d: DatePart)
    requires Valid(earlier) && Valid(later) && Valid(d)
    requires !LexLess(d, earlier) && !LexLess(later, d)
    requires FieldwiseBetween(LowBound(bounds.earliest), HighBound(bounds.latest), d)
    ensures IsDatePartRangeOverlappingPartialFilter(bounds, earlier, later)
  {
  }

  /**
   * With complete (or missing) bounds the overlap test is the interval test:
   * it passes exactly when some date lies both in the range and between the bounds.
   */
  lemma FullOverlapIsIntersection(e: SingleFilter, l: SingleFilter, a: DatePart, b: DatePart)
    requires IsFullFilter(e) && IsFullFilter(l)
    requires !LexLess(FilterDate(l), FilterDate(e)) && !LexLess(b, a)
    ensures IsDatePartRangeOverlappingFilter(Some(DatePartFilter(Some(e), Some(l), None)), Some(a), Some(b))
      <==> exists d :: InRange(a, b, d) && InRange(FilterDate(e), FilterDate(l), d)
  {
    var r := IsDatePartRangeOverlappingFilter(Some(DatePartFilter(Some(e), Some(l), None)), Some(a), Some(b));
    if r {
      var d := if LexLess(a, FilterDate(e)) then FilterDate(e) else a;
      assert InRange(a, b, d) && InRange(FilterDate(e), FilterDate(l), d);
    }
  }

  predicate InRange(lo: DatePart, hi: DatePart, d: DatePart) {
    !LexLess(d, lo) && !LexLess(hi, d)
  }
}
