/**
 * DatePartFormatter.js: a numeric date formatter laid out along the lines of
 * 'mm/dd/yy'. Formatting writes the month, day and year in the layout's
 * slots; parsing gathers up to three runs of digits and reads the fields from
 * them, resolving a year of at most two digits into a hundred-year window.
 */
module DatePartFormatter {
  import opened Wrappers
  import opened JsText
  import JsMath
  import DP = DatePart

  // ---------------------------------------------------------------------------
  // Short years

  /** The years written with two digits, and the centuries added back to a two-digit year. */
  datatype ShortYearParts = ShortYearParts(minYear: int, maxYear: int, lt50Base: int, ge50Base: int)

  /** A reference year as passed, or the current year (a parameter) when it is not a number. */
  function RefYear(refYear: Option<int>, currentYear: int): int {
    if refYear.Some? then refYear.value else currentYear
  }

  /**
   * `getShortYearParts` as written. Below the middle of a century the window
   * is `century*100 - 49 .. century*100 + 50`, while two-digit years are read
   * back into `century*100 - 50 .. century*100 + 49`.
   */
  function ShortYearPartsAsWritten(refYear: int): (r: ShortYearParts)
    ensures r.maxYear == r.minYear + 99
    ensures refYear >= 0 ==> r.minYear <= refYear <= r.maxYear
  {
    var refCentury := JsMath.FloorDiv(refYear, 100);
    if JsMath.Rem(refYear, 100) >= 50 then
      ShortYearParts(refCentury * 100 + 50, refCentury * 100 + 149, (refCentury + 1) * 100, refCentury * 100)
    else
      ShortYearParts(refCentury * 100 + 50 - 99, refCentury * 100 + 50, refCentury * 100, (refCentury - 1) * 100)
  }

  /**
   * `getShortYearParts` corrected: below the middle of a century the window
   * ends at `century*100 + 49`, so that it holds exactly the years two-digit
   * text is read back into.
   */
  function CorrectedShortYearParts(refYear: int): (r: ShortYearParts)
    ensures r.maxYear == r.minYear + 99
    ensures refYear >= 0 ==> r.minYear <= refYear <= r.maxYear
  {
    var refCentury := JsMath.FloorDiv(refYear, 100);
    if JsMath.Rem(refYear, 100) >= 50 then
      ShortYearParts(refCentury * 100 + 50, refCentury * 100 + 149, (refCentury + 1) * 100, refCentury * 100)
    else
      ShortYearParts(refCentury * 100 + 49 - 99, refCentury * 100 + 49, refCentury * 100, (refCentury - 1) * 100)
  }

  /** A parsed year of at most two digits, moved by the century base its last two digits select. */
  function ExpandShortYear(year: int, parts: ShortYearParts): int {
    if JsMath.Rem(year, 100) >= 50 then year + parts.ge50Base else year + parts.lt50Base
  }

  /** Both windows are a hundred years wide. */
  lemma WindowsAreACentury(refYear: int)
    ensures ShortYearPartsAsWritten(refYear).maxYear == ShortYearPartsAsWritten(refYear).minYear + 99
    ensures CorrectedShortYearParts(refYear).maxYear == CorrectedShortYearParts(refYear).minYear + 99
  {
  }

  /** A year in the window is read back from its last two digits. */
  lemma ShortYearRoundTrip(refYear: int, year: int)
    requires year >= 0
    requires CorrectedShortYearParts(refYear).minYear <= year <= CorrectedShortYearParts(refYear).maxYear
    ensures ExpandShortYear(year % 100, CorrectedShortYearParts(refYear)) == year
  {
  }

  /**
   * As written, the last year of the window below the middle of a century is
   * written with two digits and read back a century earlier.
   */
  lemma AsWrittenWindowMisreadsItsLastYear(refYear: int)
    requires refYear >= 0 && refYear % 100 < 50
    ensures var p := ShortYearPartsAsWritten(refYear);
      p.minYear <= p.maxYear && p.maxYear % 100 == 50
      && ExpandShortYear(p.maxYear % 100, p) == p.maxYear - 100
  {
  }

  /** Both windows add the same centuries back to a two-digit year. */
  lemma WindowsShareBases(refYear: int)
    ensures ShortYearPartsAsWritten(refYear).lt50Base == CorrectedShortYearParts(refYear).lt50Base
    ensures ShortYearPartsAsWritten(refYear).ge50Base == CorrectedShortYearParts(refYear).ge50Base
  {
  }

  /**
   * A year the format writes so that the parse reads it back: in the window
   * as written but not its last year below the middle of a century, or
   * outside the window and of at least three digits.
   */
  predicate ReadableYear(year: int, refYear: int) {
    var p := ShortYearPartsAsWritten(refYear);
    year >= 0
    && (p.minYear <= year <= p.maxYear ==> !(JsMath.Rem(refYear, 100) < 50 && year == p.maxYear))
    && (!(p.minYear <= year <= p.maxYear) ==> year >= 100)
  }

  /** A year in the window as written, but for the year it misreads, is read back from its last two digits. */
  lemma AsWrittenShortYearRoundTrip(refYear: int, year: int)
    requires ReadableYear(year, refYear)
    requires ShortYearPartsAsWritten(refYear).minYear <= year <= ShortYearPartsAsWritten(refYear).maxYear
    ensures ExpandShortYear(year % 100, ShortYearPartsAsWritten(refYear)) == year
  {
    WindowsShareBases(refYear);
    ShortYearRoundTrip(refYear, year);
  }

  // ---------------------------------------------------------------------------
  // Layout

  /** A separator and the slot of the layout it occupies. */
  datatype Separator = Separator(index: int, separator: string)

  /**
   * The slots of the month, day and year (-1 when absent), their minimum digit
   * counts, the separators, and the slot the next layout token would take.
   */
  datatype Layout = Layout(
    monthIndex: int, monthDigits: int,
    dayIndex: int, dayDigits: int,
    yearIndex: int, yearDigits: int,
    separators: seq<Separator>,
    nextIndex: int)

  /** The layout of `['MM', '/', 'DD', '/', 'YY']`. */
  const DefaultLayout := Layout(0, 2, 2, 2, 4, 2, [Separator(1, "/"), Separator(3, "/")], 5)

  /** The state a non-empty layout array starts from. */
  const ClearedLayout := Layout(-1, 2, -1, 2, -1, 2, [], 0)

  /** A token that is one or more of one letter, in either case: the token of a date field. */
  predicate IsFieldToken(token: string, upper: char, lower: char) {
    |token| >= 1 && forall i :: 0 <= i < |token| ==> token[i] == upper || token[i] == lower
  }

  predicate IsSeparatorToken(token: string) {
    !IsFieldToken(token, 'M', 'm') && !IsFieldToken(token, 'D', 'd') && !IsFieldToken(token, 'Y', 'y')
  }

  /** One token of the layout array: a field takes the next slot; a separator joins a separator in the previous slot, or takes the next slot. */
  function AddToken(l: Layout, token: string): Layout {
    if IsFieldToken(token, 'M', 'm') then l.(monthIndex := l.nextIndex, monthDigits := |token|, nextIndex := l.nextIndex + 1)
    else if IsFieldToken(token, 'D', 'd') then l.(dayIndex := l.nextIndex, dayDigits := |token|, nextIndex := l.nextIndex + 1)
    else if IsFieldToken(token, 'Y', 'y') then l.(yearIndex := l.nextIndex, yearDigits := |token|, nextIndex := l.nextIndex + 1)
    else if |l.separators| > 0 && l.separators[|l.separators| - 1].index + 1 == l.nextIndex then
      var last := l.separators[|l.separators| - 1];
      l.(separators := l.separators[..|l.separators| - 1] + [Separator(last.index, last.separator + token)])
    else
      l.(separators := l.separators + [Separator(l.nextIndex, token)], nextIndex := l.nextIndex + 1)
  }

  /** The layout after the given tokens, from the cleared state. */
  function AddTokens(tokens: seq<string>): Layout {
    if tokens == [] then ClearedLayout else AddToken(AddTokens(tokens[..|tokens| - 1]), tokens[|tokens| - 1])
  }

  /** The layout for the constructor's layout array: the default when there is none or it is empty. */
  function LayoutOf(tokens: Option<seq<string>>): Layout {
    if tokens.None? || tokens.value == [] then DefaultLayout else AddTokens(tokens.value)
  }

  /** Does some separator contain a minus sign? */
  predicate HasMinusSeparator(separators: seq<Separator>) {
    exists k :: 0 <= k < |separators| && '-' in separators[k].separator
  }

  /** The constructor's argument: nothing, a locale string, a layout array, or an object with either. */
  datatype Options = NoOptions | LocaleName(name: string) | LayoutTokens(tokens: seq<string>)
                   | OptionsObject(locale: Option<string>, options: Option<seq<string>>)

  datatype Formatter = Formatter(locale: string, layout: Layout, isMinusSeparator: bool)

  function LocaleOf(options: Options): string {
    match options
    case LocaleName(name) => if name != "" then name else "en-US"
    case OptionsObject(Some(name), _) => if name != "" then name else "en-US"
    case _ => "en-US"
  }

  function TokensOf(options: Options): Option<seq<string>> {
    match options
    case LayoutTokens(tokens) => Some(tokens)
    case OptionsObject(_, tokens) => tokens
    case _ => None
  }

  /** The formatter the constructor builds. */
  function FormatterOf(options: Options): Formatter {
    var layout := LayoutOf(TokensOf(options));
    Formatter(LocaleOf(options), layout, HasMinusSeparator(layout.separators))
  }

  /** The `DatePartNumericFormatter` constructor. */
  method NewFormatter(options: Options) returns (f: Formatter)
    ensures f == FormatterOf(options)
  {
    var layout := DefaultLayout;
    var tokens := TokensOf(options);
    if tokens.Some? && |tokens.value| >= 1 {
      layout := ClearedLayout;
      for i := 0 to |tokens.value|
        invariant layout == AddTokens(tokens.value[..i])
      {
        assert tokens.value[..i + 1][..i] == tokens.value[..i];
        layout := AddToken(layout, tokens.value[i]);
      }
      assert tokens.value[..|tokens.value|] == tokens.value;
    }
    var isMinusSeparator := HasMinus(layout.separators);
    f := Formatter(LocaleOf(options), layout, isMinusSeparator);
  }

  /** The loop that looks for a minus sign in the separators. */
  method HasMinus(separators: seq<Separator>) returns (isMinusSeparator: bool)
    ensures isMinusSeparator == HasMinusSeparator(separators)
  {
    isMinusSeparator := false;
    var i := 0;
    while i < |separators|
      invariant 0 <= i <= |separators|
      invariant forall k :: 0 <= k < i ==> '-' !in separators[k].separator
    {
      if '-' in separators[i].separator {
        isMinusSeparator := true;
        break;
      }
      i := i + 1;
    }
  }

  /** Every slot the layout uses lies below `nextIndex`, and no two things share a slot. */
  predicate WellLaidOut(l: Layout) {
    l.nextIndex >= 0
    && l.monthIndex < l.nextIndex && l.dayIndex < l.nextIndex && l.yearIndex < l.nextIndex
    && l.monthIndex >= -1 && l.dayIndex >= -1 && l.yearIndex >= -1
    && (l.monthIndex >= 0 ==> l.monthIndex != l.dayIndex && l.monthIndex != l.yearIndex)
    && (l.dayIndex >= 0 ==> l.dayIndex != l.yearIndex)
    && (forall k :: 0 <= k < |l.separators| ==>
          0 <= l.separators[k].index < l.nextIndex
          && l.separators[k].index != l.monthIndex
          && l.separators[k].index != l.dayIndex
          && l.separators[k].index != l.yearIndex)
    && (forall k :: 0 <= k < |l.separators| - 1 ==> l.separators[k].index + 1 < l.separators[k + 1].index)
  }

  /** The separator tokens of a layout array, joined in order. */
  function SeparatorText(tokens: seq<string>): string {
    if tokens == [] then ""
    else SeparatorText(tokens[..|tokens| - 1]) + (if IsSeparatorToken(tokens[|tokens| - 1]) then tokens[|tokens| - 1] else "")
  }

  /** The separators' texts, joined in order. */
  function JoinedSeparators(separators: seq<Separator>): string {
    if separators == [] then "" else JoinedSeparators(separators[..|separators| - 1]) + separators[|separators| - 1].separator
  }

  /** A field token takes a fresh slot and keeps the layout well laid out. */
  lemma FieldTokenKeepsLayout(l: Layout, token: string)
    requires WellLaidOut(l) && !IsSeparatorToken(token)
    ensures WellLaidOut(AddToken(l, token)) && AddToken(l, token).separators == l.separators
  {
  }

  /** Does a separator token join the separator in the slot just before the next one? */
  predicate JoinsLast(l: Layout) {
    |l.separators| > 0 && l.separators[|l.separators| - 1].index + 1 == l.nextIndex
  }

  /** A separator token keeps the layout well laid out. */
  lemma SeparatorTokenKeepsLayout(l: Layout, token: string)
    requires WellLaidOut(l) && IsSeparatorToken(token)
    ensures WellLaidOut(AddToken(l, token))
  {
    var n := |l.separators|;
    var seps := AddToken(l, token).separators;
    if JoinsLast(l) {
      assert |seps| == n && forall k :: 0 <= k < n ==> seps[k].index == l.separators[k].index;
    } else {
      assert seps == l.separators + [Separator(l.nextIndex, token)];
    }
  }

  /** A separator token's text ends up at the end of the separators' joined text. */
  lemma SeparatorTokenText(l: Layout, token: string)
    requires IsSeparatorToken(token)
    ensures JoinedSeparators(AddToken(l, token).separators) == JoinedSeparators(l.separators) + token
  {
    var n := |l.separators|;
    var seps := AddToken(l, token).separators;
    if JoinsLast(l) {
      var last := l.separators[n - 1];
      assert seps == l.separators[..n - 1] + [Separator(last.index, last.separator + token)];
      assert seps[..n - 1] == l.separators[..n - 1];
      assert JoinedSeparators(l.separators) == JoinedSeparators(l.separators[..n - 1]) + last.separator;
      assert JoinedSeparators(seps) == JoinedSeparators(l.separators[..n - 1]) + (last.separator + token);
    } else {
      assert seps == l.separators + [Separator(l.nextIndex, token)];
      assert seps[..n] == l.separators;
    }
  }

  /**
   * The layout built from any token array uses each slot once, never leaves
   * two separators in adjacent slots, and keeps every separator token's text,
   * in order.
   */
  lemma {:induction false} LayoutIsWellLaidOut(tokens: seq<string>)
    ensures WellLaidOut(AddTokens(tokens))
    ensures JoinedSeparators(AddTokens(tokens).separators) == SeparatorText(tokens)
  {
    if tokens != [] {
      var rest := tokens[..|tokens| - 1];
      var token := tokens[|tokens| - 1];
      LayoutIsWellLaidOut(rest);
      if IsSeparatorToken(token) {
        SeparatorTokenKeepsLayout(AddTokens(rest), token);
        SeparatorTokenText(AddTokens(rest), token);
      } else {
        FieldTokenKeepsLayout(AddTokens(rest), token);
      }
    }
  }

  /** The default layout is month, '/', day, '/', year, each field with two digits. */
  lemma DefaultFormatter(options: Options)
    requires TokensOf(options).None? || TokensOf(options) == Some([])
    ensures FormatterOf(options).layout == DefaultLayout
    ensures WellLaidOut(DefaultLayout) && !FormatterOf(options).isMinusSeparator
  {
    assert !HasMinusSeparator(DefaultLayout.separators) by {
      assert DefaultLayout.separators[0].separator == "/";
      assert DefaultLayout.separators[1].separator == "/";
    }
  }

  /** The formatter remembers a minus sign in a separator exactly when the layout has one. */
  lemma MinusSeparatorFlag(options: Options)
    ensures FormatterOf(options).isMinusSeparator
      <==> exists k :: 0 <= k < |FormatterOf(options).layout.separators|
                       && '-' in FormatterOf(options).layout.separators[k].separator
  {
  }

  // ---------------------------------------------------------------------------
  // Format

  /** A number written with at least `digits` digits, padded with '0' in front. */
  function Padded(n: int, digits: int): string {
    PadStart(IntToString(n), digits, '0')
  }

  /** The year as written: its last two digits when the layout asks for fewer than four and it lies in the window. */
  function YearText(l: Layout, year: int, refYear: Option<int>, currentYear: int): string {
    var parts := ShortYearPartsAsWritten(RefYear(refYear, currentYear));
    if l.yearDigits < 4 && parts.minYear <= year <= parts.maxYear then Padded(JsMath.Rem(year, 100), l.yearDigits)
    else Padded(year, l.yearDigits)
  }

  /** The texts of the date fields in their slots, before the separators are placed. */
  function FieldParts(l: Layout, d: DP.DatePart, refYear: Option<int>, currentYear: int): map<int, string> {
    SlotParts(l, Padded(d.month + 1, l.monthDigits), Padded(d.dayOfMonth, l.dayDigits), YearText(l, d.year, refYear, currentYear))
  }

  /** The given texts in the slots of the month, day and year. */
  function SlotParts(l: Layout, monthText: string, dayText: string, yearText: string): map<int, string> {
    var none: map<int, string> := map[];
    var m := if l.monthIndex >= 0 then none[l.monthIndex := monthText] else none;
    var md := if l.dayIndex >= 0 then m[l.dayIndex := dayText] else m;
    if l.yearIndex >= 0 then md[l.yearIndex := yearText] else md
  }

  /** The parts after the separators are placed in their slots, later ones last. */
  function WithSeparators(parts: map<int, string>, separators: seq<Separator>): map<int, string> {
    if separators == [] then parts
    else
      var last := separators[|separators| - 1];
      WithSeparators(parts, separators[..|separators| - 1])[last.index := last.separator]
  }

  /** One past the highest slot of the layout, the length of its parts array. */
  function SlotCount(l: Layout): nat {
    var fields := JsMath.Max(JsMath.Max(l.monthIndex, l.dayIndex), JsMath.Max(l.yearIndex, -1)) + 1;
    JsMath.Max(fields, SeparatorSlots(l.separators))
  }

  function SeparatorSlots(separators: seq<Separator>): nat {
    if separators == [] then 0
    else JsMath.Max(SeparatorSlots(separators[..|separators| - 1]), separators[|separators| - 1].index + 1)
  }

  /** `parts.join('')` over the first n slots, an empty slot giving no text. */
  function Joined(parts: map<int, string>, n: nat): string {
    if n == 0 then "" else Joined(parts, n - 1) + (if n - 1 in parts then parts[n - 1] else "")
  }

  /** The text `format` returns for a date part. */
  function FormatText(f: Formatter, d: DP.DatePart, refYear: Option<int>, currentYear: int): string {
    var l := f.layout;
    LaidOut(l, Padded(d.month + 1, l.monthDigits), Padded(d.dayOfMonth, l.dayDigits), YearText(l, d.year, refYear, currentYear))
  }

  /** Field texts placed in a layout's slots, with its separators, and joined. */
  function LaidOut(l: Layout, monthText: string, dayText: string, yearText: string): string {
    Joined(WithSeparators(SlotParts(l, monthText, dayText, yearText), l.separators), SlotCount(l))
  }

  /** The `forEach` that writes each separator into its slot. */
  method PlaceSeparators(parts: map<int, string>, separators: seq<Separator>) returns (r: map<int, string>)
    ensures r == WithSeparators(parts, separators)
  {
    r := parts;
    for i := 0 to |separators|
      invariant r == WithSeparators(parts, separators[..i])
    {
      assert separators[..i + 1][..i] == separators[..i];
      r := r[separators[i].index := separators[i].separator];
    }
    assert separators[..|separators|] == separators;
  }

  /** `format`; a missing date part is returned as it is. */
  method Format(f: Formatter, datePart: Option<DP.DatePart>, refYear: Option<int>, currentYear: int) returns (r: Option<string>)
    ensures datePart.None? ==> r.None?
    ensures datePart.Some? ==> r == Some(FormatText(f, datePart.value, refYear, currentYear))
  {
    if datePart.None? {
      return None;
    }
    var d := datePart.value;
    var l := f.layout;
    var parts := FieldParts(l, d, refYear, currentYear);
    parts := PlaceSeparators(parts, l.separators);
    r := Some(Joined(parts, SlotCount(l)));
  }

  /** A natural number written with at least two digits: one '0' in front of a single digit. */
  lemma PaddedTwo(n: nat)
    ensures Padded(n, 2) == (if n < 10 then "0" else "") + NatToString(n)
  {
    var digits := NatToString(n);
    assert IntToString(n) == digits;
    NatToStringLength(n);
    PadStartPrepends(digits, 2, '0');
    if n < 10 {
      assert Repeat('0', 1) == "0";
    }
  }

  /** The two-digit text of a natural number is made of digits, and has two of them exactly below a hundred. */
  lemma PaddedTwoDigits(n: nat)
    ensures AllDigits(Padded(n, 2)) && Padded(n, 2) != ""
    ensures |Padded(n, 2)| <= 2 <==> n < 100
  {
    PaddedTwo(n);
    NatToStringLength(n);
  }

  /** `parseInt` reads a natural number back from its two-digit text. */
  lemma PaddedTwoReadsBack(n: nat)
    ensures ParseInt(Padded(n, 2)) == Some(n as int)
  {
    PaddedTwo(n);
    if n < 10 {
      ParseIntZeroPadded(n, false);
    } else {
      ParseIntToString(n);
      assert IntToString(n) == NatToString(n);
    }
  }

  /** Two-digit text of a number below 100. */
  function TwoDigits(n: int): string
    requires 0 <= n < 100
  {
    Padded(n, 2)
  }

  /** The default layout joins the month, day and year texts with '/'. */
  lemma DefaultJoin(monthText: string, dayText: string, yearText: string)
    ensures LaidOut(DefaultLayout, monthText, dayText, yearText) == monthText + "/" + dayText + "/" + yearText
  {
    var fields := SlotParts(DefaultLayout, monthText, dayText, yearText);
    assert fields[0] == monthText && fields[2] == dayText && fields[4] == yearText;
    assert forall k :: k in fields <==> k == 0 || k == 2 || k == 4;
    var first := [Separator(1, "/")];
    assert first[..0] == [];
    assert WithSeparators(fields, first) == fields[1 := "/"];
    assert DefaultLayout.separators[..1] == first;
    var parts := WithSeparators(fields, DefaultLayout.separators);
    assert parts == fields[1 := "/"][3 := "/"];
    assert SlotCount(DefaultLayout) == 5;
    assert Joined(parts, 1) == "" + monthText == monthText;
    assert Joined(parts, 2) == monthText + "/";
    assert Joined(parts, 3) == monthText + "/" + dayText;
    assert Joined(parts, 4) == monthText + "/" + dayText + "/";
  }

  /** With the default layout a date is written MM/DD/YY. */
  lemma DefaultFormatText(f: Formatter, d: DP.DatePart, refYear: Option<int>, currentYear: int)
    requires f.layout == DefaultLayout
    ensures FormatText(f, d, refYear, currentYear)
      == Padded(d.month + 1, 2) + "/" + Padded(d.dayOfMonth, 2) + "/" + YearText(DefaultLayout, d.year, refYear, currentYear)
  {
    DefaultJoin(Padded(d.month + 1, 2), Padded(d.dayOfMonth, 2), YearText(DefaultLayout, d.year, refYear, currentYear));
  }

  // ---------------------------------------------------------------------------
  // Parse

  /** A field value: NaN where `parseInt` found no digits. */
  datatype Num = Int(value: int) | NaN

  /** The parsed date part, not validated: its fields can be NaN or out of range. */
  datatype ParsedDate = ParsedDate(year: Num, month: Num, dayOfMonth: Num)

  datatype ParseError = StringUndefined | MonthMissing | DayOfMonthMissing | YearMissing

  datatype ParseResult = Parsed(datePart: ParsedDate, remainingText: string) | Failed(errorReason: ParseError)

  /**
   * The state of the digit scan: the digit runs gathered, the run in progress,
   * whether a minus sign came just before it, and where the last run ended.
   */
  datatype Scan = Scan(numbers: seq<string>, current: string, isNeg: bool, lastNumberIndex: nat)

  const StartScan := Scan([], "", false, 0)

  /**
   * The scan from `index` on. A run ended by another character is pushed, with
   * `sign` in front when a minus sign preceded it; the scan stops at the
   * character that ends the third run. Returns the state and where it stopped.
   */
  function ScanFrom(text: string, isMinusSeparator: bool, sign: char, index: nat, s: Scan): (r: (Scan, nat))
    requires index <= |text| && |s.numbers| < 3 && s.lastNumberIndex <= index
    ensures index <= r.1 <= |text| && r.0.lastNumberIndex <= r.1
    ensures |s.numbers| <= |r.0.numbers| <= 3
    ensures r.1 < |text| ==> |r.0.numbers| == 3 && r.0.current == "" && r.0.lastNumberIndex == r.1
    ensures |r.0.numbers| < 3 <==> r.1 == |text|
    decreases |text| - index
  {
    if index == |text| then (s, index)
    else
      var c := text[index];
      if IsDigit(c) then ScanFrom(text, isMinusSeparator, sign, index + 1, s.(current := s.current + [c]))
      else if s.current != "" then
        var run := if s.isNeg then [sign] + s.current else s.current;
        var pushed := Scan(s.numbers + [run], "", false, index);
        if |pushed.numbers| >= 3 then (pushed, index)
        else ScanFrom(text, isMinusSeparator, sign, index + 1, pushed)
      else if !isMinusSeparator && c == '-' then ScanFrom(text, isMinusSeparator, sign, index + 1, s.(isNeg := true))
      else ScanFrom(text, isMinusSeparator, sign, index + 1, s.(isNeg := false))
  }

  /** The digit runs of a text and where the last one ends, a run still open at the end pushed with a minus sign code. */
  function Gather(text: string, isMinusSeparator: bool, sign: char): (r: (seq<string>, nat))
    ensures |r.0| <= 3 && r.1 <= |text|
  {
    var (s, index) := ScanFrom(text, isMinusSeparator, sign, 0, StartScan);
    if s.current != "" then
      (s.numbers + [if s.isNeg then "-" + s.current else s.current], index)
    else (s.numbers, s.lastNumberIndex)
  }

  /**
   * What DatePartFormatter.js inserts before a run that a minus sign preceded and a
   * character ended: the string '-', which `String.fromCharCode` turns into
   * U+0000. Only a run ended by the end of the text gets the minus sign code.
   */
  const InsertedAsWritten: char := 0 as char

  /** The runs as DatePartFormatter.js gathers them. */
  function GatherAsWritten(text: string, isMinusSeparator: bool): (seq<string>, nat) {
    Gather(text, isMinusSeparator, InsertedAsWritten)
  }

  /** The runs with a minus sign code in front of every negative run. */
  function GatherNumbers(text: string, isMinusSeparator: bool): (seq<string>, nat) {
    Gather(text, isMinusSeparator, '-')
  }

  /** The scanning loop of `parse`. */
  method ParseNumbers(text: string, isMinusSeparator: bool) returns (numbers: seq<string>, lastNumberIndex: nat)
    ensures (numbers, lastNumberIndex) == GatherNumbers(text, isMinusSeparator)
  {
    numbers := [];
    var currentDigits := "";
    var currentIsNeg := false;
    lastNumberIndex := 0;
    var index := 0;
    while index < |text|
      invariant index <= |text| && |numbers| < 3 && lastNumberIndex <= index
      invariant ScanFrom(text, isMinusSeparator, '-', index, Scan(numbers, currentDigits, currentIsNeg, lastNumberIndex))
             == ScanFrom(text, isMinusSeparator, '-', 0, StartScan)
      decreases |text| - index
    {
      var code := text[index];
      if IsDigit(code) {
        currentDigits := currentDigits + [code];
      } else if currentDigits != "" {
        if currentIsNeg {
          currentDigits := ['-'] + currentDigits;
          currentIsNeg := false;
        }
        numbers := numbers + [currentDigits];
        currentDigits := "";
        lastNumberIndex := index;
        if |numbers| >= 3 {
          return;
        }
      } else if !isMinusSeparator && code == '-' {
        currentIsNeg := true;
      } else {
        currentIsNeg := false;
      }
      index := index + 1;
    }
    if currentDigits != "" {
      if currentIsNeg {
        currentDigits := "-" + currentDigits;
      }
      numbers := numbers + [currentDigits];
      lastNumberIndex := index;
    }
  }

  /** `parseInt(String.fromCharCode(...run))`. */
  function NumOf(run: string): Num {
    match ParseInt(run)
    case Some(v) => Int(v)
    case None => NaN
  }

  /** The run a field slot reads: run `floor(slot/2)`, if there is one. */
  function RunFor(numbers: seq<string>, slot: int): Option<string> {
    if slot >= 0 && slot / 2 < |numbers| then Some(numbers[slot / 2]) else None
  }

  /** The year read from a run: a run of at most two characters is moved into the window of the reference year. */
  function YearOf(run: string, refYear: int): Num {
    match NumOf(run)
    case NaN => NaN
    case Int(y) => if |run| <= 2 then Int(ExpandShortYear(y, ShortYearPartsAsWritten(refYear))) else Int(y)
  }

  /** A field read from the runs, or taken from the default date part, or missing. */
  function Resolve(read: Option<Num>, default: Option<int>): Option<Num> {
    if read.Some? then read else if default.Some? then Some(Int(default.value)) else None
  }

  /** `parse` with the full result, from runs gathered with the given sign character. */
  function ParseWith(f: Formatter, text: string, def: DP.DatePartFields, currentYear: int, sign: char): ParseResult {
    if text == "" then Failed(StringUndefined)
    else
      var (numbers, lastNumberIndex) := Gather(text, f.isMinusSeparator, sign);
      var l := f.layout;
      var monthRun := RunFor(numbers, l.monthIndex);
      var dayRun := RunFor(numbers, l.dayIndex);
      var yearRun := RunFor(numbers, l.yearIndex);
      var month := Resolve(if monthRun.Some? then Some(MinusOne(NumOf(monthRun.value))) else None, def.month);
      var day := Resolve(if dayRun.Some? then Some(NumOf(dayRun.value)) else None, def.dayOfMonth);
      var year := Resolve(if yearRun.Some? then Some(YearOf(yearRun.value, RefYear(def.year, currentYear))) else None, def.year);
      if month.None? then Failed(MonthMissing)
      else if day.None? then Failed(DayOfMonthMissing)
      else if year.None? then Failed(YearMissing)
      else Parsed(ParsedDate(year.value, month.value, day.value), text[lastNumberIndex..])
  }

  /** A month number read as 1-based, made 0-based. */
  function MinusOne(n: Num): Num {
    if n.Int? then Int(n.value - 1) else NaN
  }

  /** `parse` as written. */
  function ParseAsWritten(f: Formatter, text: string, def: DP.DatePartFields, currentYear: int): ParseResult {
    ParseWith(f, text, def, currentYear, InsertedAsWritten)
  }

  /** `parse`, every negative run read with its minus sign. */
  function ParseText(f: Formatter, text: string, def: DP.DatePartFields, currentYear: int): ParseResult {
    ParseWith(f, text, def, currentYear, '-')
  }

  /** `parse` with `fullInfo`. */
  method Parse(f: Formatter, text: string, def: DP.DatePartFields, currentYear: int) returns (r: ParseResult)
    ensures r == ParseText(f, text, def, currentYear)
  {
    if text == "" {
      return Failed(StringUndefined);
    }
    var numbers, lastNumberIndex := ParseNumbers(text, f.isMinusSeparator);
    var l := f.layout;
    var month: Option<Num> := None;
    var day: Option<Num> := None;
    var year: Option<Num> := None;
    if l.monthIndex >= 0 && l.monthIndex / 2 < |numbers| {
      month := Some(MinusOne(NumOf(numbers[l.monthIndex / 2])));
    }
    if l.dayIndex >= 0 && l.dayIndex / 2 < |numbers| {
      day := Some(NumOf(numbers[l.dayIndex / 2]));
    }
    if l.yearIndex >= 0 && l.yearIndex / 2 < |numbers| {
      year := Some(YearOf(numbers[l.yearIndex / 2], RefYear(def.year, currentYear)));
    }
    if month.None? {
      if def.month.Some? {
        month := Some(Int(def.month.value));
      } else {
        return Failed(MonthMissing);
      }
    }
    if day.None? {
      if def.dayOfMonth.Some? {
        day := Some(Int(def.dayOfMonth.value));
      } else {
        return Failed(DayOfMonthMissing);
      }
    }
    if year.None? {
      if def.year.Some? {
        year := Some(Int(def.year.value));
      } else {
        return Failed(YearMissing);
      }
    }
    r := Parsed(ParsedDate(year.value, month.value, day.value), text[lastNumberIndex..]);
  }

  predicate AllDigits(s: string) {
    forall i :: 0 <= i < |s| ==> IsDigit(s[i])
  }

  /** The scan reads a run of digits into the run in progress and nothing else changes. */
  lemma {:induction false} ScanDigits(text: string, isMinusSeparator: bool, sign: char, index: nat, s: Scan, run: string)
    requires index + |run| <= |text| && text[index..index + |run|] == run && AllDigits(run)
    requires |s.numbers| < 3 && s.lastNumberIndex <= index
    ensures ScanFrom(text, isMinusSeparator, sign, index, s)
         == ScanFrom(text, isMinusSeparator, sign, index + |run|, s.(current := s.current + run))
    decreases |run|
  {
    if run == [] {
      assert s.current + run == s.current;
    } else {
      assert text[index] == run[0];
      var next := s.(current := s.current + [run[0]]);
      assert text[index + 1..index + |run|] == run[1..];
      ScanDigits(text, isMinusSeparator, sign, index + 1, next, run[1..]);
      assert next.current + run[1..] == s.current + run;
    }
  }

  /** `run` stands in `text` from `at` on. */
  predicate Holds(text: string, at: nat, run: string) {
    at + |run| <= |text| && text[at..at + |run|] == run
  }

  /** Where a text joined from three pieces has its middle piece. */
  lemma Piece(text: string, a: string, b: string, c: string)
    requires text == a + b + c
    ensures |text| == |a| + |b| + |c|
    ensures Holds(text, |a|, b)
    ensures c != "" ==> text[|a| + |b|] == c[0]
  {
  }

  /** A run of digits followed by a character that is not a digit is scanned and pushed, with `sign` in front when a minus sign preceded it. */
  lemma ScanField(text: string, isMinusSeparator: bool, sign: char, index: nat, s: Scan, run: string, pushed: seq<string>)
    requires Holds(text, index, run) && index + |run| < |text| && !IsDigit(text[index + |run|])
    requires AllDigits(run) && run != ""
    requires |s.numbers| < 2 && s.lastNumberIndex <= index && s.current == ""
    requires pushed == s.numbers + [if s.isNeg then [sign] + run else run]
    ensures ScanFrom(text, isMinusSeparator, sign, index, s)
         == ScanFrom(text, isMinusSeparator, sign, index + |run| + 1, Scan(pushed, "", false, index + |run|))
  {
    ScanDigits(text, isMinusSeparator, sign, index, s, run);
    assert s.(current := s.current + run) == Scan(s.numbers, run, s.isNeg, s.lastNumberIndex);
  }

  /** A minus sign before a run of digits marks the run negative. */
  lemma ScanMinus(text: string, sign: char, index: nat, s: Scan)
    requires index < |text| && text[index] == '-'
    requires |s.numbers| < 3 && s.lastNumberIndex <= index && s.current == ""
    ensures ScanFrom(text, false, sign, index, s) == ScanFrom(text, false, sign, index + 1, s.(isNeg := true))
  {
  }

  /** A run of digits that ends the text is scanned to the end and left open. */
  lemma ScanLast(text: string, isMinusSeparator: bool, sign: char, index: nat, numbers: seq<string>, run: string)
    requires Holds(text, index, run) && index + |run| == |text| && AllDigits(run)
    requires |numbers| < 3 && 0 < index
    ensures ScanFrom(text, isMinusSeparator, sign, index, Scan(numbers, "", false, index - 1))
         == (Scan(numbers, run, false, index - 1), |text|)
  {
    var s := Scan(numbers, "", false, index - 1);
    ScanDigits(text, isMinusSeparator, sign, index, s, run);
    assert s.current + run == run;
  }

  /** A scan that ends the text with a run still open gathers that run last. */
  lemma GatherOpenRun(text: string, isMinusSeparator: bool, sign: char, numbers: seq<string>, run: string, k: nat, all: seq<string>)
    requires ScanFrom(text, isMinusSeparator, sign, 0, StartScan) == (Scan(numbers, run, false, k), |text|)
    requires run != "" && all == numbers + [run]
    ensures Gather(text, isMinusSeparator, sign) == (all, |text|)
  {
  }

  /** Where the runs and the separators of a text written month, '/', day, '/', year stand. */
  lemma SlashedPieces(monthText: string, dayText: string, yearText: string)
    ensures var text := monthText + "/" + dayText + "/" + yearText;
      var i1 := |monthText|;
      var i2 := i1 + 1 + |dayText|;
      |text| == i2 + 1 + |yearText| && Holds(text, 0, monthText) && text[i1] == '/'
      && Holds(text, i1 + 1, dayText) && text[i2] == '/' && Holds(text, i2 + 1, yearText)
  {
    var text := monthText + "/" + dayText + "/" + yearText;
    Piece(text, [], monthText, "/" + dayText + "/" + yearText);
    Piece(text, monthText + "/", dayText, "/" + yearText);
    Piece(text, monthText + "/" + dayText + "/", yearText, []);
  }

  /** Three runs of digits, each ended by a '/' but the last, are gathered as they are, with `sign` in front of the second when `negative`. */
  lemma GatherRuns(text: string, isMinusSeparator: bool, sign: char, monthText: string, dayText: string, yearText: string, i1: nat, i2: nat)
    requires monthText != "" && dayText != "" && yearText != ""
    requires AllDigits(monthText) && AllDigits(dayText) && AllDigits(yearText)
    requires i1 == |monthText| && i2 == i1 + 1 + |dayText| && |text| == i2 + 1 + |yearText|
    requires Holds(text, 0, monthText) && text[i1] == '/' && Holds(text, i1 + 1, dayText) && text[i2] == '/' && Holds(text, i2 + 1, yearText)
    ensures Gather(text, isMinusSeparator, sign) == ([monthText, dayText, yearText], |text|)
  {
    var s1 := Scan([monthText], "", false, i1);
    var s2 := Scan([monthText, dayText], "", false, i2);
    ScanField(text, isMinusSeparator, sign, 0, StartScan, monthText, [monthText]);
    ScanField(text, isMinusSeparator, sign, i1 + 1, s1, dayText, [monthText, dayText]);
    ScanLast(text, isMinusSeparator, sign, i2 + 1, [monthText, dayText], yearText);
    GatherOpenRun(text, isMinusSeparator, sign, [monthText, dayText], yearText, i2, [monthText, dayText, yearText]);
  }

  /** Three runs of digits separated by '/' are gathered as they are, and the scan reaches the end. */
  lemma GatherSlashed(monthText: string, dayText: string, yearText: string, isMinusSeparator: bool, sign: char)
    requires monthText != "" && dayText != "" && yearText != ""
    requires AllDigits(monthText) && AllDigits(dayText) && AllDigits(yearText)
    ensures var text := monthText + "/" + dayText + "/" + yearText;
      Gather(text, isMinusSeparator, sign) == ([monthText, dayText, yearText], |text|)
  {
    SlashedPieces(monthText, dayText, yearText);
    GatherRuns(monthText + "/" + dayText + "/" + yearText, isMinusSeparator, sign, monthText, dayText, yearText,
               |monthText|, |monthText| + 1 + |dayText|);
  }

  /** A minus sign between the first '/' and the second run marks that run negative; the three runs are gathered with `sign` in front of the second. */
  lemma GatherRunsNegativeDay(text: string, sign: char, monthText: string, dayText: string, yearText: string, i1: nat, i2: nat)
    requires monthText != "" && dayText != "" && yearText != ""
    requires AllDigits(monthText) && AllDigits(dayText) && AllDigits(yearText)
    requires i1 == |monthText| && i2 == i1 + 2 + |dayText| && |text| == i2 + 1 + |yearText|
    requires Holds(text, 0, monthText) && text[i1] == '/' && text[i1 + 1] == '-'
    requires Holds(text, i1 + 2, dayText) && text[i2] == '/' && Holds(text, i2 + 1, yearText)
    ensures Gather(text, false, sign) == ([monthText, [sign] + dayText, yearText], |text|)
  {
    var s1 := Scan([monthText], "", false, i1);
    var s2 := Scan([monthText, [sign] + dayText], "", false, i2);
    ScanField(text, false, sign, 0, StartScan, monthText, [monthText]);
    ScanMinus(text, sign, i1 + 1, s1);
    ScanField(text, false, sign, i1 + 2, s1.(isNeg := true), dayText, [monthText, [sign] + dayText]);
    ScanLast(text, false, sign, i2 + 1, [monthText, [sign] + dayText], yearText);
    GatherOpenRun(text, false, sign, [monthText, [sign] + dayText], yearText, i2, [monthText, [sign] + dayText, yearText]);
  }

  /** Where the runs and the separators of a text written month, '/', '-', day, '/', year stand. */
  lemma NegativeDayPieces(monthText: string, dayText: string, yearText: string)
    ensures var text := monthText + "/-" + dayText + "/" + yearText;
      var i1 := |monthText|;
      var i2 := i1 + 2 + |dayText|;
      |text| == i2 + 1 + |yearText| && Holds(text, 0, monthText) && text[i1] == '/' && text[i1 + 1] == '-'
      && Holds(text, i1 + 2, dayText) && text[i2] == '/' && Holds(text, i2 + 1, yearText)
  {
    var text := monthText + "/-" + dayText + "/" + yearText;
    Piece(text, [], monthText, "/-" + dayText + "/" + yearText);
    Piece(text, monthText + "/", "-", dayText + "/" + yearText);
    Piece(text, monthText + "/-", dayText, "/" + yearText);
    Piece(text, monthText + "/-" + dayText + "/", yearText, []);
  }

  /** A day of month written with a minus sign between two '/' is gathered with `sign` in front of its digits. */
  lemma GatherNegativeDay(monthText: string, dayText: string, yearText: string, sign: char)
    requires monthText != "" && dayText != "" && yearText != ""
    requires AllDigits(monthText) && AllDigits(dayText) && AllDigits(yearText)
    ensures var text := monthText + "/-" + dayText + "/" + yearText;
      Gather(text, false, sign) == ([monthText, [sign] + dayText, yearText], |text|)
  {
    NegativeDayPieces(monthText, dayText, yearText);
    GatherRunsNegativeDay(monthText + "/-" + dayText + "/" + yearText, sign, monthText, dayText, yearText,
                          |monthText|, |monthText| + 2 + |dayText|);
  }

  /** The year text of the default layout is a run of digits that the parse reads back as the year. */
  lemma YearTextReadsBack(year: int, refYear: Option<int>, currentYear: int)
    requires ReadableYear(year, RefYear(refYear, currentYear))
    ensures var yearText := YearText(DefaultLayout, year, refYear, currentYear);
      AllDigits(yearText) && yearText != "" && YearOf(yearText, RefYear(refYear, currentYear)) == Int(year)
  {
    var ref := RefYear(refYear, currentYear);
    var window := ShortYearPartsAsWritten(ref);
    if window.minYear <= year <= window.maxYear {
      assert JsMath.Rem(year, 100) == year % 100;
      PaddedTwoDigits(year % 100);
      PaddedTwoReadsBack(year % 100);
      AsWrittenShortYearRoundTrip(ref, year);
    } else {
      PaddedTwoDigits(year);
      PaddedTwoReadsBack(year);
    }
  }

  /** Two digits written for a year are read back into the window of the reference year. */
  lemma ShortRunReadsBack(n: nat, refYear: int)
    requires n < 100
    ensures YearOf(Padded(n, 2), refYear) == Int(ExpandShortYear(n, ShortYearPartsAsWritten(refYear)))
  {
    PaddedTwoDigits(n);
    PaddedTwoReadsBack(n);
  }

  /**
   * As written, the format writes the last year of the window below the
   * middle of a century with the two digits of 50, which the parse reads a
   * century earlier.
   */
  lemma YearTextMisreadsWindowTop(refYear: Option<int>, currentYear: int)
    requires RefYear(refYear, currentYear) >= 0 && RefYear(refYear, currentYear) % 100 < 50
    ensures var ref := RefYear(refYear, currentYear);
      var top := ShortYearPartsAsWritten(ref).maxYear;
      var lastTwo := JsMath.Rem(top, 100);
      lastTwo == 50
      && YearText(DefaultLayout, top, refYear, currentYear) == Padded(lastTwo, 2)
      && YearOf(Padded(lastTwo, 2), ref) == Int(top - 100)
  {
    var ref := RefYear(refYear, currentYear);
    var top := ShortYearPartsAsWritten(ref).maxYear;
    WindowTop(ref);
    YearTextInWindow(DefaultLayout, top, refYear, currentYear);
    ShortRunReadsBack(50, ref);
  }

  /** A year inside the window as written, with fewer than four year digits, is written as its last two digits. */
  lemma YearTextInWindow(l: Layout, year: int, refYear: Option<int>, currentYear: int)
    requires l.yearDigits < 4
    requires ShortYearPartsAsWritten(RefYear(refYear, currentYear)).minYear <= year
    requires year <= ShortYearPartsAsWritten(RefYear(refYear, currentYear)).maxYear
    ensures YearText(l, year, refYear, currentYear) == Padded(JsMath.Rem(year, 100), l.yearDigits)
  {
  }

  /** The last year of the window as written below the middle of a century ends in 50 and is read a century earlier. */
  lemma WindowTop(refYear: int)
    requires refYear >= 0 && refYear % 100 < 50
    ensures var p := ShortYearPartsAsWritten(refYear);
      p.minYear <= p.maxYear && JsMath.Rem(p.maxYear, 100) == 50 && ExpandShortYear(50, p) == p.maxYear - 100
  {
    AsWrittenWindowMisreadsItsLastYear(refYear);
    var top := ShortYearPartsAsWritten(refYear).maxYear;
    assert JsMath.Rem(top, 100) == top % 100;
  }

  /** The year text with the window of `CorrectedShortYearParts`, which the parse reads back over the whole window. */
  function YearTextCorrected(l: Layout, year: int, refYear: Option<int>, currentYear: int): string {
    var parts := CorrectedShortYearParts(RefYear(refYear, currentYear));
    if l.yearDigits < 4 && parts.minYear <= year <= parts.maxYear then Padded(JsMath.Rem(year, 100), l.yearDigits)
    else Padded(year, l.yearDigits)
  }

  /** Every year of the corrected window, and every year of at least three digits, is read back. */
  lemma CorrectedYearTextReadsBack(year: int, refYear: Option<int>, currentYear: int)
    requires year >= 0
    requires var window := CorrectedShortYearParts(RefYear(refYear, currentYear));
      window.minYear <= year <= window.maxYear || year >= 100
    ensures var yearText := YearTextCorrected(DefaultLayout, year, refYear, currentYear);
      AllDigits(yearText) && yearText != "" && YearOf(yearText, RefYear(refYear, currentYear)) == Int(year)
  {
    var ref := RefYear(refYear, currentYear);
    var window := CorrectedShortYearParts(ref);
    if window.minYear <= year <= window.maxYear {
      assert JsMath.Rem(year, 100) == year % 100;
      CorrectedWindowYearReadsBack(year, ref);
    } else {
      LongYearReadsBack(year, ref);
    }
  }

  /** Two digits written for a year of the corrected window are read back as the year. */
  lemma CorrectedWindowYearReadsBack(year: int, refYear: int)
    requires year >= 0 && CorrectedShortYearParts(refYear).minYear <= year <= CorrectedShortYearParts(refYear).maxYear
    ensures var yearText := Padded(year % 100, 2);
      AllDigits(yearText) && yearText != "" && YearOf(yearText, refYear) == Int(year)
  {
    WindowsShareBases(refYear);
    PaddedTwoDigits(year % 100);
    PaddedTwoReadsBack(year % 100);
    ShortYearRoundTrip(refYear, year);
  }

  /** A year of three or more digits is written in full and read back as it is. */
  lemma LongYearReadsBack(year: int, refYear: int)
    requires year >= 100
    ensures var yearText := Padded(year, 2);
      AllDigits(yearText) && yearText != "" && YearOf(yearText, refYear) == Int(year)
  {
    PaddedTwoDigits(year);
    PaddedTwoReadsBack(year);
  }

  /** With the default layout, a text whose whole is three runs reads month, day and year from them in that order. */
  lemma ParseThreeRuns(f: Formatter, text: string, monthText: string, dayText: string, yearText: string,
                       def: DP.DatePartFields, currentYear: int, sign: char)
    requires f.layout == DefaultLayout && text != ""
    requires Gather(text, f.isMinusSeparator, sign) == ([monthText, dayText, yearText], |text|)
    ensures ParseWith(f, text, def, currentYear, sign)
         == Parsed(ParsedDate(YearOf(yearText, RefYear(def.year, currentYear)), MinusOne(NumOf(monthText)), NumOf(dayText)), "")
  {
    var numbers := [monthText, dayText, yearText];
    assert RunFor(numbers, 0) == Some(monthText);
    assert RunFor(numbers, 2) == Some(dayText);
    assert RunFor(numbers, 4) == Some(yearText);
    assert text[|text|..] == "";
  }

  /**
   * With the default layout, parsing what `format` writes gives the date part
   * back, when the year is one the window of the reference year lets the
   * parse read back.
   */
  lemma FormatParseRoundTrip(f: Formatter, d: DP.DatePart, def: DP.DatePartFields, currentYear: int)
    requires f.layout == DefaultLayout
    requires DP.Valid(d) && ReadableYear(d.year, RefYear(def.year, currentYear))
    ensures ParseText(f, FormatText(f, d, def.year, currentYear), def, currentYear)
         == Parsed(ParsedDate(Int(d.year), Int(d.month), Int(d.dayOfMonth)), "")
  {
    var monthText := Padded(d.month + 1, 2);
    var dayText := Padded(d.dayOfMonth, 2);
    var yearText := YearText(DefaultLayout, d.year, def.year, currentYear);
    DefaultFormatText(f, d, def.year, currentYear);
    PaddedTwoDigits(d.month + 1);
    PaddedTwoDigits(d.dayOfMonth);
    YearTextReadsBack(d.year, def.year, currentYear);
    PaddedTwoReadsBack(d.month + 1);
    PaddedTwoReadsBack(d.dayOfMonth);
    GatherSlashed(monthText, dayText, yearText, f.isMinusSeparator, '-');
    ParseThreeRuns(f, monthText + "/" + dayText + "/" + yearText, monthText, dayText, yearText, def, currentYear, '-');
  }

  /** The digits of a positive number with a minus sign in front read as the negated number. */
  lemma NumOfNegativeRun(n: nat)
    requires n >= 1
    ensures NumOf(['-'] + NatToString(n)) == Int(-(n as int))
  {
    ParseIntToString(-(n as int));
    assert IntToString(-(n as int)) == ['-'] + NatToString(n);
  }

  /** `parseInt` finds no digits in a run that starts with U+0000. */
  lemma ParseIntAfterNul(digits: string)
    ensures ParseInt([InsertedAsWritten] + digits) == None
  {
    var s := [InsertedAsWritten] + digits;
    assert TrimStart(s) == s;
    assert SignStripped(s) == s;
  }

  /**
   * As written, a negative day of month between two separators is read as NaN:
   * the character put in front of its digits is U+0000, not a minus sign.
   */
  lemma NegativeDayAsWritten(f: Formatter, monthText: string, dayText: string, yearText: string,
                             def: DP.DatePartFields, currentYear: int)
    requires f.layout == DefaultLayout && !f.isMinusSeparator
    requires monthText != "" && dayText != "" && yearText != ""
    requires AllDigits(monthText) && AllDigits(dayText) && AllDigits(yearText)
    ensures var text := monthText + "/-" + dayText + "/" + yearText;
      ParseAsWritten(f, text, def, currentYear).Parsed? && ParseAsWritten(f, text, def, currentYear).datePart.dayOfMonth == NaN
  {
    var text := monthText + "/-" + dayText + "/" + yearText;
    GatherNegativeDay(monthText, dayText, yearText, InsertedAsWritten);
    ParseIntAfterNul(dayText);
    ParseThreeRuns(f, text, monthText, [InsertedAsWritten] + dayText, yearText, def, currentYear, InsertedAsWritten);
  }

  /** With the minus sign put back, the same text gives the negated day of month. */
  lemma NegativeDayRead(f: Formatter, monthText: string, day: nat, yearText: string,
                        def: DP.DatePartFields, currentYear: int)
    requires f.layout == DefaultLayout && !f.isMinusSeparator
    requires monthText != "" && day >= 1 && yearText != ""
    requires AllDigits(monthText) && AllDigits(yearText)
    ensures var text := monthText + "/-" + NatToString(day) + "/" + yearText;
      ParseText(f, text, def, currentYear).Parsed?
      && ParseText(f, text, def, currentYear).datePart.dayOfMonth == Int(-(day as int))
  {
    var dayText := NatToString(day);
    var text := monthText + "/-" + dayText + "/" + yearText;
    GatherNegativeDay(monthText, dayText, yearText, '-');
    NumOfNegativeRun(day);
    ParseThreeRuns(f, text, monthText, ['-'] + dayText, yearText, def, currentYear, '-');
  }
}
