# mi-util dates, times, filters and ratios in Dafny

This project models the core of the `mi-util` JavaScript utility library:

- the calendar value types `DatePart`, `TimePart` and `DateTimePart`, and their cleaning, arithmetic, comparison, string forms and filters (DatePart.js, TimePart.js, DateTimePart.js);
- `When`, an event with a start date, an optional start time and an optional duration (When.js);
- the numeric date formatter and parser (DatePartFormatter.js);
- date occurrences, the repeating calendar events (DateOccurrences.js);
- the filterable phrases and the filter-spec compiler of StringFilter.js;
- numeric filters (NumberFilter.js);
- ratios of products (Ratios.js).

Each JavaScript file is one Dafny module of the same name:
`DatePart`, `TimePart`, `DateTimePart`, `When`, `DatePartFormatter`, `DateOccurrences`, `StringFilter`, `NumberFilter` and `Ratios`.
Five support modules carry what the library takes from its platform:

- `Wrappers`: `Option`, and `Field`, which is `Unset`, `Numeric(n)` or `NonNumeric` for an object property that may be missing or not a number.
- `Calendar`: proleptic Gregorian day numbers. They stand in for the JavaScript `Date` object.
- `YmdDate`: the few helpers of the library's `YMDDate` class that date occurrences call. YMDDate.js is not part of this model, so they are re-specified from their names and their use.
- `JsMath`: JavaScript's truncating `%`, `Math.floor` and `Math.ceil` of a quotient.
- `JsText`: `trim`, `split`, `parseInt`, `padStart` and the decimal text of an integer.

Values the library reads from the environment are parameters. These are `today` (the current date) and `currentYear`.

Pure functions of the library are Dafny functions. Where the library works step by step, the model does too:

- JavaScript procedures that update variables or fields one step after another become methods, and their loops become `while` or `for` loops with invariants. The straight-line ones are the field-by-field updates of `addMonths`/`addYears`, the carries of `cleanTimePart` and the stages of `cleanWhen`. The looping ones are the token loop of the formatter constructor, the phrase loops of StringFilter.js and the `Ratio` constructor's accumulation.
- Each such method is proved equal to a specification function.
- The properties the library documents or its tests pin down are stated about those functions.

"Returns the same object" in the library becomes a `changed` flag, or an equality with the input.

## Model

| member | source | states |
|---|---|---|
| DatePart.Normalize | DatePart.js:70-76 | the date `new Date(y, m, d)` makes of any triple is valid, has the same day number as the triple with the month carried into the year, and is the triple itself when that is already a valid date |
| DatePart.CleanNumbers | DatePart.js:69-76 | once every field is a number the cleaned date is valid and keeps the day number of the given fields |
| DatePart.CleanDatePart | DatePart.js:36-39 | an undefined date part stays undefined; anything else is cleaned as `CleanFields` says |
| DatePart.CleanFields | DatePart.js:40-87 | missing or non-number fields come from `today`; the result is valid, keeps the day number of the resolved fields, and is unchanged exactly when all three fields are numbers forming a valid date, which is exactly when its fields equal the input's |
| DatePart.UnchangedExactlyWhenValid | DatePart.js:78-87 | the cleaned fields equal the input exactly when all three were given and form a valid date |
| DatePart.CleanOfValid | DatePart.js:68-87 | a valid date part is returned as itself, flagged unchanged |
| DatePart.CleanCarriesOverflow | DatePart.test.js:16-29 | December 32 2021 cleans to January 1 2022 and February 29 2021 to March 1 2021 |
| DatePart.QuickMaxIsMonthLength | DatePart.js:11-35 | apart from February the quick table of month lengths holds each month's true length |
| DatePart.DatePartToString | DatePart.js:101-108 | an undefined date part gives no text, anything else gives text |
| DatePart.ToStringOfValid | DatePart.js:101-108 | a valid date is written as `year-month-day` with a 1-based month and no padding |
| DatePart.DatePartFromString | DatePart.js:119-144 | trimmed text that does not split on '-' into exactly three parts gives no date; any date given is valid |
| DatePart.FromNumbers | DatePart.js:132-143 | a date comes back exactly when all three numbers parsed, and it is valid |
| DatePart.FromValidNumbers | DatePart.js:132-143 | the numbers of a valid date (1-based month) give that date back |
| DatePart.StringRoundTrip | DatePart.js:91-98 | the text written for a valid date with a non-negative year parses back to that date |
| DatePart.PositiveTextParses | DatePart.js:119-144 | `year-month-day` text of a valid date with a non-negative year parses to that date |
| DatePart.NegativeYearNotParsed | DatePart.js:124-127 | the text written for a date in a negative year starts with '-', splits into four parts and does not parse |
| DatePart.NegativeYearString | DatePart.js:101-108 | the text of a date in a negative year is '-' followed by the digits of the year's magnitude and the month and day |
| DatePart.DatePartFromStringSigned | DatePart.js:119-144 | the parser with the year's sign restored gives only valid dates |
| DatePart.SignedAgreesWithoutSign | DatePart.js:119-144 | the corrected parser agrees with the parser as written on every text whose trimmed form does not start with '-' |
| DatePart.SignedStringRoundTrip | DatePart.js:91-98 | with the sign restored, the text of every valid date parses back to that date |
| DatePart.SignedNegativeYear | DatePart.js:91-98 | with the sign restored, the text of a date in a negative year parses back to it |
| DatePart.AddDays | DatePart.js:181-201 | a delta of zero returns the date part as given; otherwise the result is valid, and for a valid date it lies exactly `delta` days later |
| DatePart.AddMonthsSpec | DatePart.js:202-249 | a delta of zero returns the argument; otherwise the month index moves by exactly `delta` with the year carried, and the day is pinned to the end of the target month |
| DatePart.AddMonths | DatePart.js:214-249 | the method updating a copy field by field computes `AddMonthsSpec` |
| DatePart.AddMonthsCompose | DatePart.js:214-249 | while the day is at most 28, adding `a` then `b` months is adding `a + b` months |
| DatePart.AddYearsSpec | DatePart.js:250-284 | only the year changes, by `delta`, except that February 29 may move to February 28; valid dates stay valid |
| DatePart.AddYears | DatePart.js:263-284 | the method updating a copy field by field computes `AddYearsSpec` |
| DatePart.AddYearsIsTwelveMonths | DatePart.js:250-284 | on valid dates adding `k` years is adding `12k` months |
| DatePart.DeltaDays | DatePart.js:297-305 | on valid dates the result is the difference of the day numbers |
| DatePart.AddDeltaDays | DatePart.js:286-296 | adding `deltaDays(a, b)` days to `a` gives `b`, the identity documented for `deltaDays` |
| DatePart.CompareDateParts | DatePart.js:306-340 | undefined is before any date and equal to undefined; two dates compare lexicographically on year, month and day, zero exactly when equal |
| DatePart.CompareIsDayOrder | DatePart.js:306-340 | on valid dates the comparison agrees with the order of day numbers, in both directions |
| DatePart.CompareAntisymmetric | DatePart.js:317-340 | swapping the arguments turns a negative comparison into a positive one and back |
| DatePart.AreDatePartsIdentical | DatePart.js:351-361 | true exactly when both are undefined or both have the same three fields |
| DatePart.AreDatePartsEquivalent | DatePart.js:371-379 | true exactly when both are undefined, or both are present and fall on the same day once cleaned |
| DatePart.GetClosestSundayOnOrBefore | DatePart.js:388-397 | undefined stays undefined; for a valid date the result is a valid Sunday at most six days earlier, on or before the date |
| DatePart.SingleFilterConstrains | DatePart.js:425-439 | a single filter has something to apply (some field is a number) exactly when it rejects some date |
| DatePart.IsPartialDatePartSingleFilter | DatePart.js:447-456 | a partial single filter is a single filter that leaves some field out |
| DatePart.IsDatePartFilter | DatePart.js:464-470 | true exactly when one of the earliest, latest and exact single filters has something to apply |
| DatePart.IsDatePartOnOrBeforeSingleFilter | DatePart.js:484-508 | undefined dates fail; a full filter is a date comparison; otherwise every field the filter sets bounds the same field from above |
| DatePart.IsDatePartOnOrAfterSingleFilter | DatePart.js:521-545 | the mirror image: a full filter is a comparison, otherwise every set field bounds from below |
| DatePart.FullFilterPinsDate | DatePart.js:484-545 | a full single filter is a date: every date is on one side of it, and on both sides exactly when it is that date |
| DatePart.ResolveFilterParts | DatePart.js:548-562 | explicit earliest or latest bounds win; a lone `datePart` is both bounds; otherwise there is nothing to apply |
| DatePart.IsDatePartInFilter | DatePart.js:579-593 | an undefined date fails; with nothing to apply every date passes; otherwise the date lies between the resolved bounds |
| DatePart.SingleDateFilter | DatePart.js:548-593 | a lone full `datePart` filter passes exactly that date |
| DatePart.IsDatePartRangeFullyInFilter | DatePart.js:602-614 | true exactly when both ends are present and both pass the filter |
| DatePart.IsDatePartRangeOverlappingFilter | DatePart.js:643-665 | a range with an undefined end never overlaps; with nothing to apply every range does |
| DatePart.FullOverlapIsIntersection | DatePart.js:643-665 | with two full bounds in order, the range overlaps exactly when some date lies in both the range and the bounds |
| DatePart.PartialOverlapSound | DatePart.js:669-764 | the partial test never rejects a range that contains a date matching the partial bounds field by field |
| TimePart.CleanValue | TimePart.js:101-123 | the value is the carry times the bound plus the remainder, the remainder lies strictly between minus and plus the bound, both keep the value's sign, and a value already inside the bound is left alone |
| TimePart.Carried | TimePart.js:49-99 | the carried fields are in range (minutes and seconds above -60 and below 60, milliseconds above -1000 and below 1000), keep the millisecond count and the sign of uniformly signed input, and fields already in range are left alone |
| TimePart.Clean | TimePart.js:37-99 | undefined stays undefined; otherwise the fields (non-numbers read as 0) are put in range with the same millisecond count, and the result is unchanged exactly when all four fields were numbers already in range, which is exactly when its fields equal the input's |
| TimePart.CleanTimePart | TimePart.js:49-99 | the method threading the carries from milliseconds up to hours computes `Clean` |
| TimePart.CleanCarryExamples | TimePart.test.js:50-68 | 1:62:123.4567 cleans to 2:04:07.567 and 2:59:59.2234 to 3:00:01.234 |
| TimePart.CleanCarryNegativeExamples | TimePart.test.js:57-73 | the same carries with every field negated give every result field negated |
| TimePart.IsTimePartIffSomeTime | TimePart.js:125-151 | an object is a time part exactly when it sets some field and every field it has is either missing or a number, that is, it holds the fields of some time part |
| TimePart.NonNumericIsNotTimePart | TimePart.test.js:83-87 | a field that is neither missing nor a number makes the object not a time part, whatever the other fields hold |
| TimePart.TimePartToMs | TimePart.js:303-330 | undefined gives undefined; otherwise the millisecond count of the fields, a missing field counting 0 and a non-number hours, minutes or seconds counting 0 (milliseconds that are not a number are not modelled, see Left out) |
| TimePart.CleanKeepsMilliseconds | TimePart.js:37-99 | cleaning does not change the millisecond count |
| TimePart.Wrap | TimePart.js:332-341 | with a positive wrap the count lands in [0, wrap) and differs from the input by a multiple of the wrap; without one it is the input |
| TimePart.WrapAsWrittenReachesWrap | TimePart.js:349-351 | the fold as written takes minus one day to a full day, 24:00:00, outside [0, wrap) |
| TimePart.WrapDiffersOnNegativeMultiples | TimePart.js:342-351 | the fold as written differs from the documented fold exactly on negative multiples of a positive wrap |
| TimePart.TimePartFromMs | TimePart.js:342-382 | a non-number gives undefined; otherwise the unique normal time part (hours free, lower fields in range, all of one sign) whose count is the folded count, non-negative when that count is; the fold is the corrected `Wrap` of Findings row 1 |
| TimePart.NormalUnique | TimePart.js:342-382 | two normal time parts with the same millisecond count are equal |
| TimePart.MsRoundTripTotal | TimePart.js:303-382 | for a normal time part inside the wrap, converting to milliseconds and folding gives its count back, so `timePartFrom_ms` returns it |
| TimePart.WrapExamples | TimePart.test.js:285-306 | with a one-day wrap, -0:15 and -24:15 fold to 23:45, and 24:15 and 49:15 to 0:15 and 1:15 |
| TimePart.CompareTimeParts | TimePart.js:384-412 | undefined is before any time and equal to undefined; two times compare by the difference of their millisecond counts |
| TimePart.CompareAntisymmetric | TimePart.js:396-412 | swapping the arguments negates the comparison |
| TimePart.CompareIgnoresCleaning | TimePart.js:384-412 | for fields that are numbers or missing, cleaning an argument does not change any comparison |
| TimePart.AreTimePartsIdentical | TimePart.js:452-472 | true exactly when both are undefined or both have the same four fields, where fields that are numbers or missing compare as `===` does |
| TimePart.AreTimePartsEquivalent | TimePart.js:474-490 | equivalent time parts have the same millisecond count, and identical ones are equivalent |
| TimePart.NonNegativeEquivalence | TimePart.js:474-490 | for non-negative fields, equivalence is equality of the millisecond counts |
| TimePart.MixedSignsNotEquivalent | TimePart.js:474-490 | h:-01 and (h-1):59 name the same time but are not equivalent, because cleaning keeps each field's sign |
| TimePart.HmsToStringPart | TimePart.js:213-226 | single digits are padded to two after the sign; larger magnitudes are written as they are |
| TimePart.HmsToStringPartParses | TimePart.js:213-226 | `parseInt` reads the text of a field back as the field |
| TimePart.RoundedToSecond | TimePart.js:175-189 | the `no-ms` rounding gives a time in range without milliseconds whose count is the input's rounded to the nearest second |
| TimePart.TimePartToString | TimePart.js:167-211 | undefined gives no text, anything else gives text |
| TimePart.ToStringWholeSeconds | TimePart.js:200-210 | without milliseconds the text is the three padded fields of the cleaned time joined by ':' |
| TimePart.ToStringFraction | TimePart.js:190-200 | with milliseconds, and without `no-ms`, the seconds are written with their fraction |
| TimePart.ToStringRounded | TimePart.js:175-189 | with `no-ms` the text is that of the time rounded to the nearest second |
| TimePart.ToStringPaddingExample | TimePart.test.js:124-127 | -2:-5:-1 is written `-02:-05:-01` |
| TimePart.ToStringEmptyExample | TimePart.test.js:99 | an object with no fields is written `00:00:00` |
| TimePart.ToStringMillisecondsExample | TimePart.test.js:141-144 | -4 milliseconds alone are written `00:00:-00.004` |
| TimePart.ToStringBorrowExample | TimePart.test.js:179-183 | 10:00:59 less one millisecond is written `10:00:58.999` |
| TimePart.ToStringRoundingExample | TimePart.test.js:207-211 | with `no-ms`, 1:59:59.501 is written `02:00:00`, the carry passing through every field |
| TimePart.TimePartFromString | TimePart.js:239-301 | any time part read from text is in range |
| TimePart.StringRoundTrip | TimePart.js:152-166 | the text written for a cleaned time part without milliseconds reads back as that time part |
| TimePart.RoundedStringRoundTrip | TimePart.js:152-166 | the `no-ms` text of a time with milliseconds reads back as the time rounded to the nearest second |
| TimePart.FromTexts | TimePart.js:239-301 | three field texts that `parseInt` reads as the fields of a time part in range read back as that time part |
| TimePart.IsTimePartSingleFilter | TimePart.js:524-531 | every time part is a single filter, and a single filter with no field of another type is a time part |
| TimePart.IsPartialTimePartSingleFilter | TimePart.js:554-569 | a partial single filter is a single filter that leaves some field out |
| TimePart.IsTimePartFilter | TimePart.js:539-545 | a filter exactly when it is an object and its earliest, latest or exact single filter has something to apply |
| TimePart.SingleFilterConstrains | TimePart.js:521-531 | a single filter has something to apply exactly when some time part fails it as a lower bound |
| TimePart.NothingToApplyPassesAll | TimePart.js:681-693 | a filter that is not a time part filter lets every time part through |
| TimePart.IsTimePartOnOrBeforeSingleFilter | TimePart.js:583-610 | undefined times fail; a full filter compares millisecond counts; otherwise every field the filter sets bounds the same field from above |
| TimePart.IsTimePartOnOrAfterSingleFilter | TimePart.js:621-648 | the mirror image: a full filter is a comparison, otherwise every set field bounds from below |
| TimePart.FullFilterPinsTime | TimePart.js:583-648 | for normal times, a full single filter passes both ways exactly the time it names |
| TimePart.ResolveFilter | TimePart.js:651-665 | explicit earliest or latest bounds win; a lone `timePart` is both bounds; otherwise there is nothing to apply |
| TimePart.IsTimePartInFilter | TimePart.js:681-693 | an undefined time fails; with nothing to apply every time passes; otherwise the time lies between the resolved bounds |
| TimePart.IsTimePartRangeFullyInFilter | TimePart.js:702-713 | true exactly when both ends are present and both pass the filter |
| TimePart.IsTimePartRangeOverlappingFilter | TimePart.js:729-751 | a range with an undefined end never overlaps; with nothing to apply every range does |
| TimePart.FullOverlapIsIntersection | TimePart.js:729-751 | with two full bounds in order, the range overlaps exactly when some millisecond count lies in both the range and the bounds |
| TimePart.PartialOverlapSound | TimePart.js:754-880 | on clock times the partial test never rejects a range that contains a time matching the partial bounds field by field |
| DateTimePart.FoldHoursAsWritten | DateTimePart.js:31-44 | hours inside a day stay; from 24 up, whole days are taken off and the hours land in [0, 24); from -24 down, the day count is one short, so days and hours make `24 + h` and the hours land in (0, 24] |
| DateTimePart.FoldAsWrittenLeavesHourTwentyFour | DateTimePart.js:38-44 | as written, a negative multiple of 24 hours moves back that many days and leaves hour 24 |
| DateTimePart.FoldHours | DateTimePart.js:31-44 | the corrected fold keeps the hours in [0, 24) on both sides, and agrees with the fold as written whenever the hours are not a multiple of 24 |
| DateTimePart.CleanDateTimePart | DateTimePart.js:11-60 | undefined without a date part; otherwise the cleaned date with the cleaned time folded into it, a time within a day, the time present exactly when given, and unchanged exactly when the fields equal the input's; the fold is the corrected `FoldHours` of Findings row 2 |
| DateTimePart.CleanKeepsMoment | DateTimePart.js:20-60 | the cleaned value names the same moment as the cleaned date and time, except that hours of -24 or fewer end up a day later |
| DateTimePart.CleanOfNormal | DateTimePart.js:20-60 | a value already clean is returned as itself, flagged unchanged |
| DateTimePart.CleanIdempotent | DateTimePart.js:20-60 | cleaning a cleaned value changes nothing |
| DateTimePart.CleanFolds | DateTimePart.js:31-44 | a clean date with a clean time of a day or more gets the folded days added to the date and the folded hours as its hours |
| DateTimePart.CleanFoldForwardExample | DateTimePart.test.js:56-67 | 49:30:15.010 on 2021-12-31 cleans to 2022-01-02 at 1:30:15.010 |
| DateTimePart.CleanFoldBackExample | DateTimePart.test.js:70-81 | -49 hours (plus 30:15.010) on 2021-12-01 clean to 2021-11-29 at 23:30:15.010 |
| DateTimePart.RelationOfClean | DateTimePart.js:64-118 | on cleaned values the relation is BEFORE or AFTER by the order of the dates, and otherwise SAME_DATE_BEFORE_TIME, SAME or SAME_DATE_AFTER_TIME by the times, a missing time coming first; each case holds exactly when its condition does |
| DateTimePart.RelationFlips | DateTimePart.js:93-118 | swapping the arguments flips the relation |
| DateTimePart.DateTimePartsRelation | DateTimePart.js:86-118 | undefined exactly when either argument cannot be cleaned; otherwise the relation of the cleaned values |
| DateTimePart.RelationOfNormal | DateTimePart.js:93-118 | comparing values already clean is comparing them directly |
| DateTimePart.RelationReflexiveAndFlips | DateTimePart.js:93-118 | any cleanable value is SAME as itself, and swapping the arguments flips the relation |
| DateTimePart.CleanDateTimeRange | DateTimePart.js:130-222 | undefined without any date; otherwise both ends are clean, two given dates end up in order, and the range is unchanged exactly when its fields equal the input's |
| DateTimePart.CleanRangeEnds | DateTimePart.js:164-200 | the ends of the cleaned range are the cleaned ends of the input, in order or swapped |
| DateTimePart.CleanRangeCopiesMissingDate | DateTimePart.js:145-157 | with one date missing, both ends use the one date with their own times, and the range is flagged changed |
| DateTimePart.EndOfDay | DateTimePart.js:292-301 | a date-only value is treated as the start of the next day |
| DateTimePart.RelationToCleanRange | DateTimePart.js:263-326 | BEFORE, START_DATE_BUT_BEFORE and START each hold exactly when the value is before the start date, on it before its time, or on it at its time; past the start, the finish side decides |
| DateTimePart.FinishSide | DateTimePart.js:290-325 | AFTER exactly when the date is past the finish date; FINISH exactly at the finish date and time; FINISH_DATE_BUT_AFTER exactly on the finish date after its time; otherwise DURING |
| DateTimePart.RangeRelationByDate | DateTimePart.js:226-326 | for a range whose start is not after its finish, BEFORE and AFTER are decided by the date alone, and a date-only value on the finish date is FINISH_DATE_BUT_AFTER when the finish has a time and FINISH when it has not |
| DateTimePart.DateTimePartRelationToRange | DateTimePart.js:255-326 | undefined exactly when the value or the range cannot be cleaned; otherwise the relation of the cleaned value to the cleaned range |
| When.CloneWhen | When.js:18-41 | undefined stays undefined; the start date and time parts are copied, and each duration is kept exactly when it is a number |
| When.CloneIdempotent | When.js:23-41 | cloning a clone gives the same fields |
| When.DayOffset | When.js:75-78 | the days the days duration adds to the start date: one less than the duration, never negative, none for a duration of 0 or 1 |
| When.FinishPartsOf | When.js:43-110 | without a start time there is no finish time; without a millisecond duration the finish time is the start time; for a proper start date without a timed duration the finish date is the start date plus the day offset |
| When.FinishOfTimedWhen | When.js:43-110 | with a start time of day and a positive millisecond duration, the finish time is the end time within its day, and the finish date is the later of the days-duration date and the date the time duration reaches |
| When.LaterIsMax | When.js:95-98 | of two valid dates, the later is the one with the larger day number |
| When.GetFinishParts | When.js:65-110 | the method following `getFinishParts` step by step returns undefined exactly for an undefined when, and otherwise `FinishPartsOf` |
| When.ShiftTime | When.js:82-84 | the start time with the duration added to its milliseconds, cleaned |
| When.ShiftFinish | When.js:80-98 | the timed half of `getFinishParts`: the shifted time with whole days folded into the later finish date |
| When.DaysDurationZeroAndOneAgree | When.js:58-60 | days durations of 0 and 1 give the same finish, the start date itself without a start time |
| When.FinishNotBeforeStart | When.js:43-110 | a proper when does not finish before it starts |
| When.CompareDateAndTime | When.js:160-163 | on valid dates the shared comparison is negative, zero or positive exactly when the first point is earlier, the same or later |
| When.CompareStarts | When.js:136-164 | an undefined when is before any when and equal to undefined; two whens with valid start dates compare by start date, then by start time, a missing time first |
| When.CompareFinishes | When.js:167-198 | the same on where each proper when finishes |
| When.CompareAntisymmetric | When.js:147-198 | swapping the arguments of either comparison changes the sign of the answer |
| When.NoDurationFinishesAtStart | When.js:167-198 | without durations a when finishes where it starts, and the two comparisons agree |
| When.StartDateOf | When.js:240-261 | the start date is unchanged exactly when the given one is complete and valid; the result is valid whenever there is a date to fall back on |
| When.CleanDays | When.js:263-277 | a negative days duration becomes 0 and a truthy non-number is dropped; the duration is kept exactly when it is a non-negative number, undefined or a falsy non-number |
| When.CleanMs | When.js:318-347 | negative numbers and truthy non-numbers are dropped; the duration is kept exactly when it is a non-negative number, undefined or a falsy non-number |
| When.StartTimeKept | When.js:279-316 | a start time is kept exactly when the object is a time part whose cleaned fields are non-negative; it is then a time of day with the object's millisecond count modulo a day |
| When.NonNumericStartTimeDropped | When.js:306-314 | a start time object with a field of another type is dropped and reported invalid, though cleaning alone would read that field as 0 |
| When.StartTimeUnchanged | When.js:279-316 | the start time object is kept as it is exactly when it is missing or already a complete time of day |
| When.CleanWhenValue | When.js:221-369 | an undefined when stays undefined, and a when gives a when |
| When.UnchangedIffClean | When.js:350-358 | no field changes exactly when the when is already clean: a complete valid start date, non-negative durations, a complete start time of day, and no time duration running past the days duration |
| When.CleanedFieldsAreClean | When.js:221-369 | the clone of the cleaned fields is clean, given a start date to fall back on |
| When.CleanedIsClean | When.js:221-369 | everything `cleanWhen` returns for a when is clean |
| When.UnchangedExactlyWhenClean | When.js:350-369 | `cleanWhen` returns its argument itself exactly when the argument is missing or clean |
| When.CleanWhenIdempotent | When.js:221-369 | cleaning a cleaned when changes nothing, whatever the defaults the second time |
| When.AtMostFourMessages | When.js:232-348 | at most one message is reported per field |
| When.MessageFromField | When.js:232-348 | a message is reported exactly when the stage of one field reports it |
| When.DateMessagesReport | When.js:240-261 | `startDatePart_missing` exactly when the start date is missing, `startDatePart_cleaned` exactly when it was given but not complete and valid |
| When.DaysMessagesReport | When.js:263-277 | `daysDuration_negative` exactly for a negative number, `daysDuration_invalid` exactly for a truthy non-number |
| When.TimeMessagesReport | When.js:279-316 | `startTime_invalid` exactly when a given start time is dropped, `startTime_exceeds_24hrs` exactly when its cleaned hours reach 24, `startTime_cleaned` exactly when it was otherwise repaired |
| When.MsMessagesReport | When.js:318-347 | `millisecondsDuration_invalid` exactly when a start time is kept and the duration is dropped; `millisecondsDuration_exceeds_daysDuration(k)` exactly when the time duration runs past the days duration, `k` being the days it reaches |
| When.CleanWhen | When.js:232-369 | the method reassigning locals and collecting messages stage by stage returns `CleanWhenValue` and the messages `MessagesOf` gives |
| When.CleanStartDate | When.js:240-261 | the start date stage returns `StartDateOf` and its messages |
| When.CleanDaysDuration | When.js:263-277 | the days duration stage returns `CleanDays` and its messages |
| When.CleanStartTime | When.js:279-316 | the start time stage returns `StartTimeOf` and its messages |
| When.CleanMsDuration | When.js:318-347 | the millisecond duration stage returns `CleanMs`, the days duration after the overrun check, and its messages |
| When.CleanIsProper | When.js:6-16 | a clean when has the documented shape: valid start date, durations at least 0, a start time with non-negative fields and hours below 24 |
| When.CleanFinishWithinDays | When.js:324-338 | for a clean when with a start time, a days duration and a time duration over a day, the finish date is no more than the days duration after the start date |
| DatePartFormatter.ShortYearPartsAsWritten | DatePartFormatter.js:45-67 | `getShortYearParts` as written: a hundred-year window holding a non-negative reference year, starting at a year ending in 50 from the middle of a century on and ending at one below it |
| DatePartFormatter.CorrectedShortYearParts | DatePartFormatter.js:45-67 | the corrected window of Findings row 8: a hundred years wide and holding the reference year, ending at a year ending in 49 below the middle of a century |
| DatePartFormatter.WindowsAreACentury | DatePartFormatter.js:45-67 | both the window as written and the corrected window span exactly a hundred years |
| DatePartFormatter.ShortYearRoundTrip | DatePartFormatter.js:333-341 | every year of the corrected window is read back from its last two digits |
| DatePartFormatter.AsWrittenWindowMisreadsItsLastYear | DatePartFormatter.js:55-61 | as written, a reference year below the middle of its century gets a window whose last year ends in 50 and is read back a century too early |
| DatePartFormatter.WindowsShareBases | DatePartFormatter.js:45-67 | both windows add the same centuries to a two-digit year, so they differ only in which years are written short |
| DatePartFormatter.AsWrittenShortYearRoundTrip | DatePartFormatter.js:333-341 | every other year of the window as written is read back from its last two digits |
| DatePartFormatter.NewFormatter | DatePartFormatter.js:117-198 | the constructor builds the formatter of its options: locale, layout and the minus-separator flag |
| DatePartFormatter.HasMinus | DatePartFormatter.js:191-197 | the loop finds a minus sign exactly when some separator contains one |
| DatePartFormatter.FieldTokenKeepsLayout | DatePartFormatter.js:160-171 | a month, day or year token takes the next slot, keeps every slot used at most once and leaves the separators alone |
| DatePartFormatter.SeparatorTokenKeepsLayout | DatePartFormatter.js:172-186 | a separator token, concatenated to an adjacent separator or given a new slot, keeps the layout well laid out |
| DatePartFormatter.SeparatorTokenText | DatePartFormatter.js:172-186 | the separator token's own text, not its upper-case form, ends the joined separator text |
| DatePartFormatter.LayoutIsWellLaidOut | DatePartFormatter.js:151-188 | any token array gives a layout whose slots are used once, and whose separators join to the separator tokens in order |
| DatePartFormatter.DefaultFormatter | DatePartFormatter.js:130-148 | no token array, or an empty one, gives month, '/', day, '/', year with two digits each and no minus separator |
| DatePartFormatter.MinusSeparatorFlag | DatePartFormatter.js:191-197 | the formatter's minus flag is set if and only if some separator contains '-' |
| DatePartFormatter.PlaceSeparators | DatePartFormatter.js:225-229 | the loop writes each separator into its slot, later ones over earlier ones |
| DatePartFormatter.Format | DatePartFormatter.js:201-233 | a missing date part is returned as it is; otherwise the text of the date in the formatter's layout |
| DatePartFormatter.PaddedTwoDigits | DatePartFormatter.js:206-221 | a number padded to two digits is a non-empty run of digits, at most two long exactly below a hundred |
| DatePartFormatter.PaddedTwoReadsBack | DatePartFormatter.js:313-325 | `parseInt` reads a natural number back from its two-digit text |
| DatePartFormatter.DefaultJoin | DatePartFormatter.js:225-232 | the default layout joins month, day and year texts with '/' in that order |
| DatePartFormatter.DefaultFormatText | DatePartFormatter.test.js:11-18 | with the default layout a date is written MM/DD/YY, the month one-based |
| DatePartFormatter.ScanFrom | DatePartFormatter.js:275-303 | the scan stops before the end of the text only once three runs are gathered, never moves backwards, and the last number index stays behind the position |
| DatePartFormatter.Gather | DatePartFormatter.js:275-311 | at most three runs are gathered, and the remaining text starts within the text |
| DatePartFormatter.ParseNumbers | DatePartFormatter.js:270-311 | the scanning loop gathers the runs and the end of the last one that the scan function describes |
| DatePartFormatter.Parse | DatePartFormatter.js:259-390 | `parse` with `fullInfo` gives the result the parse function describes, error reasons included; a minus sign is read with the corrected reading of Findings row 3 |
| DatePartFormatter.GatherSlashed | DatePartFormatter.js:275-311 | three runs of digits separated by '/' are gathered as they are and the scan reaches the end |
| DatePartFormatter.GatherNegativeDay | DatePartFormatter.js:286-300 | a minus sign directly before the day's digits puts a sign in front of that run |
| DatePartFormatter.YearTextReadsBack | DatePartFormatter.js:213-221 | with the default layout the year text is a run of digits that the parse reads back as the year, for every year it can read back |
| DatePartFormatter.ShortRunReadsBack | DatePartFormatter.js:328-341 | a two-digit run is read into the window as written of the reference year |
| DatePartFormatter.YearTextMisreadsWindowTop | DatePartFormatter.test.js:31-45 | as written, the window's last year below the middle of a century is written as '50' and read back a century earlier |
| DatePartFormatter.YearTextInWindow | DatePartFormatter.js:213-219 | with fewer than four year digits, a year inside the window is written as its last two digits |
| DatePartFormatter.WindowTop | DatePartFormatter.js:59-61 | below the middle of a century, the window's last year ends in 50 and '50' expands to a century earlier |
| DatePartFormatter.CorrectedYearTextReadsBack | DatePartFormatter.js:45-67 | with the corrected window, every year of the window and every year of three or more digits is written as digits that read back as that year |
| DatePartFormatter.CorrectedWindowYearReadsBack | DatePartFormatter.js:333-341 | the two digits of a year of the corrected window read back as that year |
| DatePartFormatter.LongYearReadsBack | DatePartFormatter.js:213-221 | a year of three or more digits is written in full and read back unchanged |
| DatePartFormatter.ParseThreeRuns | DatePartFormatter.js:313-388 | with the default layout three runs are read as month minus one, day and year, and nothing remains |
| DatePartFormatter.FormatParseRoundTrip | DatePartFormatter.js:201-388 | with the default layout, parsing what `format` writes gives back the date part, for every valid date whose year can be read back |
| DatePartFormatter.NumOfNegativeRun | DatePartFormatter.js:305-310 | a run with the minus sign code in front reads as the negated number |
| DatePartFormatter.ParseIntAfterNul | DatePartFormatter.js:288 | `parseInt` finds no number in a run that starts with U+0000, the character the string '-' becomes |
| DatePartFormatter.NegativeDayAsWritten | DatePartFormatter.js:286-290 | as written, a negative day of month between two separators is parsed as NaN |
| DatePartFormatter.NegativeDayRead | DatePartFormatter.js:103-104 | with the minus sign put back as a code, the same text gives the negated day of month |
| YmdDate.WeekdayAfter | DateOccurrences.js:571-581 | moving a valid date by `k` days moves its weekday on by `k` modulo 7 |
| YmdDate.WithDayOfMonth | DateOccurrences.js:741 | the result is a valid date in the same year and month whose day is the requested day, or the first or last day of the month when the requested day lies before or after it |
| YmdDate.NthWeekdayFrom | DateOccurrences.js:74-83 | the result has the requested weekday and lies in the n-th seven-day window on or after the start day, or for negative n in the n-th window on or before it |
| YmdDate.MonthNthDayOfWeek | DateOccurrences.js:33-42 | the n-th given weekday counted from the first of the month, or for negative n back from its last day, always on that weekday and not restricted to the month |
| YmdDate.YearNthDayOfWeek | DateOccurrences.js:74-83 | the n-th given weekday counted from January 1, or for negative n back from December 31, each of which is the first occurrence of its own weekday |
| YmdDate.NthWeekdayUnique | DateOccurrences.js:33-37 | the n-th weekday is the only date with that weekday in its seven-day window |
| YmdDate.SameWeekdaySameWeek | DateOccurrences.js:33-37 | two valid dates on the same weekday in one seven-day window are the same date |
| YmdDate.SecondSundayOfFebruary2020 | DateOccurrences.js:33-35 | the 2nd Sunday of February 2020 is 2020-02-09 |
| DateOccurrences.IsRepeatTypeAllowed | DateOccurrences.js:298-305 | the loop sets its flag exactly when the definition has a repeat type and it is one of the allowed repeat types |
| DateOccurrences.ValidateGeneralOccurrenceType | DateOccurrences.js:270-311 | no error exactly when the offset, weekday and month the type reads are numbers in range and a given repeat definition has a repeat type the type allows; otherwise the first failing check's error, in that order |
| DateOccurrences.PeriodError | DateOccurrences.js:360-381 | no error exactly when the period is a non-negative number, a given final date is valid and a given `maxRepeats` is a non-negative number; a final-date error means the period passed, a `maxRepeats` error means both earlier checks passed |
| DateOccurrences.MaxRepeatsChecked | DateOccurrences.js:374-380 | once period and final date pass, `maxRepeats` is rejected exactly when it is set to a non-number or a negative number, and accepted exactly when unset or non-negative |
| DateOccurrences.ValidateOccurrenceRepeatDefinition | DateOccurrences.js:488-494 | an unknown repeat type, and nothing else, gives the repeat-type error; there is no error exactly when the type is `NO_REPEAT` or the period checks pass |
| DateOccurrences.ValidateDateOccurrenceDefinition | DateOccurrences.js:1053-1070 | no error exactly when the definition is valid; an unknown occurrence type is reported first, then the type's own error, and only after those a period, final-date or `maxRepeats` error |
| DateOccurrences.Advance | DateOccurrences.js:334-353 | DAILY moves the date `period` days, WEEKLY `7*period` days, MONTHLY `period` months with the day pinned into the target month, YEARLY `period` years in the same month; the result is valid |
| DateOccurrences.NextRepeatDate | DateOccurrences.js:508-547 | a count of 0 returns the reference date; any date returned is valid |
| DateOccurrences.AfterIsLater | DateOccurrences.js:540 | `compare(a, b) > 0` holds exactly when b is earlier in the calendar than a |
| DateOccurrences.RepeatEvaluation | DateOccurrences.js:513-547 | for a positive count: no repeat gives nothing; a numeric `maxRepeats` the count has reached gives nothing; otherwise the advanced date is given, and exactly when there is no final date or it is not after the final date |
| DateOccurrences.MaxRepeatsZeroIsOnce | DateOccurrences.js:528-534 | with `maxRepeats` 0 only the first occurrence (count 0) gives a date |
| DateOccurrences.WeeklyExample | DateOccurrences.test.js:135-140 | WEEKLY with period 3 from 2020-02-29 at count 1 gives 2020-03-21 |
| DateOccurrences.FinalDateExample | DateOccurrences.test.js:160-166 | with final date 2020-03-21, WEEKLY with period 4 from 2020-02-29 gives nothing |
| DateOccurrences.WeekdayAdjust | DateOccurrences.js:565-582 | the adjusted date has the requested weekday; without a repeat it is the first such day on or after the reference date, with one it is that weekday of the reference date's Sunday-based week |
| DateOccurrences.PlaceDayOfMonth | DateOccurrences.js:591-624 | the day is `offset + 1` pinned to the month's last day; with a repeat it stays in the advanced date's month, without one it is not before the advanced date and at most one month later |
| DateOccurrences.PlaceDayEndOfMonth | DateOccurrences.js:631-657 | in the advanced date's month the day is `offset` before the last, at least the first; when moved on (only without a repeat) it is the next month with the earlier day number pinned into it, not counted again from its end; without a repeat it is not before the advanced date |
| DateOccurrences.PlaceDowOfMonth | DateOccurrences.js:664-688 | the result has the requested weekday; with a repeat it lies in the `offset`-th week from the first of the month |
| DateOccurrences.PlaceDowEndOfMonth | DateOccurrences.js:695-719 | the result has the requested weekday; with a repeat it lies in the `offset`-th week counted back from the month's last day |
| DateOccurrences.PlaceDayOfSpecificMonth | DateOccurrences.js:726-750 | the result is in the requested month; in the advanced date's year its day is `offset + 1` pinned into the month; with a repeat it stays in that year, without one it is not before the advanced date and at most a year later |
| DateOccurrences.PlaceDayEndOfSpecificMonth | DateOccurrences.js:757-782 | the result is in the requested month; in the advanced date's year its day is `offset` before the month's last, at least the first; with a repeat it stays in that year, without one it is not before the advanced date and at most a year later |
| DateOccurrences.PlaceDowOfSpecificMonth | DateOccurrences.js:789-814 | the result has the requested weekday; with a repeat it lies in the `offset`-th week from the first of the requested month |
| DateOccurrences.PlaceDowEndOfSpecificMonth | DateOccurrences.js:821-846 | the result has the requested weekday; with a repeat it lies in the `offset`-th week counted back from the end of the requested month |
| DateOccurrences.PlaceDayOfYear | DateOccurrences.js:853-878 | with a repeat the result is exactly `offset` days after January 1 of the advanced date's year |
| DateOccurrences.PlaceDayEndOfYear | DateOccurrences.js:885-910 | with a repeat the result is exactly `offset` days before December 31 of the advanced date's year |
| DateOccurrences.PlaceDowOfYear | DateOccurrences.js:917-941 | the result has the requested weekday; with a repeat it lies in the `offset`-th week from January 1 |
| DateOccurrences.PlaceDowEndOfYear | DateOccurrences.js:948-972 | the result has the requested weekday; with a repeat it lies in the `offset`-th week counted back from December 31 |
| DateOccurrences.DowOfMonthNotBefore | DateOccurrences.js:677-686 | without a repeat the n-th weekday of the month is never before the reference date |
| DateOccurrences.DowEndOfMonthNotBefore | DateOccurrences.js:708-717 | without a repeat the n-th weekday back from the month's end is never before the reference date, for n from 1 to 4 |
| DateOccurrences.DowOfSpecificMonthNotBefore | DateOccurrences.js:803-812 | without a repeat the n-th weekday of the requested month is never before the reference date |
| DateOccurrences.DowEndOfSpecificMonthNotBefore | DateOccurrences.js:835-844 | without a repeat the n-th weekday back from the requested month's end is never before the reference date, for n from 1 to 4 |
| DateOccurrences.DayOfYearNotBefore | DateOccurrences.js:867-876 | without a repeat the day of the year is never before the reference date |
| DateOccurrences.DayEndOfYearNotBefore | DateOccurrences.js:899-908 | without a repeat the day counted back from December 31 is never before the reference date, for offsets up to 364 |
| DateOccurrences.DowOfYearNotBefore | DateOccurrences.js:930-939 | without a repeat the n-th weekday of the year is never before the reference date |
| DateOccurrences.DowEndOfYearNotBefore | DateOccurrences.js:961-970 | without a repeat the n-th weekday back from December 31 is never before the reference date, for n from 1 to 52 |
| DateOccurrences.NextYmdDate | DateOccurrences.js:565-972 | `getNextYMDDate` of every type: any date is valid; count 0 always gives a date; a positive count without a repeat gives none; for every type but DAY_OF_WEEK a date comes exactly when the repeat evaluation gives one |
| DateOccurrences.PlaceFacts | DateOccurrences.js:33-65 | the placement lands on the definition's weekday for the weekday types and in the definition's month for the day-of-specific-month types |
| DateOccurrences.WeeklyKeepsWeekday | DateOccurrences.js:339-343 | advancing by whole weeks keeps the weekday |
| DateOccurrences.ResolvedWeekday | DateOccurrences.js:565-972 | a resolved date of a weekday type falls on the definition's weekday; for DAY_OF_WEEK after the first occurrence, when the repeat is weekly |
| DateOccurrences.DayOfWeekFirstOccurrence | DateOccurrences.js:565-584 | without a repeat DAY_OF_WEEK gives the first day with that weekday on or after the reference date |
| DateOccurrences.NonRepeatNotBefore | DateOccurrences.js:565-972 | without a repeat every type places its occurrence on or after the reference date, within the offset bounds of the from-the-end types |
| DateOccurrences.NextState | DateOccurrences.js:1164-1199 | a date recorded in a state that is not all done is valid |
| DateOccurrences.Advanced | DateOccurrences.js:1188-1198 | the state is all done exactly when no date was resolved; otherwise it holds the resolved date and the count one higher |
| DateOccurrences.NextDateOccurrenceState | DateOccurrences.js:1164-1199 | `getNextDateOccurrenceState` computes the next state as `NextState` describes |
| DateOccurrences.NextStateFromRefs | DateOccurrences.js:1176-1198 | with the reference date and count read off the state, an exhausted resolver only happens when there is a previous state, and the next state is the advanced one |
| DateOccurrences.NextStateAdvances | DateOccurrences.js:1176-1198 | a state that is not all done advances by the date resolved from its last date (or `today`) and its count (or 0) |
| DateOccurrences.AllDoneIsFinal | DateOccurrences.js:1171-1174 | an all-done state is returned unchanged |
| DateOccurrences.NextStateCases | DateOccurrences.js:1164-1199 | a state that is not all done either advances to a valid date with the count one higher, or keeps its date and count and is marked all done; the first occurrence is never exhausted |
| DateOccurrences.NonRepeatOccursOnce | DateOccurrences.js:513-521 | a definition without a repeat occurs once: the state after the first occurrence is all done next time |
| DateOccurrences.MaxRepeatsExhausts | DateOccurrences.js:528-534 | once the count reaches a numeric `maxRepeats` the state is marked all done and keeps its count |
| DateOccurrences.MondayOnceExamples | DateOccurrences.test.js:384-402 | DAY_OF_WEEK Monday from Sunday 2020-12-20 gives Monday 2020-12-21, and from 2020-12-21 gives 2020-12-21 |
| DateOccurrences.MondayOnceNextWeek | DateOccurrences.test.js:404-420 | from Tuesday 2020-12-22 it gives 2020-12-28, after which the occurrences are all done |
| DateOccurrences.MondayWeeklyFirstRepeat | DateOccurrences.test.js:423-440 | weekly Monday with `maxRepeats` 3 from Tuesday 2020-12-08 at count 1 gives 2020-12-14 at count 2 |
| DateOccurrences.MondayWeeklyLastRepeat | DateOccurrences.test.js:442-455 | it then gives 2020-12-21 at count 3, after which the occurrences are all done |
| DateOccurrences.TwentyNinthInLeapFebruary | DateOccurrences.test.js:610-652 | DAY_OF_MONTH offset 28 repeating every 3 months from 2019-11-30 gives 2020-02-29 |
| DateOccurrences.TwentyNinthInCommonFebruary | DateOccurrences.test.js:654-663 | the same from 2020-11-30 gives 2021-02-28 |
| DateOccurrences.DayEndOfMonthKeepsDay | DateOccurrences.js:644-654 | DAY_END_OF_MONTH with offset 1 from 2021-01-31 moves on to February keeping the day, giving 2021-02-28, February's last day rather than the day before it |
| NumberFilter.IsNumberFilter | NumberFilter.js:19-25 | a filter with something to apply is present |
| NumberFilter.DoesNumberSatisfyFilter | NumberFilter.js:38-62 | a non-number or NaN always fails; with no filter any other number passes |
| NumberFilter.SatisfiesExactlyTheBounds | NumberFilter.js:1-9 | for a comparable number the filter passes exactly when the number is not below a numeric minimum, not above a numeric maximum, and, only when neither bound is a number, strictly equal to a numeric `value` |
| NumberFilter.NonFilterPassesEveryNumber | NumberFilter.js:28-37 | a filter with nothing numeric to apply passes every number but NaN |
| NumberFilter.NumberFilterRejectsSomething | NumberFilter.js:13-25 | a number filter whose numeric properties are all finite rejects some finite number |
| NumberFilter.FiniteBoundsAreClosedInterval | NumberFilter.js:45-51 | with two finite bounds the filter passes exactly the closed interval between them, whatever `value` holds |
| NumberFilter.NaNMinimumRejectsNothing | NumberFilter.js:45-51 | a NaN minimum without a numeric maximum rejects no comparable number |
| NumberFilter.NaNMaximumRejectsEverything | NumberFilter.js:50-53 | a NaN maximum rejects every number |
| Ratios.Ones | Ratios.js:74-76 | `n` denominators of 1 |
| Ratios.FromLists | Ratios.js:65-77 | the numerators are the first argument as a list; the denominators are the second as a list, or one 1 per numerator when it is undefined |
| Ratios.Concatenate | Ratios.js:34-39 | the `forEach` gathers all numerators and all denominators of the ratios, in order |
| Ratios.Construct | Ratios.js:25-78 | the constructor builds the ratio `New` describes, a single Ratio argument read as a one-element list |
| Ratios.ToJson | Ratios.js:83-88 | passing the object `toJSON` returns to the constructor rebuilds the same ratio |
| Ratios.InverseSwaps | Ratios.js:104 | `inverse` swaps the numerators and the denominators, and inverting twice gives the ratio back |
| Ratios.MultiplyConcatenates | Ratios.js:111 | `multiply` concatenates the numerators and the denominators of the two ratios |
| Ratios.DivideIsMultiplyByInverse | Ratios.js:113-119 | `divide` is `multiply` by the inverse |
| Ratios.MultiplyAssociative | Ratios.js:111 | `multiply` is associative |
| Ratios.ConcatenationIsProduct | Ratios.js:30-40 | concatenating the lists of several ratios is multiplying them left to right |
| Ratios.NewFromRatiosIsProduct | Ratios.js:28-64 | a Ratio built from a non-empty array of Ratios, or from Ratio arguments, is their product |
| Ratios.NewFromOneRatio | Ratios.js:21 | a single Ratio argument gives back that ratio's lists |
| Ratios.OneRatioAsWrittenIsLost | Ratios.js:28-54 | as written, a single Ratio argument gives an undefined numerator over 1, which differs from every ratio but that one |
| Ratios.NewFromNumber | Ratios.js:45-48 | a single number `n` is `n` over 1 |
| Ratios.NewFromNumbersAlone | Ratios.js:41-43 | an array of numbers alone keeps its numerators and gets one denominator of 1 per numerator |
| Ratios.MissingDenominatorIsOnes | Ratios.js:17 | a numerator argument without a denominator argument is the same as over ones |
| Ratios.ReducedOfTwoNumbers | Ratios.js:125-128 | reducing `n` over `d` built from two numbers gives back `n` and `d` |
| Ratios.ReduceSingleIdempotent | Ratios.js:166-169 | reducing a single-numerator ratio keeps its numerator, leaves one denominator (its first, or 1 when missing), and reducing again changes nothing |
| StringFilter.CodePointSpaceSet | StringFilter.js:7-27 | `isCodePointSpace` is true exactly for U+0009 to U+000D, U+0020, U+2000 to U+200A and the eight listed code points |
| StringFilter.SpaceNotionsDiffer | StringFilter.js:7-27 | the white space of `trim` and `\s` and that of `isCodePointSpace` differ on U+0085 and U+FEFF and nowhere else |
| StringFilter.Upper | StringFilter.js:45 | upper-casing a code unit keeps it white space or not under both notions, and leaves no lower-case ASCII letter |
| StringFilter.Trim | StringFilter.js:45 | the trimmed text neither starts nor ends with white space |
| StringFilter.FilterablePhrase | StringFilter.js:40-46 | a missing text comes back missing, and only then |
| StringFilter.FilterablePhraseShape | StringFilter.js:29-46 | a filterable phrase has single spaces between words, no lower-case letters, and the words of the upper-cased text |
| StringFilter.WordsShape | StringFilter.js:45 | the words of a text that is not blank, joined by single spaces, are single-spaced, upper-case, and the words of the trimmed upper-cased text |
| StringFilter.UpperTrimCommute | StringFilter.js:45 | upper-casing and trimming can be done in either order |
| StringFilter.RunsOfTrim | StringFilter.js:45 | trimming keeps the words |
| StringFilter.RunsOfJoin | StringFilter.js:45 | the words of words joined by single spaces are those words |
| StringFilter.FilterablePhraseSet | StringFilter.js:90-109 | a non-string comes back as it is; the empty text gives the empty set; any other text gives exactly the phrases of one or more adjacent words of its trimmed, upper-cased words |
| StringFilter.AddPhrasesAt | StringFilter.js:99-104 | the inner loop adds exactly the phrases that start at word `i` |
| StringFilter.PhraseSetHoldsPhrase | StringFilter.js:85-86 | the filterable phrase of a text is in its phrase set and is the longest phrase there |
| StringFilter.BlankTextPhraseSet | StringFilter.js:96-105 | a text of white space only, unlike the empty text, gives the set holding only the empty phrase |
| StringFilter.CodePointAt | StringFilter.js:151 | a code point at least U+10000 is read exactly where a surrogate pair starts; otherwise the unit itself is read |
| StringFilter.FromCodePoint | StringFilter.js:155 | a code point below U+10000 is written as one unit, any other as two |
| StringFilter.CodePointRoundTrip | StringFilter.js:151-155 | reading a code point and writing it back gives the units it was read from, and the corrected step covers exactly those units |
| StringFilter.ScanFinds | StringFilter.js:150-171 | the scan ends with nothing in hand, and every word it records lies in the text at the index recorded for it, each after the previous one |
| StringFilter.ScanAsWrittenSplitsU10000 | StringFilter.js:152 | as written, the text U+10000 gives the three-unit word D800 DC00 DC00 |
| StringFilter.ScanReadsU10000 | StringFilter.js:150-171 | with the step corrected, the text U+10000 gives the one word U+10000 |
| StringFilter.AddEntry | StringFilter.js:118-126 | adding an entry adds its key and no other |
| StringFilter.FilterablePhraseMap | StringFilter.js:137-187 | a non-string comes back as it is; otherwise every entry of the map lists the starts of the words its phrase begins at, and no entry is empty; the scan steps with the corrected width of Findings row 5 |
| StringFilter.ScanLoop | StringFilter.js:150-171 | the scanning loop records the words and start indices of the scan with the corrected step, one start per word |
| StringFilter.AddEntriesAt | StringFilter.js:174-185 | the inner loop extends the entries from the first `i` words to the first `i + 1` |
| StringFilter.StartsOfShape | StringFilter.js:129-133 | the entry of a phrase lists in ascending order the start of every word the phrase begins at, and nothing else |
| StringFilter.StartsOfEmpty | StringFilter.js:173-185 | a phrase has an entry exactly when it is a phrase of adjacent words |
| StringFilter.ScanStartsAscend | StringFilter.js:150-171 | the words are recorded in order, so their start indices ascend |
| StringFilter.PhraseMapKeys | StringFilter.js:129-137 | the map's words lie in the upper-cased text at their recorded indices, and its keys are exactly the phrases of adjacent words |
| StringFilter.PhraseMapEntry | StringFilter.js:129-133 | the entry of a key lists in ascending order the start of every word the phrase begins at, and nothing else |
| StringFilter.AddTest | StringFilter.js:215-242 | adding a test clears the pending NOT and OR, keeps the word and quote state, and leaves at least one test |
| StringFilter.EndOfWord | StringFilter.js:244-261 | the end of a word leaves no word in hand |
| StringFilter.Finish | StringFilter.js:338-345 | a level's one test is returned as it is, and a level without tests passes everything |
| StringFilter.ParseFilterSpec | StringFilter.js:263-346 | the recursive parse gives the test and the stop index `ParseFrom` describes, with the step over a code point and the OR of a negated test corrected |
| StringFilter.ApplyCode | StringFilter.js:275-333 | the loop body for one code point computes `Step` |
| StringFilter.CompileFilterSpec | StringFilter.js:384-391 | the spec is trimmed and upper-cased, then parsed with the corrected step of Findings row 5 and the corrected OR of Findings row 6 |
| StringFilter.ParsePlain | StringFilter.js:333 | a plain code unit outside quotes is pushed onto the word in hand |
| StringFilter.ParseSpace | StringFilter.js:296-299 | white space outside quotes ends the word in hand |
| StringFilter.ParseEnd | StringFilter.js:336-345 | at the end of the spec the word in hand is ended and the level's test made |
| StringFilter.ParseClose | StringFilter.js:291-294 | a closing parenthesis ends the group being parsed, one unit on |
| StringFilter.ParseMinus | StringFilter.js:328-330 | a minus sign outside quotes sets a pending NOT |
| StringFilter.ParseOpenQuote | StringFilter.js:306-308 | a double quote outside quotes opens a quoted word |
| StringFilter.ParseCloseQuote | StringFilter.js:281-286 | a double quote inside quotes ends the quoted word, which is never the operator OR |
| StringFilter.ParseQuoted | StringFilter.js:281-288 | inside quotes every code unit but a double quote is pushed onto the word in hand |
| StringFilter.ParseGroup | StringFilter.js:310-325 | an opening parenthesis at the start of a word parses a group to its closing parenthesis and adds the group's test |
| StringFilter.EndOfPlainWord | StringFilter.js:249-257 | a word other than OR, with nothing pending, adds the test that the phrase has it |
| StringFilter.FinishEval | StringFilter.js:338-345 | a level's test passes exactly when all of its tests pass |
| StringFilter.WordsAreAnded | StringFilter.js:368-369 | words in a spec must all be in the phrase |
| StringFilter.BlankSpecPasses | StringFilter.js:384-391 | a spec that is empty or white space only compiles to a test that every phrase passes, a missing phrase included |
| StringFilter.LeadingOrReads | StringFilter.js:249-253 | the word OR with no test before it sets no pending OR and leaves the parser unchanged |
| StringFilter.LeadingOrIgnored | StringFilter.js:249-253 | a spec that starts with OR followed by words compiles to the same test as the words alone |
| StringFilter.NotWord | StringFilter.js:373 | a minus sign before a word: the phrase must not have the word |
| StringFilter.QuotedPhrase | StringFilter.js:367 | a quoted word is looked for as it is, spaces and the word OR included |
| StringFilter.UnclosedQuote | StringFilter.js:281-288 | a double quote never closed makes the rest of the spec one word, read as the operator OR if it is OR |
| StringFilter.NotGroup | StringFilter.js:373-375 | a minus sign before a group of words: the phrase must not pass the group's test |
| StringFilter.EndOfOrWord | StringFilter.js:250-253 | the word OR after a test sets a pending OR |
| StringFilter.OrWords | StringFilter.js:370-372 | words, the word OR and a word parse to the conjunction of the words before OR, or the test of the word after it |
| StringFilter.OrWordsEval | StringFilter.js:370-372 | such a spec passes a phrase exactly when it has all the words before OR or the word after it |
| StringFilter.OrNegated | StringFilter.js:215-242 | words, OR and a negated word: as written the OR takes the word's test from before the negation, corrected it takes the negated test |
| StringFilter.OrNegatedPasses | StringFilter.js:236 | "A OR -B" on a phrase that has B and not A passes as written and fails as intended |

## Left out

- DateOccurrences.NextRepeatDate: the precondition `Advanceable` asks for a repeat type and a period once the count is past zero. DateOccurrences.js:523-526 throws on an unknown repeat type, and a missing period there gives an invalid date; neither error path is modelled.
- DateOccurrences.NextYmdDate: the precondition `Resolvable` also asks that the occurrence type is set and that the offset, day of week and month it reads are valid. DateOccurrences.js:565-972 reads `undefined` there and yields an invalid date. Such definitions are the ones `validateDateOccurrenceDefinition` rejects, and that validation is modelled.
- DateOccurrences.NextDateOccurrenceState: the same preconditions as `NextYmdDate`.
- DateOccurrences.NonRepeatNotBefore: an end-of-month, end-of-specific-month or end-of-year placement can land before the reference date when its offset is beyond 4 weeks, 52 weeks or 364 days. The lemma holds only within those bounds, and DateOccurrences.js makes no other promise.
- DateOccurrences.RepeatEvaluation: a `maxRepeats` that is not a number is treated as no limit. DateOccurrences.js:528-534 compares `occurrenceCount >= maxRepeats` for any defined value, so `null` ends the repeats at once, `'3'` acts as 3 and other text never ends them. `Field` keeps no value for a non-number, and `validateOccurrenceRepeatDefinition` rejects such a value (`MaxRepeatsChecked`).
- DateOccurrences: the DataItem converters `getOccurrenceDefinitionDataItem`, `getOccurrenceDefinitionFromDataItem`, the repeat-definition converters and the state converters (DateOccurrences.js:436-478, 1000-1044, 1098-1128) are not modelled. Nor are `getOccurrenceType` or the string helpers. They only copy fields into and out of JSON-style objects.
- The JavaScript `Date` object is replaced by proleptic Gregorian day numbers. Years 0 to 99 are not mapped to 1900 to 1999 as `new Date(y, m, d)` does. Daylight-saving shifts in `deltaDays` are ignored.
- The current date (`today`) and the current year are parameters, not read from a clock.
- Time parts hold integers only. NaN, `Math.round` of fractional milliseconds and the `parseFloat` of seconds in `timePartFromString` are not modelled, so "58.999" seconds read as 58.
- DatePart: date part fields are integers. A fractional, NaN or infinite year, month or day reaching `new Date` in DatePart.js:69-76 cannot be expressed.
- JsText.ParseInt: only decimal text is read. `parseInt` without a radix also reads a `0x` or `0X` prefix as hexadecimal, so `parseInt('0x10')` is 16 in JavaScript and 0 here. This reaches `DatePart.DatePartFromString` and `TimePart.TimePartFromString` on such text.
- TimePart.TimePartToMs: `timePart.milliseconds || 0` at TimePart.js:318 has no `typeof` test, so a milliseconds value that is not a number is coerced: `'250'` counts 250, `true` counts 1 and `'abc'` gives NaN. `Field` keeps no value for a non-number, and the model counts it 0, as it does the hours, minutes and seconds that TimePart.js tests with `typeof`.
- TimePart.CompareIgnoresCleaning: holds for fields that are numbers or missing. For a milliseconds value that is not a number, such as `'5'`, TimePart.js compares by the coerced 5 while cleaning (TimePart.js:67-69) sets the field to 0.
- TimePart.AreTimePartsIdentical: two field values that are not numbers are both `NonNumeric` in the model, so `'a'` and `'b'` count as identical, where `===` at TimePart.js:467-470 says false.
- DatePartFormatter: texts are sequences of code points, while DatePartFormatter.js:307 and :388 index UTF-16 code units. The two agree on text without characters beyond U+FFFF.
- DatePartFormatter.Parse: only the `fullInfo` form of `parse` is modelled. The plain form returns the same date part without the error details.
- DatePartFormatter.Format: it keeps the two-digit-year window that DatePartFormatter.test.js:37-43 pins (Findings row 8). The corrected window is `CorrectedShortYearParts`, written out by `YearTextCorrected` with `CorrectedYearTextReadsBack` proved about it, but formatting does not use it, so that the model agrees with those tests.
- DatePartFormatter: `new DatePartNumericFormatter(null)` throws; the model takes its options as a value and has no such case.
- When.CleanWhen: the `addMessages` option and the message texts are not modelled. The messages are returned as a list of kinds, whether or not they would be wrapped.
- "Returns the same object" (`===`) is modelled as a `changed` flag or as value equality. Object identity itself is not modelled.
- Ratios: a JSON object whose `nums` or `dens` is not an array, or is falsy (missing, `null`, 0 or the empty string), is not modelled.
- Ratios: the multi-numerator prime branch of `getReducedNumeratorDenominator`, `reduce` beyond one numerator, and `toValue` are not modelled. They depend on PrimeUtils.js, which is not part of this model.
- StringFilter: `toUpperCase` is modelled for ASCII letters only. JavaScript's `\s` and the code-point space test are modelled by `IsJsSpace` and `IsCodePointSpace` over their listed code units.
- TimePartFormatter.js, CalendarInfo.js, Files.js, FrameManager.js and ElementUtils.js are not part of this model.
- YMDDate.js and UserMessages.js are not part of this model. The few `YMDDate` helpers used are re-specified in `YmdDate`.

## Findings

| source | as written | input that shows it | evidently intended | confidence | as-written member | corrected member |
|---|---|---|---|---|---|---|
| TimePart.js:345-352 | a negative `ms` that is a multiple of `wrapAround_ms` becomes `wrapAround_ms` itself, since `Math.round(ms % w)` is 0 | `timePartFrom_ms(-86400000, 86400000)` gives 24:00:00 | the result is at least 0 and below `wrapAround_ms` (TimePart.js:336-338) | not executed | TimePart.WrapAsWrittenReachesWrap | TimePart.Wrap |
| DateTimePart.js:39-45 | hours at or below −24 that are a multiple of 24 become hour 24 of the previous day | hours −24 on 2020-01-02 give 2020-01-01 at hour 24 | the time is a normal time within a day (DateTimePart.js:13-15) | not executed | DateTimePart.FoldAsWrittenLeavesHourTwentyFour | DateTimePart.FoldHours |
| DatePartFormatter.js:286-290 | a minus sign is put into the digit list as the string '-', which does not read back as a sign | "1/-2/2020" gives a day that is not a number | a negative number reads as a negative number (DatePartFormatter.js:103-104) | not executed | DatePartFormatter.NegativeDayAsWritten | DatePartFormatter.NegativeDayRead |
| Ratios.js:28-54 | one `Ratio` argument matches no branch, so the numerators become `[undefined]` over `[1]` | `new Ratio(r)` for any ratio `r` | one or more `Ratio` arguments give their product (Ratios.js:21) | not executed | Ratios.OneRatioAsWrittenIsLost | Ratios.NewFromOneRatio |
| StringFilter.js:152 | the step is two units only for code points above 65536, so U+10000 is stepped by one unit; the same step is at StringFilter.js:274 in the filter-spec parser | the text U+10000 gives the word D800 DC00 DC00 | the step is two units for every code point above U+FFFF | not executed | StringFilter.ScanAsWrittenSplitsU10000 | StringFilter.ScanReadsU10000 |
| StringFilter.js:236 | the OR takes the test from before a pending NOT is applied | "A OR -B" passes a phrase that has B and not A | '-' negates the word that follows it (StringFilter.js:370-373) | not executed | StringFilter.OrNegatedPasses | StringFilter.OrNegated |
| DatePart.js:119-144 | the text is split at every '-', so a negative year gives four parts and no date | "-1-1-1", the text `datePartToString` gives for year −1 | the text of a date part converts back to it (DatePart.js:95-96) | not executed, low: negative years may be out of scope | DatePart.NegativeYearNotParsed | DatePart.DatePartFromStringSigned |
| DatePartFormatter.js:59-60 | below the middle of a century the window of two-digit years ends at `century*100 + 50`, while two-digit text is read back into `century*100 - 50 .. century*100 + 49` | with reference year 2049, 2050 is written as '50' and '50' is read back as 1950 | the window holds exactly the years two-digit text reads back into, ending at `century*100 + 49` | not executed | DatePartFormatter.AsWrittenWindowMisreadsItsLastYear | DatePartFormatter.CorrectedShortYearParts |
