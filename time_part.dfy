/**
 * TimePart.js: times of day as (hours, minutes, seconds, milliseconds)
 * records with whole-number fields, their carry normalisation, conversion to
 * and from a millisecond count, the `hh:mm:ss` text form, comparison and the
 * time filters.
 */
module TimePart {
  import opened Wrappers
  import JsMath
  import JsText

  const MillisecondsPerMinute: int := 60 * 1000
  const MillisecondsPerHour: int := 60 * MillisecondsPerMinute
  const MillisecondsPerDay: int := 24 * MillisecondsPerHour

  datatype TimePart = TimePart(hours: int, minutes: int, seconds: int, milliseconds: int)

  /** A time part object as received: each field is missing, a number, or a value of another type. */
  datatype TimePartFields = TimePartFields(hours: Field, minutes: Field, seconds: Field, milliseconds: Field)

  function FieldsOf(t: TimePart): TimePartFields {
    TimePartFields(Numeric(t.hours), Numeric(t.minutes), Numeric(t.seconds), Numeric(t.milliseconds))
  }

  /** The fields of a time part that may be missing. */
  function OptionalFields(t: Option<TimePart>): Option<TimePartFields> {
    if t.Some? then Some(FieldsOf(t.value)) else None
  }

  /** Fields that are not numbers read as 0. */
  function Filled(f: TimePartFields): TimePart {
    TimePart(
      if f.hours.Numeric? then f.hours.value else 0,
      if f.minutes.Numeric? then f.minutes.value else 0,
      if f.seconds.Numeric? then f.seconds.value else 0,
      if f.milliseconds.Numeric? then f.milliseconds.value else 0)
  }

  /** The millisecond count of a time part. */
  function Total(t: TimePart): int {
    t.hours * 3600000 + t.minutes * 60000 + t.seconds * 1000 + t.milliseconds
  }

  /** Minutes and seconds above -60 and below 60, milliseconds above -1000 and below 1000. */
  predicate InRange(t: TimePart) {
    -60 < t.minutes < 60 && -60 < t.seconds < 60 && -1000 < t.milliseconds < 1000
  }

  /** A missing time is earlier than any time; otherwise the millisecond counts decide. */
  predicate TimeBefore(a: Option<TimePart>, b: Option<TimePart>) {
    b.Some? && (a.None? || Total(a.value) < Total(b.value))
  }

  /** Both missing, or both present with the same millisecond count. */
  predicate SameTime(a: Option<TimePart>, b: Option<TimePart>) {
    a.None? == b.None? && (a.Some? ==> Total(a.value) == Total(b.value))
  }

  predicate NonNegative(t: TimePart) {
    t.hours >= 0 && t.minutes >= 0 && t.seconds >= 0 && t.milliseconds >= 0
  }

  predicate NonPositive(t: TimePart) {
    t.hours <= 0 && t.minutes <= 0 && t.seconds <= 0 && t.milliseconds <= 0
  }

  /** A value split by `cleanValue` into what stays and what is carried to the next field. */
  datatype Rounding = Rounding(value: int, carry: int)

  /**
   * `cleanValue`: the magnitude is split into whole `bound`s (the carry) and
   * the rest, and the sign is put back on both.
   */
  function CleanValue(value: int, bound: int): (r: Rounding)
    requires bound > 0
    ensures value == r.carry * bound + r.value
    ensures -bound < r.value < bound
    ensures value >= 0 ==> r.value >= 0 && r.carry >= 0
    ensures value <= 0 ==> r.value <= 0 && r.carry <= 0
    ensures -bound < value < bound ==> r == Rounding(value, 0)
  {
    var sign := if value < 0 then -1 else 1;
    var magnitude := if value < 0 then -value else value;
    if magnitude >= bound then
      var carry := JsMath.FloorDiv(magnitude, bound);
      var rest := magnitude - carry * bound;
      if value < 0 then Rounding(-rest, -carry) else Rounding(rest, carry)
    else
      Rounding(sign * magnitude, 0)
  }

  /** The carries of `cleanTimePart`: milliseconds into seconds into minutes into hours. */
  function Carried(t: TimePart): (r: TimePart)
    ensures InRange(r)
    ensures Total(r) == Total(t)
    ensures InRange(t) ==> r == t
    ensures t.milliseconds == 0 ==> r.milliseconds == 0
    ensures NonNegative(t) ==> NonNegative(r)
    ensures NonPositive(t) ==> NonPositive(r)
  {
    var ms := CleanValue(t.milliseconds, 1000);
    var s := CleanValue(t.seconds + ms.carry, 60);
    var m := CleanValue(t.minutes + s.carry, 60);
    TimePart(t.hours + m.carry, m.value, s.value, ms.value)
  }

  /** A cleaned time part; `changed` is false when the argument itself is returned. */
  datatype Cleaned = Cleaned(value: TimePart, changed: bool)

  /**
   * What `cleanTimePart` returns: `None` stays `None`; otherwise every field is
   * set, the fields are in range, the millisecond count is that of the
   * argument, and the argument itself comes back exactly when it already had
   * all four fields in range.
   */
  function Clean(input: Option<TimePartFields>): (r: Option<Cleaned>)
    ensures r.None? <==> input.None?
    ensures r.Some? ==> InRange(r.value.value) && Total(r.value.value) == Total(Filled(input.value))
    ensures r.Some? ==> (!r.value.changed <==> FieldsOf(r.value.value) == input.value)
    ensures r.Some? ==> (!r.value.changed <==>
      (input.value.hours.Numeric? && input.value.minutes.Numeric? && input.value.seconds.Numeric?
       && input.value.milliseconds.Numeric? && InRange(Filled(input.value))))
  {
    match input
    case None => None
    case Some(f) =>
      var t := Carried(Filled(f));
      Some(Cleaned(t, FieldsOf(t) != f))
  }

  /**
   * `cleanTimePart`, step by step as TimePart.js threads the carries through
   * its locals.
   */
  method CleanTimePart(input: Option<TimePartFields>) returns (r: Option<Cleaned>)
    ensures r == Clean(input)
  {
    if input.None? {
      return None;
    }
    var f := input.value;
    var hours := if f.hours.Numeric? then f.hours.value else 0;
    var minutes := if f.minutes.Numeric? then f.minutes.value else 0;
    var seconds := if f.seconds.Numeric? then f.seconds.value else 0;
    var milliseconds := if f.milliseconds.Numeric? then f.milliseconds.value else 0;

    var rounding := CleanValue(milliseconds, 1000);
    milliseconds := rounding.value;
    seconds := seconds + rounding.carry;

    rounding := CleanValue(seconds, 60);
    seconds := rounding.value;
    minutes := minutes + rounding.carry;

    rounding := CleanValue(minutes, 60);
    minutes := rounding.value;
    hours := hours + rounding.carry;

    var t := TimePart(hours, minutes, seconds, milliseconds);
    assert t == Carried(Filled(f));
    r := Some(Cleaned(t, FieldsOf(t) != f));
  }

  /** The carry examples: 1:62:123.4567 is 2:04:07.567, and carries cascade. */
  lemma CleanCarryExamples()
    ensures Carried(TimePart(1, 62, 123, 4567)) == TimePart(2, 4, 7, 567)
    ensures Carried(TimePart(2, 59, 59, 2234)) == TimePart(3, 0, 1, 234)
  {
    assert CleanValue(4567, 1000) == Rounding(567, 4);
    assert CleanValue(127, 60) == Rounding(7, 2);
    assert CleanValue(64, 60) == Rounding(4, 1);
    assert CleanValue(2234, 1000) == Rounding(234, 2);
    assert CleanValue(61, 60) == Rounding(1, 1);
    assert CleanValue(60, 60) == Rounding(0, 1);
  }

  /** The same carries with every field negated: the sign goes onto each field. */
  lemma CleanCarryNegativeExamples()
    ensures Carried(TimePart(-1, -62, -123, -4567)) == TimePart(-2, -4, -7, -567)
    ensures Carried(TimePart(-2, -59, -59, -2234)) == TimePart(-3, 0, -1, -234)
  {
    assert CleanValue(-4567, 1000) == Rounding(-567, -4);
    assert CleanValue(-127, 60) == Rounding(-7, -2);
    assert CleanValue(-64, 60) == Rounding(-4, -1);
    assert CleanValue(-2234, 1000) == Rounding(-234, -2);
    assert CleanValue(-61, 60) == Rounding(-1, -1);
    assert CleanValue(-60, 60) == Rounding(0, -1);
  }

  /** A field that is missing or a number. */
  predicate UnsetOrNumeric(f: Field) {
    !f.NonNumeric?
  }

  /** No field is a value of another type than a number. */
  predicate NoOtherFields(f: TimePartFields) {
    UnsetOrNumeric(f.hours) && UnsetOrNumeric(f.minutes) && UnsetOrNumeric(f.seconds) && UnsetOrNumeric(f.milliseconds)
  }

  /** Some field is a number. */
  predicate SomeNumeric(f: TimePartFields) {
    f.hours.Numeric? || f.minutes.Numeric? || f.seconds.Numeric? || f.milliseconds.Numeric?
  }

  /**
   * `isTimePart`: an object none of whose time fields is anything but a
   * number or missing, with at least one field a number.
   */
  function IsTimePart(item: Option<TimePartFields>): (r: bool)
    ensures r ==> item.Some? && item.value != TimePartFields(Unset, Unset, Unset, Unset)
  {
    item.Some? && NoOtherFields(item.value) && SomeNumeric(item.value)
  }

  /**
   * An object is a time part exactly when it is the fields of some time part
   * with some fields left out: each field is either that time part's number
   * or missing, and not all are missing.
   */
  lemma IsTimePartIffSomeTime(item: Option<TimePartFields>)
    ensures IsTimePart(item) <==>
      item.Some? && item.value != TimePartFields(Unset, Unset, Unset, Unset)
      && exists t: TimePart :: Within(item.value, t)
  {
    if IsTimePart(item) {
      assert Within(item.value, Filled(item.value));
    }
  }

  /** Every field of `f` is either missing or the matching field of `t`. */
  predicate Within(f: TimePartFields, t: TimePart) {
    (f.hours == Unset || f.hours == Numeric(t.hours))
    && (f.minutes == Unset || f.minutes == Numeric(t.minutes))
    && (f.seconds == Unset || f.seconds == Numeric(t.seconds))
    && (f.milliseconds == Unset || f.milliseconds == Numeric(t.milliseconds))
  }

  /** A field of another type makes the object not a time part, whatever the other fields hold. */
  lemma NonNumericIsNotTimePart(f: TimePartFields)
    requires f.hours.NonNumeric? || f.minutes.NonNumeric? || f.seconds.NonNumeric? || f.milliseconds.NonNumeric?
    ensures !IsTimePart(Some(f))
  {
  }

  // ---------------------------------------------------------------------
  // Milliseconds

  /**
   * `timePartTo_ms`: missing fields count as 0, and so do fields that are not
   * numbers. TimePart.js coerces a milliseconds value that is not a number
   * with `|| 0` instead; `Field` keeps no value to coerce.
   */
  function TimePartToMs(input: Option<TimePartFields>): (r: Option<int>)
    ensures r.None? <==> input.None?
    ensures input.Some? ==> r == Some(Total(Filled(input.value)))
  {
    if input.None? then None else Some(Total(Filled(input.value)))
  }

  /** Cleaning a time part with all four fields is carrying it. */
  lemma CleanOfTimePart(t: TimePart, r: Option<Cleaned>)
    requires r == Clean(Some(FieldsOf(t)))
    ensures r.Some? && r.value.value == Carried(t)
  {
    assert Filled(FieldsOf(t)) == t;
  }

  /** Cleaning does not change the millisecond count. */
  lemma CleanKeepsMilliseconds(input: Option<TimePartFields>)
    ensures Clean(input).Some? ==> TimePartToMs(Some(FieldsOf(Clean(input).value.value))) == TimePartToMs(input)
  {
  }

  /**
   * The wrap-around fold of `timePartFrom_ms` as written: a count at or
   * above the wrap becomes `ms % wrap`, a negative one `wrap + ms % wrap`
   * with JavaScript's truncating remainder.
   */
  function WrapAsWritten(ms: int, wrapAround: Option<int>): int {
    if wrapAround.Some? && wrapAround.value > 0 then
      if ms >= wrapAround.value then ms % wrapAround.value
      else if ms < 0 then wrapAround.value + JsMath.Rem(ms, wrapAround.value)
      else ms
    else ms
  }

  /** Minus one whole day folds to 24:00:00, a count equal to the wrap itself. */
  lemma WrapAsWrittenReachesWrap()
    ensures WrapAsWritten(-MillisecondsPerDay, Some(MillisecondsPerDay)) == MillisecondsPerDay
  {
  }

  /** The documented fold: with a positive wrap the count lands in [0, wrap) and keeps its residue. */
  function Wrap(ms: int, wrapAround: Option<int>): (r: int)
    ensures wrapAround.Some? && wrapAround.value > 0 ==>
      0 <= r < wrapAround.value && exists k :: ms == r + wrapAround.value * k
    ensures !(wrapAround.Some? && wrapAround.value > 0) ==> r == ms
  {
    if wrapAround.Some? && wrapAround.value > 0 then
      var w := wrapAround.value;
      assert ms == ms % w + w * (ms / w);
      ms % w
    else ms
  }

  /** Counts already in [0, wrap) are left alone. */
  lemma WrapKeepsInRange(ms: int, w: int)
    requires 0 <= ms < w
    ensures Wrap(ms, Some(w)) == ms
  {
    ModOfMultiple(ms, w, 0, ms);
  }

  /** Euclidean remainder from any quotient-remainder split. */
  lemma ModOfMultiple(a: int, w: int, c: int, rem: int)
    requires w > 0 && 0 <= rem < w && a == w * c + rem
    ensures a % w == rem
  {
    DivisionUnique(a / w, a % w, c, rem, w);
  }

  /** Quotient and remainder are unique. */
  lemma DivisionUnique(q1: int, r1: int, q2: int, r2: int, d: int)
    requires d > 0 && 0 <= r1 < d && 0 <= r2 < d && d * q1 + r1 == d * q2 + r2
    ensures q1 == q2 && r1 == r2
  {
    if q1 > q2 {
      MulAtLeast(d, q1 - q2);
    } else if q1 < q2 {
      MulAtLeast(d, q2 - q1);
    }
  }

  lemma {:induction false} MulAtLeast(w: int, m: int)
    requires w > 0 && m >= 1
    ensures w * m >= w
    decreases m
  {
    if m > 1 {
      MulAtLeast(w, m - 1);
      assert w * m == w * (m - 1) + w;
    }
  }


  /** The fold as written differs from the documented one exactly on negative multiples of the wrap. */
  lemma WrapDiffersOnNegativeMultiples(ms: int, wrapAround: Option<int>)
    ensures WrapAsWritten(ms, wrapAround) != Wrap(ms, wrapAround) <==>
      wrapAround.Some? && wrapAround.value > 0 && ms < 0 && ms % wrapAround.value == 0
  {
    if wrapAround.Some? && wrapAround.value > 0 {
      var w := wrapAround.value;
      if ms >= w {
        assert WrapAsWritten(ms, wrapAround) == ms % w;
      } else if ms >= 0 {
        WrapKeepsInRange(ms, w);
      } else {
        var k := -ms;
        var q, rest := k / w, k % w;
        assert k == w * q + rest;
        assert WrapAsWritten(ms, wrapAround) == w - rest;
        if rest == 0 {
          ModOfMultiple(ms, w, -q, 0);
        } else {
          ModOfMultiple(ms, w, -q - 1, w - rest);
        }
      }
    }
  }

  /** Same-signed fields in range: the form `timePartFrom_ms` produces. */
  predicate Normal(t: TimePart) {
    InRange(t) && (NonNegative(t) || NonPositive(t))
  }

  /**
   * `timePartFrom_ms`: `None` (not a number) gives `None`; otherwise the
   * count is folded, split on its magnitude into hours, minutes, seconds and
   * milliseconds by subtracting from an accumulator, and the sign is put back
   * on each field. The result is the one normal time part with the folded
   * count.
   */
  method TimePartFromMs(ms: Option<int>, wrapAround: Option<int>) returns (r: Option<TimePart>)
    ensures r.None? <==> ms.None?
    ensures r.Some? ==> Normal(r.value) && Total(r.value) == Wrap(ms.value, wrapAround)
    ensures r.Some? && Wrap(ms.value, wrapAround) >= 0 ==> NonNegative(r.value)
    ensures r.Some? ==> forall t :: Normal(t) && Total(t) == Wrap(ms.value, wrapAround) ==> r.value == t
  {
    if ms.None? {
      return None;
    }
    var folded := Wrap(ms.value, wrapAround);

    var total := folded;
    var sign := 1;
    if total < 0 {
      sign := -1;
      total := -total;
    }

    var hours := total / 3600000;
    total := total - hours * 3600000;

    var minutes := total / 60000;
    total := total - minutes * 60000;

    var seconds := total / 1000;
    total := total - seconds * 1000;

    var milliseconds := total;

    var t := TimePart(sign * hours, sign * minutes, sign * seconds, sign * milliseconds);
    assert Normal(t) && Total(t) == folded by {
      if sign == 1 {
        assert t == TimePart(hours, minutes, seconds, milliseconds);
      } else {
        assert t == TimePart(-hours, -minutes, -seconds, -milliseconds);
      }
    }
    forall u | Normal(u) && Total(u) == folded
      ensures t == u
    {
      NormalUnique(t, u);
    }
    r := Some(t);
  }

  /** A normal time part is fixed by its millisecond count. */
  lemma NormalUnique(a: TimePart, b: TimePart)
    requires Normal(a) && Normal(b) && Total(a) == Total(b)
    ensures a == b
  {
    if NonNegative(a) && NonNegative(b) {
      NonNegativeUnique(a, b);
    } else if NonPositive(a) && NonPositive(b) {
      NonPositiveUnique(a, b);
    } else {
      OppositeSignsUnique(a, b);
    }
  }

  lemma NonPositiveUnique(a: TimePart, b: TimePart)
    requires InRange(a) && InRange(b) && NonPositive(a) && NonPositive(b) && Total(a) == Total(b)
    ensures a == b
  {
    var na, nb := Negated(a), Negated(b);
    assert Total(na) == -Total(a) && Total(nb) == -Total(b);
    NonNegativeUnique(na, nb);
    assert a == Negated(na) && b == Negated(nb);
  }

  /** Fields of opposite signs can only share a count of zero, at midnight. */
  lemma OppositeSignsUnique(a: TimePart, b: TimePart)
    requires (NonNegative(a) && NonPositive(b)) || (NonPositive(a) && NonNegative(b))
    requires Total(a) == Total(b)
    ensures a == b
  {
    assert a == Midnight && b == Midnight;
  }

  const Midnight := TimePart(0, 0, 0, 0)

  function Negated(t: TimePart): TimePart {
    TimePart(-t.hours, -t.minutes, -t.seconds, -t.milliseconds)
  }

  lemma NonNegativeUnique(a: TimePart, b: TimePart)
    requires InRange(a) && InRange(b) && NonNegative(a) && NonNegative(b) && Total(a) == Total(b)
    ensures a == b
  {
    var ma, mb := a.hours * 60 + a.minutes, b.hours * 60 + b.minutes;
    var sa, sb := ma * 60 + a.seconds, mb * 60 + b.seconds;
    assert 1000 * sa + a.milliseconds == 1000 * sb + b.milliseconds;
    DivisionUnique(sa, a.milliseconds, sb, b.milliseconds, 1000);
    DivisionUnique(ma, a.seconds, mb, b.seconds, 60);
    DivisionUnique(a.hours, a.minutes, b.hours, b.minutes, 60);
  }

  /** `timePartTo_ms` followed by `timePartFrom_ms` gives back a normal time part within the wrap. */
  lemma MsRoundTripTotal(t: TimePart, wrapAround: Option<int>)
    requires Normal(t)
    requires wrapAround.Some? && wrapAround.value > 0 ==> 0 <= Total(t) < wrapAround.value
    ensures Wrap(TimePartToMs(Some(FieldsOf(t))).value, wrapAround) == Total(t)
  {
    if wrapAround.Some? && wrapAround.value > 0 {
      WrapKeepsInRange(Total(t), wrapAround.value);
    }
  }

  /**
   * The wrap examples: -0:15 and -24:15 fold to 23:45, 24:15 and 49:15 to
   * 0:15 and 1:15.
   */
  lemma WrapExamples()
    ensures Wrap(Total(TimePart(0, -15, 0, 0)), Some(MillisecondsPerDay)) == Total(TimePart(23, 45, 0, 0))
    ensures Wrap(Total(TimePart(-24, -15, 0, 0)), Some(MillisecondsPerDay)) == Total(TimePart(23, 45, 0, 0))
    ensures Wrap(Total(TimePart(24, 15, 0, 0)), Some(MillisecondsPerDay)) == Total(TimePart(0, 15, 0, 0))
    ensures Wrap(Total(TimePart(25, 15, 0, 0)), Some(MillisecondsPerDay)) == Total(TimePart(1, 15, 0, 0))
    ensures Wrap(Total(TimePart(49, 15, 0, 0)), Some(MillisecondsPerDay)) == Total(TimePart(1, 15, 0, 0))
  {
  }

  // ---------------------------------------------------------------------
  // Comparison

  /**
   * `compareTimeParts`: the difference of the millisecond counts, with a
   * missing time part before any time.
   */
  function CompareTimeParts(a: Option<TimePartFields>, b: Option<TimePartFields>): (r: int)
    ensures a.None? && b.None? ==> r == 0
    ensures a.None? && b.Some? ==> r == -1
    ensures a.Some? && b.None? ==> r == 1
    ensures a.Some? && b.Some? ==> r == Total(Filled(a.value)) - Total(Filled(b.value))
  {
    if a == b then 0
    else match (TimePartToMs(a), TimePartToMs(b))
      case (None, None) => 0
      case (None, Some(_)) => -1
      case (Some(_), None) => 1
      case (Some(x), Some(y)) => x - y
  }

  /** Swapping the arguments negates the comparison. */
  lemma CompareAntisymmetric(a: Option<TimePartFields>, b: Option<TimePartFields>)
    ensures CompareTimeParts(a, b) == -CompareTimeParts(b, a)
  {
  }

  /** Cleaning either argument does not change a comparison. */
  lemma CompareIgnoresCleaning(a: TimePartFields, b: Option<TimePartFields>)
    ensures CompareTimeParts(Some(FieldsOf(Clean(Some(a)).value.value)), b) == CompareTimeParts(Some(a), b)
  {
    var c := Clean(Some(a)).value.value;
    assert Filled(FieldsOf(c)) == c;
    CompareByTotals(FieldsOf(c), a, b);
  }

  lemma CompareByTotals(a: TimePartFields, a2: TimePartFields, b: Option<TimePartFields>)
    requires Total(Filled(a)) == Total(Filled(a2))
    ensures CompareTimeParts(Some(a), b) == CompareTimeParts(Some(a2), b)
  {
    if b.Some? {
      assert CompareTimeParts(Some(a), b) == Total(Filled(a)) - Total(Filled(b.value));
    }
  }

  /** `areTimePartsIdentical`: the same object, or both present with the same four fields. */
  function AreTimePartsIdentical(a: Option<TimePartFields>, b: Option<TimePartFields>): (r: bool)
    ensures r <==> a == b
  {
    if a == b then true
    else if a.None? || b.None? then false
    else
      a.value.hours == b.value.hours && a.value.minutes == b.value.minutes
      && a.value.seconds == b.value.seconds && a.value.milliseconds == b.value.milliseconds
  }

  function CleanedFields(a: Option<TimePartFields>): Option<TimePartFields> {
    match Clean(a)
    case None => None
    case Some(c) => Some(FieldsOf(c.value))
  }

  /**
   * `areTimePartsEquivalent`: identical as given or once cleaned. Equivalent
   * time parts have the same millisecond count.
   */
  function AreTimePartsEquivalent(a: Option<TimePartFields>, b: Option<TimePartFields>): (r: bool)
    ensures r ==> TimePartToMs(a) == TimePartToMs(b)
    ensures a == b ==> r
  {
    AreTimePartsIdentical(a, b) || AreTimePartsIdentical(CleanedFields(a), CleanedFields(b))
  }

  /** For time parts whose fields are all non-negative, equivalence is equality of millisecond counts. */
  lemma NonNegativeEquivalence(a: TimePartFields, b: TimePartFields)
    requires NonNegative(Filled(a)) && NonNegative(Filled(b))
    ensures AreTimePartsEquivalent(Some(a), Some(b)) <==> Total(Filled(a)) == Total(Filled(b))
  {
    if Total(Filled(a)) == Total(Filled(b)) {
      NormalUnique(Carried(Filled(a)), Carried(Filled(b)));
    }
  }

  /** A time part already in range is its own cleaned form. */
  lemma CleanedInRange(t: TimePart)
    requires InRange(t)
    ensures CleanedFields(Some(FieldsOf(t))) == Some(FieldsOf(t))
  {
    assert Filled(FieldsOf(t)) == t;
  }

  /**
   * With mixed signs the same time need not be equivalent: h:-01 and
   * (h-1):59 are the same number of milliseconds, but both are already clean
   * and they differ.
   */
  lemma MixedSignsNotEquivalent(h: int)
    ensures Total(TimePart(h, -1, 0, 0)) == Total(TimePart(h - 1, 59, 0, 0))
    ensures !AreTimePartsEquivalent(Some(FieldsOf(TimePart(h, -1, 0, 0))), Some(FieldsOf(TimePart(h - 1, 59, 0, 0))))
  {
    var a, b := TimePart(h, -1, 0, 0), TimePart(h - 1, 59, 0, 0);
    CleanedInRange(a);
    CleanedInRange(b);
  }

  // ---------------------------------------------------------------------
  // Text

  /**
   * `hmsToStringPart` for a whole number: one digit is padded to two with a
   * '0', after the '-' when negative.
   */
  function HmsToStringPart(value: int): (s: string)
    ensures 0 <= value < 10 ==> |s| == 2 && s[0] == '0'
    ensures -10 < value < 0 ==> |s| == 3 && s[..2] == "-0"
    ensures value >= 10 || value <= -10 ==> s == JsText.IntToString(value)
  {
    var magnitude := if value < 0 then -value else value;
    if -10 < value < 10 then
      if value >= 0 then "0" + JsText.NatToString(magnitude) else "-0" + JsText.NatToString(magnitude)
    else
      JsText.IntToString(value)
  }

  /** `parseInt` reads a field's text back as the field. */
  lemma HmsToStringPartParses(value: int)
    ensures JsText.ParseInt(HmsToStringPart(value)) == Some(value)
  {
    if -10 < value < 10 {
      JsText.ParseIntZeroPadded(if value < 0 then -value else value, value < 0);
    } else {
      JsText.ParseIntToString(value);
    }
  }

  /** A field's text is digits and '-', at least two characters, ending in a digit. */
  predicate FieldText(s: string) {
    |s| >= 2 && (forall i :: 0 <= i < |s| ==> s[i] == '-' || JsText.IsDigit(s[i])) && JsText.IsDigit(s[|s| - 1])
  }

  lemma HmsCharacters(value: int)
    ensures FieldText(HmsToStringPart(value))
  {
    var magnitude := if value < 0 then -value else value;
    var digits := JsText.NatToString(magnitude);
    if -10 < value < 10 {
      assert HmsToStringPart(value) == (if value >= 0 then "0" else "-0") + digits;
    } else {
      assert HmsToStringPart(value) == if value < 0 then "-" + digits else digits;
    }
  }

  /** The digits after the point of a fraction of a second, trailing zeros dropped. */
  function FractionDigits(ms: int): (s: string)
    requires 0 < ms < 1000
    ensures 1 <= |s| <= 3 && s[|s| - 1] != '0'
  {
    var d := [JsText.DigitChar(ms / 100), JsText.DigitChar(ms / 10 % 10), JsText.DigitChar(ms % 10)];
    if ms % 100 == 0 then d[..1] else if ms % 10 == 0 then d[..2] else d
  }

  /**
   * `hmsToStringPart` for a number of seconds with a fraction, given as a
   * count of milliseconds that is not a whole number of seconds: below ten
   * seconds either way the whole part is padded to two digits.
   */
  function FractionalSecondsPart(count: int): (s: string)
    requires count % 1000 != 0
    ensures |s| >= 4
    ensures (s[0] == '-') <==> count < 0
  {
    var magnitude := if count < 0 then -count else count;
    var text := JsText.NatToString(magnitude / 1000) + "." + FractionDigits(magnitude % 1000);
    var padded := if magnitude < 10000 then "0" + text else text;
    if count < 0 then "-" + padded else padded
  }

  /**
   * The `no-ms` rounding of `timePartToString`: the seconds plus the fraction
   * rounded half up, cleaned again when that reaches a minute either way. The
   * result is the time rounded to the nearest second.
   */
  function RoundedToSecond(t: TimePart): (r: TimePart)
    requires InRange(t)
    ensures InRange(r) && r.milliseconds == 0
    ensures Total(r) == 1000 * JsMath.FloorDiv(Total(t) + 500, 1000)
  {
    var seconds := t.seconds + JsMath.FloorDiv(t.milliseconds + 500, 1000);
    FloorDivShift(t.hours * 3600 + t.minutes * 60 + t.seconds, t.milliseconds + 500, 1000);
    if seconds >= 60 || seconds <= -60 then
      Clean(Some(TimePartFields(Numeric(t.hours), Numeric(t.minutes), Numeric(seconds), Unset))).value.value
    else
      TimePart(t.hours, t.minutes, seconds, 0)
  }

  /** Whole multiples of the divisor pass through a floor division unchanged. */
  lemma FloorDivShift(x: int, a: int, d: int)
    requires d > 0
    ensures JsMath.FloorDiv(d * x + a, d) == x + JsMath.FloorDiv(a, d)
  {
    var q, q2 := JsMath.FloorDiv(d * x + a, d), JsMath.FloorDiv(a, d);
    assert d * (x + q2) == d * x + d * q2;
    DivisionUnique(q, d * x + a - d * q, x + q2, a - d * q2, d);
  }

  /**
   * `timePartToString`: the cleaned time as `hh:mm:ss`, with the seconds
   * carrying their fraction when there are milliseconds; with `noMs` the
   * seconds are rounded half up instead, and a rounding to 60 is carried.
   */
  function TimePartToString(input: Option<TimePartFields>, noMs: bool): (r: Option<string>)
    ensures r.None? <==> input.None?
  {
    match Clean(input)
    case None => None
    case Some(c) =>
      var t := c.value;
      if t.milliseconds != 0 then
        if noMs then
          var u := RoundedToSecond(t);
          Some(HmsToStringPart(u.hours) + ":" + HmsToStringPart(u.minutes) + ":" + HmsToStringPart(u.seconds))
        else
          Some(HmsToStringPart(t.hours) + ":" + HmsToStringPart(t.minutes) + ":"
            + FractionalSecondsPart(t.seconds * 1000 + t.milliseconds))
      else
        Some(HmsToStringPart(t.hours) + ":" + HmsToStringPart(t.minutes) + ":" + HmsToStringPart(t.seconds))
  }

  /** A time part already clean comes back from `Clean` unchanged. */
  lemma CleanOfClean(t: TimePart)
    requires InRange(t)
    ensures Clean(Some(FieldsOf(t))) == Some(Cleaned(t, false))
  {
    assert Filled(FieldsOf(t)) == t;
  }

  /** Without milliseconds the text is the three padded fields joined by ':'. */
  lemma ToStringWholeSeconds(f: TimePartFields, noMs: bool)
    requires InRange(Filled(f)) && Filled(f).milliseconds == 0
    ensures var t := Filled(f);
      TimePartToString(Some(f), noMs)
        == Some(HmsToStringPart(t.hours) + ":" + HmsToStringPart(t.minutes) + ":" + HmsToStringPart(t.seconds))
  {
  }

  /** With milliseconds the seconds carry the fraction. */
  lemma ToStringFraction(f: TimePartFields)
    requires InRange(Filled(f)) && Filled(f).milliseconds != 0
    ensures var t := Filled(f);
      TimePartToString(Some(f), false)
        == Some(HmsToStringPart(t.hours) + ":" + HmsToStringPart(t.minutes) + ":"
          + FractionalSecondsPart(t.seconds * 1000 + t.milliseconds))
  {
    var t := Filled(f);
    assert Clean(Some(f)).value.value == t;
    DivisionUniqueSigned(t.seconds, t.milliseconds);
  }

  /** A count of seconds and a non-zero millisecond part in range is never a whole number of seconds. */
  lemma DivisionUniqueSigned(seconds: int, ms: int)
    requires -1000 < ms < 1000 && ms != 0
    ensures (seconds * 1000 + ms) % 1000 != 0
  {
    var x := seconds * 1000 + ms;
    if ms > 0 {
      assert x == 1000 * seconds + ms;
    } else {
      assert x == 1000 * (seconds - 1) + (1000 + ms);
    }
  }

  /** Single digits are padded, negative ones after the sign: -02:-05:-01. */
  lemma ToStringPaddingExample(t: TimePart)
    requires t == TimePart(-2, -5, -1, 0)
    ensures TimePartToString(Some(FieldsOf(t)), false) == Some("-02:-05:-01")
  {
    assert JsText.NatToString(2) == "2" && JsText.NatToString(5) == "5" && JsText.NatToString(1) == "1";
    assert HmsToStringPart(t.hours) == "-02";
    assert HmsToStringPart(t.minutes) == "-05";
    assert HmsToStringPart(t.seconds) == "-01";
    assert HmsToStringPart(t.hours) + ":" + HmsToStringPart(t.minutes) + ":" + HmsToStringPart(t.seconds) == "-02:-05:-01";
    assert Filled(FieldsOf(t)) == t;
    ToStringWholeSeconds(FieldsOf(t), false);
  }

  /** An object with no fields is midnight, 00:00:00. */
  lemma ToStringEmptyExample(f: TimePartFields)
    requires f == TimePartFields(Unset, Unset, Unset, Unset)
    ensures TimePartToString(Some(f), false) == Some("00:00:00")
  {
    assert JsText.NatToString(0) == "0";
    assert HmsToStringPart(0) == "00";
    assert HmsToStringPart(0) + ":" + HmsToStringPart(0) + ":" + HmsToStringPart(0) == "00:00:00";
    assert Filled(f) == Midnight;
    ToStringWholeSeconds(f, false);
  }

  /** Milliseconds alone: -4 ms is 00:00:-00.004. */
  lemma ToStringMillisecondsExample(f: TimePartFields)
    requires f == TimePartFields(Unset, Unset, Unset, Numeric(-4))
    ensures TimePartToString(Some(f), false) == Some("00:00:-00.004")
  {
    assert JsText.NatToString(0) == "0";
    assert HmsToStringPart(0) == "00";
    assert FractionDigits(4) == "004";
    assert FractionalSecondsPart(-4) == "-00.004";
    assert HmsToStringPart(0) + ":" + HmsToStringPart(0) + ":" + FractionalSecondsPart(-4) == "00:00:-00.004";
    assert Filled(f) == TimePart(0, 0, 0, -4);
    ToStringFraction(f);
  }

  /** A millisecond of the other sign is borrowed from the seconds: 10:00:59 less 1 ms is 10:00:58.999. */
  lemma ToStringBorrowExample(t: TimePart)
    requires t == TimePart(10, 0, 59, -1)
    ensures TimePartToString(Some(FieldsOf(t)), false) == Some("10:00:58.999")
  {
    BorrowExampleText();
    assert Filled(FieldsOf(t)) == t;
    ToStringFraction(FieldsOf(t));
  }

  lemma BorrowExampleText()
    ensures HmsToStringPart(10) + ":" + HmsToStringPart(0) + ":" + FractionalSecondsPart(58999) == "10:00:58.999"
  {
    assert HmsToStringPart(10) == "10" by {
      assert JsText.NatToString(10) == "10";
    }
    assert HmsToStringPart(0) == "00" by {
      assert JsText.NatToString(0) == "0";
    }
    assert FractionalSecondsPart(58999) == "58.999" by {
      assert JsText.NatToString(58) == "58";
      assert FractionDigits(999) == "999";
    }
  }

  /** With `noMs` the text is that of the time rounded to the nearest second. */
  lemma ToStringRounded(f: TimePartFields)
    requires InRange(Filled(f)) && Filled(f).milliseconds != 0
    ensures var u := RoundedToSecond(Filled(f));
      TimePartToString(Some(f), true)
        == Some(HmsToStringPart(u.hours) + ":" + HmsToStringPart(u.minutes) + ":" + HmsToStringPart(u.seconds))
  {
  }

  /** Without milliseconds, 1:59:59.501 rounds up to 2:00:00, the carry passing through every field. */
  lemma ToStringRoundingExample(t: TimePart)
    requires t == TimePart(1, 59, 59, 501)
    ensures TimePartToString(Some(FieldsOf(t)), true) == Some("02:00:00")
  {
    assert JsText.NatToString(0) == "0" && JsText.NatToString(2) == "2";
    assert HmsToStringPart(0) == "00";
    assert HmsToStringPart(2) == "02";
    assert HmsToStringPart(2) + ":" + HmsToStringPart(0) + ":" + HmsToStringPart(0) == "02:00:00";
    assert JsMath.FloorDiv(1001, 1000) == 1;
    assert CleanValue(60, 60) == Rounding(0, 1);
    assert RoundedToSecond(t) == TimePart(2, 0, 0, 0);
    assert Filled(FieldsOf(t)) == t;
    ToStringRounded(FieldsOf(t));
  }

  /**
   * `timePartFromString` for whole seconds: trimmed text split on ':' into two
   * or three parts, each starting with an integer; the result is cleaned.
   */
  function TimePartFromString(text: string): (r: Option<TimePart>)
    ensures r.Some? ==> InRange(r.value)
  {
    if |text| == 0 then None else FromParts(JsText.Split(JsText.Trim(text), ':'))
  }

  /** Hours and minutes, and optionally seconds, read with `parseInt` and cleaned. */
  function FromParts(parts: seq<string>): (r: Option<TimePart>)
    ensures r.Some? ==> InRange(r.value)
  {
    if |parts| != 2 && |parts| != 3 then None
    else
      var hours := JsText.ParseInt(parts[0]);
      var minutes := JsText.ParseInt(parts[1]);
      if hours.None? || minutes.None? then None
      else if |parts| == 3 then
        var seconds := JsText.ParseInt(parts[2]);
        if seconds.None? then None
        else Some(Carried(TimePart(hours.value, minutes.value, seconds.value, 0)))
      else Some(Carried(TimePart(hours.value, minutes.value, 0, 0)))
  }

  /** Text written for a cleaned time part without milliseconds reads back as that time part. */
  lemma StringRoundTrip(t: TimePart)
    requires InRange(t) && t.milliseconds == 0
    ensures TimePartFromString(TimePartToString(Some(FieldsOf(t)), false).value) == Some(t)
  {
    var h, m, s := HmsToStringPart(t.hours), HmsToStringPart(t.minutes), HmsToStringPart(t.seconds);
    FromFieldTexts(t);
    assert Filled(FieldsOf(t)) == t;
    ToStringWholeSeconds(FieldsOf(t), false);
  }

  /** The `no-ms` text of a time with milliseconds reads back as the time rounded to the nearest second. */
  lemma RoundedStringRoundTrip(f: TimePartFields)
    requires InRange(Filled(f)) && Filled(f).milliseconds != 0
    ensures TimePartFromString(TimePartToString(Some(f), true).value) == Some(RoundedToSecond(Filled(f)))
  {
    FromFieldTexts(RoundedToSecond(Filled(f)));
    ToStringRounded(f);
  }

  lemma FromFieldTexts(t: TimePart)
    requires InRange(t) && t.milliseconds == 0
    ensures TimePartFromString(HmsToStringPart(t.hours) + ":" + HmsToStringPart(t.minutes) + ":"
      + HmsToStringPart(t.seconds)) == Some(t)
  {
    HmsCharacters(t.hours);
    HmsCharacters(t.minutes);
    HmsCharacters(t.seconds);
    HmsToStringPartParses(t.hours);
    HmsToStringPartParses(t.minutes);
    HmsToStringPartParses(t.seconds);
    FromTexts(HmsToStringPart(t.hours), HmsToStringPart(t.minutes), HmsToStringPart(t.seconds), t);
  }

  /** Three field texts that parse as the fields of a time part in range read back as that time part. */
  lemma FromTexts(h: string, m: string, s: string, t: TimePart)
    requires FieldText(h) && FieldText(m) && FieldText(s)
    requires JsText.ParseInt(h) == Some(t.hours) && JsText.ParseInt(m) == Some(t.minutes)
    requires JsText.ParseInt(s) == Some(t.seconds)
    requires InRange(t) && t.milliseconds == 0
    ensures TimePartFromString(h + ":" + m + ":" + s) == Some(t)
  {
    FieldTextsSplit(h, m, s);
    assert FromParts([h, m, s]) == Some(Carried(TimePart(t.hours, t.minutes, t.seconds, 0)));
  }

  lemma FieldTextsSplit(h: string, m: string, s: string)
    requires FieldText(h) && FieldText(m) && FieldText(s)
    ensures var text := h + ":" + m + ":" + s;
      |text| > 0 && JsText.Split(JsText.Trim(text), ':') == [h, m, s]
  {
    var text := h + ":" + m + ":" + s;
    assert text[0] == h[0] && text[|text| - 1] == s[|s| - 1];
    JsText.TrimNoop(text);
    SplitTimeText(h, m, s);
  }

  /** Field texts joined by ':' split back into the three fields. */
  lemma SplitTimeText(h: string, m: string, s: string)
    requires forall i :: 0 <= i < |h| ==> h[i] == '-' || JsText.IsDigit(h[i])
    requires forall i :: 0 <= i < |m| ==> m[i] == '-' || JsText.IsDigit(m[i])
    requires forall i :: 0 <= i < |s| ==> s[i] == '-' || JsText.IsDigit(s[i])
    ensures JsText.Split(h + ":" + m + ":" + s, ':') == [h, m, s]
  {
    assert ':' !in h && ':' !in m && ':' !in s;
    assert h + ":" + m + ":" + s == h + [':'] + (m + [':'] + s);
    JsText.SplitAt(h, ':', m + [':'] + s);
    JsText.SplitAt(m, ':', s);
    JsText.SplitWhole(s, ':');
  }

  // ---------------------------------------------------------------------
  // Filters

  /** A single filter: any of its fields may be missing (`None`). */
  type SingleFilter = TimePartFields

  /** `isTimePartSingleFilter`: some field is a number; unlike `isTimePart`, fields of another type are not looked at. */
  function IsTimePartSingleFilter(f: Option<SingleFilter>): (r: bool)
    ensures r ==> f.Some?
    ensures IsTimePart(f) ==> r
    ensures r && NoOtherFields(f.value) ==> IsTimePart(f)
  {
    f.Some? && SomeNumeric(f.value)
  }

  predicate IsFullFilter(f: SingleFilter) {
    f.hours.Numeric? && f.minutes.Numeric? && f.seconds.Numeric? && f.milliseconds.Numeric?
  }

  /** `isPartialTimePartSingleFilter`: some field set and some field missing. */
  function IsPartialTimePartSingleFilter(f: Option<SingleFilter>): (r: bool)
    ensures r <==> IsTimePartSingleFilter(f) && !IsFullFilter(f.value)
  {
    if f.None? then false
    else if f.value.hours.Numeric? then
      !f.value.minutes.Numeric? || !f.value.seconds.Numeric? || !f.value.milliseconds.Numeric?
    else f.value.minutes.Numeric? || f.value.seconds.Numeric? || f.value.milliseconds.Numeric?
  }

  /** A time part filter: a lower bound, an upper bound and a single time. */
  datatype TimePartFilter = TimePartFilter(
    earliestTimePart: Option<SingleFilter>,
    latestTimePart: Option<SingleFilter>,
    timePart: Option<SingleFilter>)

  /** `isTimePartFilter`: one of the three single filters has something to apply. */
  function IsTimePartFilter(f: Option<TimePartFilter>): (r: bool)
    ensures r <==> (f.Some? && (IsTimePartSingleFilter(f.value.earliestTimePart)
      || IsTimePartSingleFilter(f.value.latestTimePart) || IsTimePartSingleFilter(f.value.timePart)))
  {
    if f.None? then false
    else (IsTimePartSingleFilter(f.value.earliestTimePart)
      || IsTimePartSingleFilter(f.value.latestTimePart)
      || IsTimePartSingleFilter(f.value.timePart))
  }

  /**
   * A single filter has something to apply exactly when it rejects some time:
   * one millisecond below a full filter, or one below each field a partial
   * filter sets, fails its lower bound.
   */
  lemma SingleFilterConstrains(f: SingleFilter)
    ensures IsTimePartSingleFilter(Some(f)) <==> exists t :: !IsTimePartOnOrAfterSingleFilter(Some(f), Some(t))
  {
    if IsTimePartSingleFilter(Some(f)) {
      if IsFullFilter(f) {
        var t := TimePart(0, 0, 0, Total(Filled(f)) - 1);
        assert !IsTimePartOnOrAfterSingleFilter(Some(f), Some(t));
      } else {
        var t := TimePart(
          if f.hours.Numeric? then f.hours.value - 1 else 0,
          if f.minutes.Numeric? then f.minutes.value - 1 else 0,
          if f.seconds.Numeric? then f.seconds.value - 1 else 0,
          if f.milliseconds.Numeric? then f.milliseconds.value - 1 else 0);
        assert !IsTimePartOnOrAfterSingleFilter(Some(f), Some(t));
      }
    }
  }

  /**
   * `isTimePartOnOrBeforeSingleFilter`: a full filter is a time comparison;
   * otherwise no field that the filter sets may be exceeded.
   */
  function IsTimePartOnOrBeforeSingleFilter(f: Option<SingleFilter>, t: Option<TimePart>): (r: bool)
    ensures t.None? ==> !r
    ensures t.Some? && f.Some? && IsFullFilter(f.value) ==> (r <==> Total(t.value) <= Total(Filled(f.value)))
    ensures t.Some? && (f.None? || !IsFullFilter(f.value)) ==>
      (r <==> (f.None? || ((!f.value.hours.Numeric? || t.value.hours <= f.value.hours.value)
        && (!f.value.minutes.Numeric? || t.value.minutes <= f.value.minutes.value)
        && (!f.value.seconds.Numeric? || t.value.seconds <= f.value.seconds.value)
        && (!f.value.milliseconds.Numeric? || t.value.milliseconds <= f.value.milliseconds.value))))
  {
    if t.None? then false
    else if f.None? then true
    else
      var p := t.value;
      var filter := f.value;
      if filter.hours.Numeric? && filter.minutes.Numeric? && filter.seconds.Numeric? && filter.milliseconds.Numeric? then
        CompareTimeParts(Some(FieldsOf(p)), Some(filter)) <= 0
      else if filter.hours.Numeric? && p.hours > filter.hours.value then false
      else if filter.minutes.Numeric? && p.minutes > filter.minutes.value then false
      else if filter.seconds.Numeric? && p.seconds > filter.seconds.value then false
      else if filter.milliseconds.Numeric? && p.milliseconds > filter.milliseconds.value then false
      else true
  }

  /** `isTimePartOnOrAfterSingleFilter`, the mirror image. */
  function IsTimePartOnOrAfterSingleFilter(f: Option<SingleFilter>, t: Option<TimePart>): (r: bool)
    ensures t.None? ==> !r
    ensures t.Some? && f.Some? && IsFullFilter(f.value) ==> (r <==> Total(t.value) >= Total(Filled(f.value)))
    ensures t.Some? && (f.None? || !IsFullFilter(f.value)) ==>
      (r <==> (f.None? || ((!f.value.hours.Numeric? || t.value.hours >= f.value.hours.value)
        && (!f.value.minutes.Numeric? || t.value.minutes >= f.value.minutes.value)
        && (!f.value.seconds.Numeric? || t.value.seconds >= f.value.seconds.value)
        && (!f.value.milliseconds.Numeric? || t.value.milliseconds >= f.value.milliseconds.value))))
  {
    if t.None? then false
    else if f.None? then true
    else
      var p := t.value;
      var filter := f.value;
      if filter.hours.Numeric? && filter.minutes.Numeric? && filter.seconds.Numeric? && filter.milliseconds.Numeric? then
        CompareTimeParts(Some(FieldsOf(p)), Some(filter)) >= 0
      else if filter.hours.Numeric? && p.hours < filter.hours.value then false
      else if filter.minutes.Numeric? && p.minutes < filter.minutes.value then false
      else if filter.seconds.Numeric? && p.seconds < filter.seconds.value then false
      else if filter.milliseconds.Numeric? && p.milliseconds < filter.milliseconds.value then false
      else true
  }

  /** For normal time parts a full single filter pins the time: before and after it means equal to it. */
  lemma FullFilterPinsTime(f: SingleFilter, t: TimePart)
    requires IsFullFilter(f) && Normal(t) && Normal(Filled(f))
    ensures (IsTimePartOnOrBeforeSingleFilter(Some(f), Some(t))
      && IsTimePartOnOrAfterSingleFilter(Some(f), Some(t))) <==> t == Filled(f)
  {
    if Total(t) == Total(Filled(f)) {
      NormalUnique(t, Filled(f));
    }
  }

  /** Resolved bounds of a filter: `None` when the filter applies nothing. */
  datatype Bounds = Bounds(earliest: Option<SingleFilter>, latest: Option<SingleFilter>)

  /** `resolveFilter`: explicit bounds win; a lone `timePart` is both bounds. */
  function ResolveFilter(f: Option<TimePartFilter>): (r: Option<Bounds>)
    ensures r.Some? ==> r.value.earliest.Some? || r.value.latest.Some?
    ensures f.Some? && (f.value.earliestTimePart.Some? || f.value.latestTimePart.Some?) ==>
      r == Some(Bounds(f.value.earliestTimePart, f.value.latestTimePart))
    ensures f.Some? && f.value.earliestTimePart.None? && f.value.latestTimePart.None? ==>
      r == if f.value.timePart.Some? then Some(Bounds(f.value.timePart, f.value.timePart)) else None
  {
    if f.None? then None
    else if f.value.earliestTimePart.Some? || f.value.latestTimePart.Some? then
      Some(Bounds(f.value.earliestTimePart, f.value.latestTimePart))
    else if f.value.timePart.Some? then Some(Bounds(f.value.timePart, f.value.timePart))
    else None
  }

  function InBounds(b: Bounds, t: Option<TimePart>): bool {
    IsTimePartOnOrBeforeSingleFilter(b.latest, t) && IsTimePartOnOrAfterSingleFilter(b.earliest, t)
  }

  /** `isTimePartInFilter`: on or after the earliest bound and on or before the latest. */
  function IsTimePartInFilter(f: Option<TimePartFilter>, t: Option<TimePart>): (r: bool)
    ensures t.None? ==> !r
    ensures t.Some? && ResolveFilter(f).None? ==> r
    ensures ResolveFilter(f).Some? ==> (r <==> InBounds(ResolveFilter(f).value, t))
  {
    if t.None? then false
    else match ResolveFilter(f)
      case None => true
      case Some(b) => InBounds(b, t)
  }

  /** A filter that is not a time part filter has nothing to apply: every time part passes it. */
  lemma NothingToApplyPassesAll(f: Option<TimePartFilter>, t: TimePart)
    requires !IsTimePartFilter(f)
    ensures IsTimePartInFilter(f, Some(t))
  {
  }

  /** `isTimePartRangeFullyInFilter`: both ends of the range pass the filter. */
  function IsTimePartRangeFullyInFilter(f: Option<TimePartFilter>, a: Option<TimePart>, b: Option<TimePart>): (r: bool)
    ensures r <==> a.Some? && b.Some? && IsTimePartInFilter(f, a) && IsTimePartInFilter(f, b)
  {
    if a.None? || b.None? then false
    else match ResolveFilter(f)
      case None => true
      case Some(bounds) => InBounds(bounds, a) && InBounds(bounds, b)
  }

  /**
   * `isTimePartRangeOverlappingFilter`: the range is put in order; a filter
   * with a partial bound goes to the field-wise test, otherwise the earlier
   * end must be on or before the latest bound and the later end on or after
   * the earliest bound.
   */
  function IsTimePartRangeOverlappingFilter(f: Option<TimePartFilter>, a: Option<TimePart>, b: Option<TimePart>): (r: bool)
    ensures a.None? || b.None? ==> !r
    ensures a.Some? && b.Some? && ResolveFilter(f).None? ==> r
  {
    if a.None? || b.None? then false
    else match ResolveFilter(f)
      case None => true
      case Some(bounds) =>
        var (earlier, later) := if Total(a.value) > Total(b.value) then (b.value, a.value) else (a.value, b.value);
        if IsPartialTimePartSingleFilter(bounds.earliest) || IsPartialTimePartSingleFilter(bounds.latest) then
          IsTimePartRangeOverlappingPartialFilter(bounds, earlier, later)
        else
          IsTimePartOnOrBeforeSingleFilter(bounds.latest, Some(earlier))
          && IsTimePartOnOrAfterSingleFilter(bounds.earliest, Some(later))
  }

  /** A millisecond count between two others, both included. */
  predicate Between(lo: int, hi: int, ms: int) {
    lo <= ms <= hi
  }

  /**
   * With complete bounds in order the overlap test is the interval test: it
   * passes exactly when some moment lies both in the range, taken in either
   * order, and between the bounds.
   */
  lemma FullOverlapIsIntersection(e: SingleFilter, l: SingleFilter, a: TimePart, b: TimePart)
    requires IsFullFilter(e) && IsFullFilter(l) && Total(Filled(e)) <= Total(Filled(l))
    ensures IsTimePartRangeOverlappingFilter(Some(TimePartFilter(Some(e), Some(l), None)), Some(a), Some(b))
      <==> exists ms :: Between(JsMath.Min(Total(a), Total(b)), JsMath.Max(Total(a), Total(b)), ms)
                     && Between(Total(Filled(e)), Total(Filled(l)), ms)
  {
    var lo := JsMath.Min(Total(a), Total(b));
    var hi := JsMath.Max(Total(a), Total(b));
    var first := Total(Filled(e));
    var last := Total(Filled(l));
    var earlier := if Total(a) > Total(b) then b else a;
    var later := if Total(a) > Total(b) then a else b;
    assert Total(earlier) == lo && Total(later) == hi;
    assert !IsPartialTimePartSingleFilter(Some(e)) && !IsPartialTimePartSingleFilter(Some(l));
    assert IsTimePartRangeOverlappingFilter(Some(TimePartFilter(Some(e), Some(l), None)), Some(a), Some(b))
      <==> lo <= last && hi >= first;
    if lo <= last && hi >= first {
      var ms := JsMath.Max(lo, first);
      assert Between(lo, hi, ms) && Between(first, last, ms);
    }
  }

  /** `Number.MIN_SAFE_INTEGER` and `Number.MAX_SAFE_INTEGER`. */
  const MinSafeInteger: int := -9007199254740991
  const MaxSafeInteger: int := 9007199254740991

  /** The earliest bound with missing fields defaulted to the smallest safe integer. */
  function LowBound(f: Option<SingleFilter>): TimePart {
    if f.None? then TimePart(MinSafeInteger, MinSafeInteger, MinSafeInteger, MinSafeInteger)
    else TimePart(
      if f.value.hours.Numeric? then f.value.hours.value else MinSafeInteger,
      if f.value.minutes.Numeric? then f.value.minutes.value else MinSafeInteger,
      if f.value.seconds.Numeric? then f.value.seconds.value else MinSafeInteger,
      if f.value.milliseconds.Numeric? then f.value.milliseconds.value else MinSafeInteger)
  }

  /** The latest bound with missing fields defaulted to the largest safe integer. */
  function HighBound(f: Option<SingleFilter>): TimePart {
    if f.None? then TimePart(MaxSafeInteger, MaxSafeInteger, MaxSafeInteger, MaxSafeInteger)
    else TimePart(
      if f.value.hours.Numeric? then f.value.hours.value else MaxSafeInteger,
      if f.value.minutes.Numeric? then f.value.minutes.value else MaxSafeInteger,
      if f.value.seconds.Numeric? then f.value.seconds.value else MaxSafeInteger,
      if f.value.milliseconds.Numeric? then f.value.milliseconds.value else MaxSafeInteger)
  }

  /** What one field of the partial test decides: reject, accept, or go on to the next field. */
  datatype Step = Reject | Accept | Next(span: int)

  /**
   * One field of the partial test, given how many units of the field above
   * the range spans: within one unit the field's own range must meet the
   * filter's (which may wrap round, low above high); across one boundary
   * only a range missing the filter on both sides fails, and a wrapping
   * filter always passes; across two or more everything passes. The span of
   * this field goes on to the next, widened by `wrap` across a boundary.
   */
  function FieldStep(outerSpan: int, lo: int, hi: int, earlier: int, later: int, wrap: int): Step {
    var span := later - earlier;
    if outerSpan < 1 then
      if lo > hi then
        if earlier > hi && earlier < lo && later > hi && later < lo then Reject else Next(span)
      else if earlier > hi || later < lo then Reject
      else Next(span)
    else if outerSpan < 2 then
      if lo > hi then Accept
      else if earlier > hi && later < lo then Reject
      else Next(span + wrap)
    else Accept
  }

  /**
   * `_isTimePartRangeOverlappingPartialFilter`: the hours must overlap; then
   * minutes, seconds and milliseconds are tested in turn by `FieldStep`.
   */
  function IsTimePartRangeOverlappingPartialFilter(bounds: Bounds, earlier: TimePart, later: TimePart): bool {
    var lo := LowBound(bounds.earliest);
    var hi := HighBound(bounds.latest);
    if earlier.hours > hi.hours || later.hours < lo.hours then false
    else match FieldStep(later.hours - earlier.hours, lo.minutes, hi.minutes, earlier.minutes, later.minutes, 60)
      case Reject => false
      case Accept => true
      case Next(minutesSpan) =>
        match FieldStep(minutesSpan, lo.seconds, hi.seconds, earlier.seconds, later.seconds, 60)
        case Reject => false
        case Accept => true
        case Next(secondsSpan) =>
          FieldStep(secondsSpan, lo.milliseconds, hi.milliseconds, earlier.milliseconds, later.milliseconds, 1000) != Reject
  }

  /** A time matches defaulted bounds field by field. */
  predicate FieldwiseBetween(lo: TimePart, hi: TimePart, t: TimePart) {
    lo.hours <= t.hours <= hi.hours && lo.minutes <= t.minutes <= hi.minutes
    && lo.seconds <= t.seconds <= hi.seconds && lo.milliseconds <= t.milliseconds <= hi.milliseconds
  }

  /** Clock fields: non-negative, minutes and seconds below 60, milliseconds below 1000. */
  predicate ClockTime(t: TimePart) {
    NonNegative(t) && InRange(t)
  }

  /**
   * The partial test never rejects a range of clock times that contains a
   * clock time matching the bounds field by field.
   */
  lemma PartialOverlapSound(bounds: Bounds, earlier: TimePart, later: TimePart, t: TimePart)
    requires ClockTime(earlier) && ClockTime(later) && ClockTime(t)
    requires Total(earlier) <= Total(t) <= Total(later)
    requires FieldwiseBetween(LowBound(bounds.earliest), HighBound(bounds.latest), t)
    ensures IsTimePartRangeOverlappingPartialFilter(bounds, earlier, later)
  {
    ClockOrder(earlier, t);
    ClockOrder(t, later);
    var lo := LowBound(bounds.earliest);
    var hi := HighBound(bounds.latest);
    var hoursSpan := later.hours - earlier.hours;
    if hoursSpan < 2 {
      var minutes := FieldStep(hoursSpan, lo.minutes, hi.minutes, earlier.minutes, later.minutes, 60);
      assert minutes != Reject;
      if minutes.Next? {
        var minutesSpan := minutes.span;
        assert minutesSpan >= 0;
        if minutesSpan < 2 {
          var seconds := FieldStep(minutesSpan, lo.seconds, hi.seconds, earlier.seconds, later.seconds, 60);
          assert seconds != Reject;
        }
      }
    }
  }

  /** On clock times the millisecond order is the lexicographic order of the fields. */
  lemma ClockOrder(a: TimePart, b: TimePart)
    requires ClockTime(a) && ClockTime(b) && Total(a) <= Total(b)
    ensures a.hours <= b.hours
    ensures a.hours == b.hours ==> a.minutes <= b.minutes
    ensures a.hours == b.hours && a.minutes == b.minutes ==> a.seconds <= b.seconds
    ensures a.hours == b.hours && a.minutes == b.minutes && a.seconds == b.seconds ==> a.milliseconds <= b.milliseconds
  {
  }
}
