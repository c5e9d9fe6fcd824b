/**
 * Number filters: an optional minimum, an optional maximum and an optional
 * exact value that a JavaScript number is tested against.
 */
module NumberFilter {
  import opened Wrappers

  /** A JavaScript number. Negative zero compares equal to zero, so it is `Finite(0.0)`. */
  datatype Number = Finite(x: real) | PositiveInfinity | NegativeInfinity | NaN

  /** A filter property or a tested argument: a number, or anything whose `typeof` is not 'number' (`undefined` included). */
  datatype Value = Num(n: Number) | NotNumber

  datatype Filter = Filter(minimumValue: Value, maximumValue: Value, value: Value)

  /** `a < b`: false as soon as either side is NaN. */
  predicate Less(a: Number, b: Number) {
    a != NaN && b != NaN
    && ((a == NegativeInfinity && b != NegativeInfinity)
        || (b == PositiveInfinity && a != PositiveInfinity)
        || (a.Finite? && b.Finite? && a.x < b.x))
  }

  /** `a <= b`. */
  predicate AtMost(a: Number, b: Number) {
    a != NaN && b != NaN && (a == b || Less(a, b))
  }

  /** `a === b`: NaN equals nothing, itself included. */
  predicate StrictEquals(a: Number, b: Number) {
    a != NaN && a == b
  }

  /** A tested argument that can pass any filter: a number other than NaN. */
  predicate Comparable(v: Value) {
    v.Num? && v.n != NaN
  }

  /** `isNumberFilter`: does the filter have a numeric property to test against? */
  function IsNumberFilter(filter: Option<Filter>): (r: bool)
    ensures r ==> filter.Some?
  {
    filter.Some?
    && (filter.value.minimumValue.Num? || filter.value.maximumValue.Num? || filter.value.value.Num?)
  }

  /** `doesNumberSatisfyFilter`. */
  function DoesNumberSatisfyFilter(filter: Option<Filter>, number: Value): (r: bool)
    ensures !Comparable(number) ==> !r
    ensures Comparable(number) && filter.None? ==> r
  {
    if !Comparable(number) then false
    else if filter.None? then true
    else
      var f := filter.value;
      if f.minimumValue.Num? then
        if Less(number.n, f.minimumValue.n) then false
        else !f.maximumValue.Num? || AtMost(number.n, f.maximumValue.n)
      else if f.maximumValue.Num? then AtMost(number.n, f.maximumValue.n)
      else if f.value.Num? then StrictEquals(number.n, f.value.n)
      else true
  }

  /**
   * The filter read as a conjunction of independent tests: not below the
   * minimum, not above the maximum, and equal to the value only when there is
   * neither bound.
   */
  lemma SatisfiesExactlyTheBounds(f: Filter, number: Value)
    requires Comparable(number)
    ensures DoesNumberSatisfyFilter(Some(f), number) <==>
      (f.minimumValue.Num? ==> !Less(number.n, f.minimumValue.n))
      && (f.maximumValue.Num? ==> AtMost(number.n, f.maximumValue.n))
      && (!f.minimumValue.Num? && !f.maximumValue.Num? && f.value.Num? ==> StrictEquals(number.n, f.value.n))
  {
  }

  /** A filter with nothing numeric to apply passes every number but NaN. */
  lemma NonFilterPassesEveryNumber(filter: Option<Filter>, number: Value)
    requires !IsNumberFilter(filter) && Comparable(number)
    ensures DoesNumberSatisfyFilter(filter, number)
  {
  }

  /** A number filter whose numeric properties are all finite rejects some number. */
  lemma NumberFilterRejectsSomething(f: Filter)
    requires IsNumberFilter(Some(f))
    requires f.minimumValue.Num? ==> f.minimumValue.n.Finite?
    requires f.maximumValue.Num? ==> f.maximumValue.n.Finite?
    requires f.value.Num? ==> f.value.n.Finite?
    ensures exists x: real :: !DoesNumberSatisfyFilter(Some(f), Num(Finite(x)))
  {
    if f.minimumValue.Num? {
      assert !DoesNumberSatisfyFilter(Some(f), Num(Finite(f.minimumValue.n.x - 1.0)));
    } else if f.maximumValue.Num? {
      assert !DoesNumberSatisfyFilter(Some(f), Num(Finite(f.maximumValue.n.x + 1.0)));
    } else {
      assert !DoesNumberSatisfyFilter(Some(f), Num(Finite(f.value.n.x + 1.0)));
    }
  }

  /** With two finite bounds the filter is the closed interval between them, whatever `value` holds. */
  lemma FiniteBoundsAreClosedInterval(low: real, high: real, value: Value, x: real)
    ensures DoesNumberSatisfyFilter(Some(Filter(Num(Finite(low)), Num(Finite(high)), value)), Num(Finite(x)))
      <==> low <= x <= high
  {
  }

  /** A NaN bound never rejects: `number < NaN` and `number <= NaN` are both false. */
  lemma NaNMinimumRejectsNothing(maximumValue: Value, value: Value, number: Value)
    requires Comparable(number) && !maximumValue.Num?
    ensures DoesNumberSatisfyFilter(Some(Filter(Num(NaN), maximumValue, value)), number)
  {
  }

  /** A NaN maximum rejects every number. */
  lemma NaNMaximumRejectsEverything(minimumValue: Value, value: Value, number: Value)
    ensures !DoesNumberSatisfyFilter(Some(Filter(minimumValue, Num(NaN), value)), number)
  {
  }
}
