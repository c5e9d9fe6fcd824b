/**
 * Ratios kept as a list of numerator values over a list of denominator
 * values, so that multiplying and dividing only concatenates lists.
 */
module Ratios {

  /** An entry of a numerator or denominator list: a number, or `undefined` where the constructor stores one. */
  datatype Entry = Number(x: real) | Undefined

  /** A `Ratio` object; its lists are set by the constructor and never changed afterwards. */
  datatype Ratio = Ratio(numerators: seq<Entry>, denominators: seq<Entry>)

  /** One argument passed to the constructor. */
  datatype Arg =
    | Num(x: real)                               // a number
    | Undef                                      // undefined, or an argument left out
    | Entries(entries: seq<Entry>)               // an array of numbers
    | Ratios(ratios: seq<Ratio>)                 // an array of Ratio objects
    | ARatio(ratio: Ratio)                       // a Ratio object
    | Json(nums: seq<Entry>, dens: seq<Entry>)   // the object `toJSON` returns

  /** An argument that may stand for a numerator or denominator list: a number, an array of them, or undefined. */
  predicate IsListArg(a: Arg) {
    a.Num? || a.Undef? || a.Entries?
  }

  /** The argument at position i, undefined past the end. */
  function ArgAt(args: seq<Arg>, i: nat): Arg {
    if i < |args| then args[i] else Undef
  }

  /**
   * The call shapes the constructor documents: one argument of any kind; one
   * or more Ratio objects; or a numerator and an optional denominator, each a
   * number or an array of numbers.
   */
  predicate CallShape(args: seq<Arg>) {
    |args| == 1
    || (|args| > 1 && args[0].ARatio? && forall i :: 0 <= i < |args| ==> args[i].ARatio?)
    || (!(|args| > 0 && args[0].ARatio?) && IsListArg(ArgAt(args, 0)) && IsListArg(ArgAt(args, 1)))
  }

  /** The numerators of a list of ratios, concatenated in order. */
  function AllNumerators(rs: seq<Ratio>): seq<Entry> {
    if rs == [] then [] else AllNumerators(rs[..|rs| - 1]) + rs[|rs| - 1].numerators
  }

  /** The denominators of a list of ratios, concatenated in order. */
  function AllDenominators(rs: seq<Ratio>): seq<Entry> {
    if rs == [] then [] else AllDenominators(rs[..|rs| - 1]) + rs[|rs| - 1].denominators
  }

  /** The Ratio objects among the arguments. */
  function RatiosOf(args: seq<Arg>): (rs: seq<Ratio>)
    requires forall i :: 0 <= i < |args| ==> args[i].ARatio?
    ensures |rs| == |args| && forall i :: 0 <= i < |args| ==> rs[i] == args[i].ratio
  {
    if args == [] then [] else RatiosOf(args[..|args| - 1]) + [args[|args| - 1].ratio]
  }

  /** A list of `n` ones, the denominators supplied when none are given. */
  function Ones(n: nat): (r: seq<Entry>)
    ensures |r| == n && forall i :: 0 <= i < n ==> r[i] == Number(1.0)
  {
    if n == 0 then [] else Ones(n - 1) + [Number(1.0)]
  }

  /** A list argument as a list: an array is kept, anything else is wrapped in a one-element array. */
  function ListOf(a: Arg): seq<Entry>
    requires IsListArg(a)
  {
    match a
    case Entries(es) => es
    case Num(x) => [Number(x)]
    case Undef => [Undefined]
  }

  /** The numerators and denominators from a numerator argument and a denominator argument that may be undefined. */
  function FromLists(nums: Arg, dens: Arg): (r: Ratio)
    requires IsListArg(nums) && IsListArg(dens)
    ensures r.numerators == ListOf(nums)
    ensures dens.Undef? ==> r.denominators == Ones(|ListOf(nums)|)
    ensures !dens.Undef? ==> r.denominators == ListOf(dens)
  {
    Ratio(ListOf(nums), if dens.Undef? then Ones(|ListOf(nums)|) else ListOf(dens))
  }

  /** A single argument the constructor does not recognise leaves both lists undefined. */
  const Unrecognised := Ratio([Undefined], [Number(1.0)])

  /** The ratio the constructor builds; a single Ratio argument is read as a one-element list of Ratios. */
  function New(args: seq<Arg>): Ratio
    requires CallShape(args)
  {
    if |args| == 1 then
      match args[0]
      case Ratios(rs) =>
        if rs == [] then Unrecognised else Ratio(AllNumerators(rs), AllDenominators(rs))
      case ARatio(r) => Ratio(AllNumerators([r]), AllDenominators([r]))
      case Entries(es) =>
        if es != [] && es[0].Number? then FromLists(args[0], Undef) else Unrecognised
      case Num(x) => Ratio([Number(x)], [Number(1.0)])
      case Json(nums, dens) => Ratio(nums, dens)
      case Undef => Unrecognised
    else if |args| > 0 && args[0].ARatio? then
      var rs := RatiosOf(args);
      Ratio(AllNumerators(rs), AllDenominators(rs))
    else
      FromLists(ArgAt(args, 0), ArgAt(args, 1))
  }

  /** The constructor as written: a single Ratio argument is not recognised. */
  function NewAsWritten(args: seq<Arg>): Ratio
    requires CallShape(args)
  {
    if |args| == 1 && args[0].ARatio? then Unrecognised else New(args)
  }

  /** The `forEach` that gathers the lists of an array of Ratios. */
  method Concatenate(rs: seq<Ratio>) returns (nums: seq<Entry>, dens: seq<Entry>)
    ensures nums == AllNumerators(rs) && dens == AllDenominators(rs)
  {
    nums := [];
    dens := [];
    for i := 0 to |rs|
      invariant nums == AllNumerators(rs[..i]) && dens == AllDenominators(rs[..i])
    {
      assert rs[..i + 1][..i] == rs[..i];
      nums := nums + rs[i].numerators;
      dens := dens + rs[i].denominators;
    }
    assert rs[..|rs|] == rs;
  }

  /** The `Ratio` constructor. */
  method Construct(args: seq<Arg>) returns (r: Ratio)
    requires CallShape(args)
    ensures r == New(args)
  {
    if |args| == 1 {
      match args[0]
      case Ratios(rs) =>
        if rs == [] {
          r := Unrecognised;
        } else {
          var nums, dens := Concatenate(rs);
          r := Ratio(nums, dens);
        }
      case ARatio(single) =>
        var nums, dens := Concatenate([single]);
        r := Ratio(nums, dens);
      case Entries(es) =>
        if es != [] && es[0].Number? {
          r := Ratio(es, Ones(|es|));
        } else {
          r := Unrecognised;
        }
      case Num(x) =>
        r := Ratio([Number(x)], [Number(1.0)]);
      case Json(nums, dens) =>
        r := Ratio(nums, dens);
      case Undef =>
        r := Unrecognised;
    } else if |args| > 0 && args[0].ARatio? {
      var nums, dens := Concatenate(RatiosOf(args));
      r := Ratio(nums, dens);
    } else {
      var nums := ListOf(ArgAt(args, 0));
      var dens := if ArgAt(args, 1).Undef? then Ones(|nums|) else ListOf(ArgAt(args, 1));
      r := Ratio(nums, dens);
    }
  }

  /** The plain object `toJSON` returns. */
  datatype RatioJson = RatioJson(nums: seq<Entry>, dens: seq<Entry>)

  function ToJson(r: Ratio): (j: RatioJson)
    ensures New([Json(j.nums, j.dens)]) == r
  {
    RatioJson(r.numerators, r.denominators)
  }

  /** `inverse`: a new Ratio over the denominators and numerators. */
  function Inverse(r: Ratio): Ratio {
    New([Entries(r.denominators), Entries(r.numerators)])
  }

  /** `multiply`. */
  function Multiply(a: Ratio, b: Ratio): Ratio {
    New([Entries(a.numerators + b.numerators), Entries(a.denominators + b.denominators)])
  }

  /** `divide`. */
  function Divide(a: Ratio, b: Ratio): Ratio {
    New([Entries(a.numerators + b.denominators), Entries(a.denominators + b.numerators)])
  }

  /** The product of a list of ratios, left to right, starting from the empty ratio. */
  function Product(rs: seq<Ratio>): Ratio {
    if rs == [] then Ratio([], []) else Multiply(Product(rs[..|rs| - 1]), rs[|rs| - 1])
  }

  lemma InverseSwaps(r: Ratio)
    ensures Inverse(r).numerators == r.denominators
    ensures Inverse(r).denominators == r.numerators
    ensures Inverse(Inverse(r)) == r
  {
  }

  lemma MultiplyConcatenates(a: Ratio, b: Ratio)
    ensures Multiply(a, b) == Ratio(a.numerators + b.numerators, a.denominators + b.denominators)
  {
  }

  /** Dividing is multiplying by the inverse. */
  lemma DivideIsMultiplyByInverse(a: Ratio, b: Ratio)
    ensures Divide(a, b) == Multiply(a, Inverse(b))
  {
  }

  lemma MultiplyAssociative(a: Ratio, b: Ratio, c: Ratio)
    ensures Multiply(Multiply(a, b), c) == Multiply(a, Multiply(b, c))
  {
    assert (a.numerators + b.numerators) + c.numerators == a.numerators + (b.numerators + c.numerators);
    assert (a.denominators + b.denominators) + c.denominators == a.denominators + (b.denominators + c.denominators);
  }

  /** A Ratio built from several Ratios is their product. */
  lemma {:induction false} ConcatenationIsProduct(rs: seq<Ratio>)
    ensures Product(rs) == Ratio(AllNumerators(rs), AllDenominators(rs))
  {
    if rs != [] {
      ConcatenationIsProduct(rs[..|rs| - 1]);
    }
  }

  /** Built from an array of Ratios, or from Ratio arguments, the result is their product. */
  lemma NewFromRatiosIsProduct(args: seq<Arg>)
    requires CallShape(args) && |args| > 0
    requires (|args| == 1 && args[0].Ratios? && args[0].ratios != []) || args[0].ARatio?
    ensures args[0].Ratios? ==> New(args) == Product(args[0].ratios)
    ensures args[0].ARatio? ==> New(args) == Product(RatiosOf(args))
  {
    if args[0].Ratios? {
      ConcatenationIsProduct(args[0].ratios);
    } else if |args| == 1 {
      assert RatiosOf(args) == [args[0].ratio];
      ConcatenationIsProduct([args[0].ratio]);
    } else {
      ConcatenationIsProduct(RatiosOf(args));
    }
  }

  /** A single Ratio argument gives back that ratio's lists. */
  lemma NewFromOneRatio(r: Ratio)
    ensures New([ARatio(r)]) == r
  {
    assert [r][..0] == [];
    assert AllNumerators([r]) == [] + r.numerators;
    assert AllDenominators([r]) == [] + r.denominators;
  }

  /** As written, a single Ratio argument yields an undefined numerator over 1 instead. */
  lemma OneRatioAsWrittenIsLost(r: Ratio)
    ensures NewAsWritten([ARatio(r)]) == Ratio([Undefined], [Number(1.0)])
    ensures r != Unrecognised ==> NewAsWritten([ARatio(r)]) != r
  {
  }

  /** A single number n is n over 1. */
  lemma NewFromNumber(n: real)
    ensures New([Num(n)]) == Ratio([Number(n)], [Number(1.0)])
  {
  }

  /** An array of numbers alone is given denominators of 1, one per numerator. */
  lemma NewFromNumbersAlone(es: seq<Entry>)
    requires es != [] && es[0].Number?
    ensures New([Entries(es)]).numerators == es
    ensures |New([Entries(es)]).denominators| == |es|
    ensures forall i :: 0 <= i < |es| ==> New([Entries(es)]).denominators[i] == Number(1.0)
  {
  }

  /** A numerator without a denominator argument is the same as over 1s. */
  lemma MissingDenominatorIsOnes(nums: Arg)
    requires IsListArg(nums)
    ensures New([nums, Undef]) == Ratio(ListOf(nums), Ones(|ListOf(nums)|))
  {
  }

  /** `getReducedNumeratorDenominator` for a ratio with a single numerator: its first numerator and first denominator. */
  function ReducedSingle(r: Ratio): (pair: (Entry, Entry))
    requires |r.numerators| == 1
  {
    (r.numerators[0], if r.denominators != [] then r.denominators[0] else Undefined)
  }

  /** An entry passed back to the constructor as a number argument. */
  function ArgOf(e: Entry): (a: Arg)
    ensures IsListArg(a) && ListOf(a) == [e]
  {
    match e
    case Number(x) => Num(x)
    case Undefined => Undef
  }

  /** `reduce` for a ratio with a single numerator. */
  function ReduceSingle(r: Ratio): Ratio
    requires |r.numerators| == 1
  {
    var (numerator, denominator) := ReducedSingle(r);
    New([ArgOf(numerator), ArgOf(denominator)])
  }

  /** Reducing n over d, built from two numbers, gives back n and d. */
  lemma ReducedOfTwoNumbers(n: real, d: real)
    ensures |New([Num(n), Num(d)]).numerators| == 1
    ensures ReducedSingle(New([Num(n), Num(d)])) == (Number(n), Number(d))
  {
  }

  /** A reduced single-numerator ratio has one numerator and one denominator, and reducing it again changes nothing. */
  lemma ReduceSingleIdempotent(r: Ratio)
    requires |r.numerators| == 1
    ensures ReduceSingle(r).numerators == r.numerators
    ensures |ReduceSingle(r).denominators| == 1
    ensures r.denominators != [] && r.denominators[0].Number? ==> ReduceSingle(r).denominators == [r.denominators[0]]
    ensures (r.denominators == [] || r.denominators[0].Undefined?) ==> ReduceSingle(r).denominators == [Number(1.0)]
    ensures ReduceSingle(ReduceSingle(r)) == ReduceSingle(r)
  {
  }
}
