/**
 * The scoring side of the search, `FitnessFunction`: the identity of an
 * objective (the key of a chromosome's per-objective maps), its optimisation
 * direction, the normalisation x / (1 + x), the default archive hooks and the
 * "computing implies recording" primitive `updateIndividual`.
 */
module FitnessFunctions {
  import opened Wrappers
  import opened Numbers

  /**
   * A fitness function, compared by value. `TestGoal` is a coverage goal of a
   * test-case fitness function (a `TestFitnessFunction`); `Objective` stands
   * for any other fitness function, whose direction its implementation fixes.
   */
  datatype FitnessFunction = TestGoal(id: nat) | Objective(id: nat, maximizing: bool)

  /** A `TestFitnessFunction`: a single coverage goal. */
  type Goal = ff: FitnessFunction | ff.TestGoal? witness TestGoal(0)

  /** The `IllegalArgumentException`s raised by this core. */
  datatype IllegalArgument =
    | InvalidFitnessValue(value: Double)
    | NegativeNormalizationInput(value: Double)

  /**
   * `isMaximizationFunction()`: abstract for objectives in general, and
   * always false for a test-case goal.
   */
  function IsMaximizationFunction(ff: FitnessFunction): (r: bool)
    ensures ff.TestGoal? ==> !r
  {
    match ff
    case TestGoal(_) => false
    case Objective(_, maximizing) => maximizing
  }

  /**
   * The normalisation x / (1 + x) of a non-negative distance. Negative
   * input (including -infinity) is refused, +infinity maps to 1.0, and NaN,
   * which is neither negative nor infinite, runs into the division and
   * comes back as NaN.
   */
  function Normalize(x: Double): (r: Result<Double, IllegalArgument>)
    ensures r.Failure? <==> x.NegativeInfinity? || (x.Finite? && x.value < 0.0)
    ensures r.Failure? ==> r.error == NegativeNormalizationInput(x)
    ensures x.PositiveInfinity? ==> r == Success(Finite(1.0))
    ensures x.NaN? ==> r == Success(NaN)
    ensures x.Finite? && x.value >= 0.0 ==>
              r.Success? && r.value.Finite? && 0.0 <= r.value.value < 1.0
    ensures x.Finite? && x.value >= 0.0 ==> (r.value.value == 0.0 <==> x.value == 0.0)
  {
    match x
    case NegativeInfinity => Failure(NegativeNormalizationInput(x))
    case PositiveInfinity => Success(Finite(1.0))
    case NaN => Success(NaN)
    case Finite(v) =>
      if v < 0.0 then Failure(NegativeNormalizationInput(x))
      else Success(Finite(v / (1.0 + v)))
  }

  /** The inverse of the normalisation on [0, 1): y / (1 - y). */
  function Denormalize(y: real): (x: real)
    requires 0.0 <= y < 1.0
  {
    y / (1.0 - y)
  }

  /** Normalisation loses no information on finite distances: it is undone by `Denormalize`. */
  lemma NormalizeRoundTrip(x: real)
    requires x >= 0.0
    ensures Normalize(Finite(x)).Success? && Normalize(Finite(x)).value.Finite?
    ensures Denormalize(Normalize(Finite(x)).value.value) == x
  {
    var y := x / (1.0 + x);
    assert y * (1.0 + x) == x;
    assert 1.0 - y == 1.0 / (1.0 + x) by {
      assert (1.0 - y) * (1.0 + x) == 1.0;
    }
    assert y / (1.0 - y) == x by {
      assert y == x * (1.0 - y);
    }
  }

  /** Normalisation preserves the order of distances, strictly. */
  lemma NormalizeStrictlyMonotonic(a: real, b: real)
    requires 0.0 <= a < b
    ensures Normalize(Finite(a)).value.value < Normalize(Finite(b)).value.value
  {
    var na := a / (1.0 + a);
    var nb := b / (1.0 + b);
    assert na * (1.0 + a) == a;
    assert nb * (1.0 + b) == b;
    assert na == 1.0 - 1.0 / (1.0 + a);
    assert nb == 1.0 - 1.0 / (1.0 + b);
    assert 1.0 / (1.0 + b) < 1.0 / (1.0 + a);
  }

  /** `updateCoveredGoals()`: a fitness function without an archive reports that it did not update one. */
  function UpdateCoveredGoals(ff: FitnessFunction): (updated: bool)
    ensures !updated
  {
    false
  }
}
