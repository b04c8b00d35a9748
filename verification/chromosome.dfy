/**
 * `Chromosome`: the per-objective fitness bookkeeping of a candidate
 * solution. Every registered fitness function has a current and a previous
 * fitness, a coverage ratio and covered / not-covered goal counts, each kept
 * in its own insertion-ordered map; the chromosome also carries the
 * `changed` and `localSearchApplied` flags and an evaluation counter.
 */
module Chromosomes {
  import opened Wrappers
  import opened Numbers
  import opened LinkedMaps
  import opened FitnessFunctions

  datatype Chromosome = Chromosome(
    fitnessValues: LinkedMap<FitnessFunction, real>,
    previousFitnessValues: LinkedMap<FitnessFunction, real>,
    coverageValues: LinkedMap<FitnessFunction, real>,
    numsCoveredGoals: LinkedMap<FitnessFunction, Int32>,
    numsNotCoveredGoals: LinkedMap<FitnessFunction, Int32>,
    changed: bool,
    localSearchApplied: bool,
    numberOfEvaluations: Int32)

  /**
   * The key-consistency invariant: current and previous fitness are kept for
   * the same objectives in the same order, the coverage and goal-count maps
   * share their keys, and every objective with coverage has a fitness.
   */
  ghost predicate Valid(c: Chromosome) {
    && WellFormed(c.fitnessValues)
    && WellFormed(c.previousFitnessValues)
    && WellFormed(c.coverageValues)
    && WellFormed(c.numsCoveredGoals)
    && WellFormed(c.numsNotCoveredGoals)
    && c.previousFitnessValues.keys == c.fitnessValues.keys
    && c.numsCoveredGoals.keys == c.coverageValues.keys
    && c.numsNotCoveredGoals.keys == c.coverageValues.keys
    && (forall ff :: ff in c.coverageValues.entries ==> ff in c.fitnessValues.entries)
  }

  /** Only the fitness maps may differ between `c` and `d`. */
  predicate SameExceptFitness(c: Chromosome, d: Chromosome) {
    && d.coverageValues == c.coverageValues
    && d.numsCoveredGoals == c.numsCoveredGoals
    && d.numsNotCoveredGoals == c.numsNotCoveredGoals
    && d.changed == c.changed
    && d.localSearchApplied == c.localSearchApplied
    && d.numberOfEvaluations == c.numberOfEvaluations
  }

  /** Only the flags may differ between `c` and `d`. */
  predicate SameFitnessState(c: Chromosome, d: Chromosome) {
    && d.fitnessValues == c.fitnessValues
    && d.previousFitnessValues == c.previousFitnessValues
    && d.coverageValues == c.coverageValues
    && d.numsCoveredGoals == c.numsCoveredGoals
    && d.numsNotCoveredGoals == c.numsNotCoveredGoals
    && d.numberOfEvaluations == c.numberOfEvaluations
  }

  /** A freshly constructed chromosome: no objectives, changed, never evaluated. */
  function NewChromosome(): (c: Chromosome)
    ensures Valid(c)
    ensures c.fitnessValues.keys == [] && c.coverageValues.keys == []
    ensures c.changed && !c.localSearchApplied && c.numberOfEvaluations == 0
  {
    Chromosome(Empty(), Empty(), Empty(), Empty(), Empty(), true, false, 0)
  }

  /** The cached fitness for `ff`, if one has been recorded. */
  function CachedFitness(c: Chromosome, ff: FitnessFunction): (r: Option<real>)
    ensures r.Some? <==> ff in c.fitnessValues.entries
    ensures r.Some? ==> r.value == c.fitnessValues.entries[ff]
  {
    if ff in c.fitnessValues.entries then Some(c.fitnessValues.entries[ff]) else None
  }

  /**
   * `hasExecutedFitness(ff)`: a previous fitness has been recorded for `ff`;
   * under the invariant, exactly the objectives that have a current fitness.
   */
  predicate HasExecutedFitness(c: Chromosome, ff: FitnessFunction)
    ensures Valid(c) ==> (HasExecutedFitness(c, ff) <==> ff in c.fitnessValues.entries)
  {
    ff in c.previousFitnessValues.entries
  }

  /** The fitness for `ff` differs from the one recorded before its last update. */
  predicate FitnessChangedFor(c: Chromosome, ff: FitnessFunction) {
    && ff in c.fitnessValues.entries
    && ff in c.previousFitnessValues.entries
    && c.fitnessValues.entries[ff] != c.previousFitnessValues.entries[ff]
  }

  /** The initial fitness `addFitness(ff)` registers: 0 when maximising, `Double.MAX_VALUE` otherwise. */
  function DefaultFitness(ff: FitnessFunction): (value: real) {
    if IsMaximizationFunction(ff) then 0.0 else MaxDouble
  }

  /**
   * `r` is `c` with `ff` registered: the value is both current and previous
   * fitness, coverage and covered count are as given, the not-covered count is
   * the "unknown" sentinel -1; a new objective goes to the end of every
   * iteration order, and no other objective, flag or counter changes. The
   * overloads promise this; `AddFitnessWithGoals` states it clause by clause.
   */
  ghost predicate RegisteredAs(c: Chromosome, r: Chromosome, ff: FitnessFunction, fitnessValue: real,
                               coverage: real, numCoveredGoals: Int32) {
    && Valid(r)
    && CachedFitness(r, ff) == Some(fitnessValue)
    && r.previousFitnessValues.entries[ff] == fitnessValue
    && GetCoverageOf(r, ff) == coverage
    && NumOfCoveredGoalsOf(r, ff) == numCoveredGoals
    && NumOfNotCoveredGoalsOf(r, ff) == -1
    && r.fitnessValues.entries == c.fitnessValues.entries[ff := fitnessValue]
    && r.previousFitnessValues.entries == c.previousFitnessValues.entries[ff := fitnessValue]
    && r.coverageValues.entries == c.coverageValues.entries[ff := coverage]
    && r.numsCoveredGoals.entries == c.numsCoveredGoals.entries[ff := numCoveredGoals]
    && r.numsNotCoveredGoals.entries == c.numsNotCoveredGoals.entries[ff := -1]
    && r.fitnessValues.keys == KeysAfterPut(c.fitnessValues, ff)
    && r.coverageValues.keys == KeysAfterPut(c.coverageValues, ff)
    && r.changed == c.changed && r.localSearchApplied == c.localSearchApplied
    && r.numberOfEvaluations == c.numberOfEvaluations
  }

  /** `addFitness(ff, fitnessValue, coverage, numCoveredGoals)` */
  function AddFitnessWithGoals(c: Chromosome, ff: FitnessFunction, fitnessValue: real,
                               coverage: real, numCoveredGoals: Int32): (r: Chromosome)
    requires Valid(c)
    ensures Valid(r)
    ensures CachedFitness(r, ff) == Some(fitnessValue)
    ensures r.previousFitnessValues.entries[ff] == fitnessValue
    ensures !FitnessChangedFor(r, ff) && HasExecutedFitness(r, ff)
    ensures GetCoverageOf(r, ff) == coverage
    ensures NumOfCoveredGoalsOf(r, ff) == numCoveredGoals
    ensures NumOfNotCoveredGoalsOf(r, ff) == -1
    ensures r.fitnessValues.entries == c.fitnessValues.entries[ff := fitnessValue]
    ensures r.previousFitnessValues.entries == c.previousFitnessValues.entries[ff := fitnessValue]
    ensures r.coverageValues.entries == c.coverageValues.entries[ff := coverage]
    ensures r.numsCoveredGoals.entries == c.numsCoveredGoals.entries[ff := numCoveredGoals]
    ensures r.numsNotCoveredGoals.entries == c.numsNotCoveredGoals.entries[ff := -1]
    ensures r.fitnessValues.keys == KeysAfterPut(c.fitnessValues, ff)
    ensures r.coverageValues.keys == KeysAfterPut(c.coverageValues, ff)
    ensures r.changed == c.changed && r.localSearchApplied == c.localSearchApplied
    ensures r.numberOfEvaluations == c.numberOfEvaluations
  {
    var fitness := Put(c.fitnessValues, ff, fitnessValue);
    var previous := Put(c.previousFitnessValues, ff, fitnessValue);
    assert previous.keys == fitness.keys;
    var coverages := Put(c.coverageValues, ff, coverage);
    var covered := Put(c.numsCoveredGoals, ff, numCoveredGoals);
    var notCovered := Put(c.numsNotCoveredGoals, ff, -1);
    assert covered.keys == coverages.keys && notCovered.keys == coverages.keys;
    c.(fitnessValues := fitness, previousFitnessValues := previous, coverageValues := coverages,
       numsCoveredGoals := covered, numsNotCoveredGoals := notCovered)
  }

  /** `addFitness(ff, fitnessValue, coverage)` */
  function AddFitnessWithCoverage(c: Chromosome, ff: FitnessFunction, fitnessValue: real,
                                  coverage: real): (r: Chromosome)
    requires Valid(c)
    ensures RegisteredAs(c, r, ff, fitnessValue, coverage, 0)
  {
    AddFitnessWithGoals(c, ff, fitnessValue, coverage, 0)
  }

  /** `addFitness(ff, fitnessValue)` */
  function AddFitnessWithValue(c: Chromosome, ff: FitnessFunction, fitnessValue: real): (r: Chromosome)
    requires Valid(c)
    ensures RegisteredAs(c, r, ff, fitnessValue, 0.0, 0)
  {
    AddFitnessWithCoverage(c, ff, fitnessValue, 0.0)
  }

  /** `addFitness(ff)`: registers `ff` with the default values of its optimisation direction. */
  function AddFitness(c: Chromosome, ff: FitnessFunction): (r: Chromosome)
    requires Valid(c)
    ensures Valid(r)
    ensures IsMaximizationFunction(ff) ==> CachedFitness(r, ff) == Some(0.0)
    ensures !IsMaximizationFunction(ff) ==> CachedFitness(r, ff) == Some(MaxDouble)
    ensures r.previousFitnessValues.entries[ff] == r.fitnessValues.entries[ff]
    ensures GetCoverageOf(r, ff) == 0.0
    ensures NumOfCoveredGoalsOf(r, ff) == 0
    ensures NumOfNotCoveredGoalsOf(r, ff) == -1
    ensures HasFitnessChanged(r) ==> HasFitnessChanged(c)
    ensures RegisteredAs(c, r, ff, DefaultFitness(ff), 0.0, 0)
  {
    var r := AddFitnessWithValue(c, ff, DefaultFitness(ff));
    AddFitnessKeepsUnchanged(c, ff, DefaultFitness(ff), 0.0, 0);
    r
  }

  /** Registering an objective never makes the chromosome's fitness look changed. */
  lemma AddFitnessKeepsUnchanged(c: Chromosome, ff: FitnessFunction, fitnessValue: real,
                                 coverage: real, numCoveredGoals: Int32)
    requires Valid(c)
    ensures HasFitnessChanged(AddFitnessWithGoals(c, ff, fitnessValue, coverage, numCoveredGoals))
            ==> HasFitnessChanged(c)
  {
    var r := AddFitnessWithGoals(c, ff, fitnessValue, coverage, numCoveredGoals);
    if HasFitnessChanged(r) {
      var g :| g in r.fitnessValues.entries && FitnessChangedFor(r, g);
      assert g != ff;
      assert g in c.fitnessValues.entries;
      assert FitnessChangedFor(c, g);
    }
  }

  /**
   * `setFitness(ff, value)`: NaN and infinite values are refused; otherwise
   * the old current value (or `value` itself when there is none) becomes the
   * previous value and `value` the current one.
   */
  function SetFitness(c: Chromosome, ff: FitnessFunction, value: Double): (r: Result<Chromosome, IllegalArgument>)
    requires Valid(c)
    ensures r.Failure? <==> value.NaN? || value.IsInfinite()
    ensures r.Failure? ==> r.error == InvalidFitnessValue(value)
    ensures r.Success? ==> Valid(r.value) && SameExceptFitness(c, r.value)
    ensures r.Success? ==> CachedFitness(r.value, ff) == Some(value.value)
    ensures r.Success? ==> HasExecutedFitness(r.value, ff)
    ensures r.Success? ==> r.value.fitnessValues.entries == c.fitnessValues.entries[ff := value.value]
    ensures r.Success? ==> r.value.fitnessValues.keys == KeysAfterPut(c.fitnessValues, ff)
    ensures r.Success? && ff in c.fitnessValues.entries ==>
              r.value.previousFitnessValues.entries
              == c.previousFitnessValues.entries[ff := c.fitnessValues.entries[ff]]
    ensures r.Success? && ff !in c.fitnessValues.entries ==>
              r.value.previousFitnessValues.entries == c.previousFitnessValues.entries[ff := value.value]
  {
    if value.NaN? || value.IsInfinite() then
      Failure(InvalidFitnessValue(value))
    else
      var v := value.value;
      Success(c.(previousFitnessValues := Put(c.previousFitnessValues, ff, GetOrDefault(c.fitnessValues, ff, v)),
                 fitnessValues := Put(c.fitnessValues, ff, v)))
  }

  /** Two successive updates leave the first value as "previous" and the second as current. */
  lemma SetFitnessTwice(c: Chromosome, ff: FitnessFunction, v1: real, v2: real)
    requires Valid(c)
    ensures SetFitness(c, ff, Finite(v1)).Success?
    ensures SetFitness(SetFitness(c, ff, Finite(v1)).value, ff, Finite(v2)).Success?
    ensures var d := SetFitness(SetFitness(c, ff, Finite(v1)).value, ff, Finite(v2)).value;
            && CachedFitness(d, ff) == Some(v2)
            && d.previousFitnessValues.entries[ff] == v1
            && (FitnessChangedFor(d, ff) <==> v1 != v2)
  {
  }

  /** After an update, the fitness for `ff` counts as changed exactly when the new value differs from the old one. */
  lemma SetFitnessChangedFor(c: Chromosome, ff: FitnessFunction, v: real)
    requires Valid(c)
    ensures SetFitness(c, ff, Finite(v)).Success?
    ensures FitnessChangedFor(SetFitness(c, ff, Finite(v)).value, ff)
            <==> ff in c.fitnessValues.entries && c.fitnessValues.entries[ff] != v
  {
  }

  /**
   * `hasFitnessChanged()`: some objective's current fitness differs from its
   * previous one (the scan in the order of the current-fitness map).
   */
  function HasFitnessChanged(c: Chromosome): (b: bool)
    requires Valid(c)
    ensures b <==> exists ff :: ff in c.fitnessValues.entries && FitnessChangedFor(c, ff)
  {
    AnyChanged(c.fitnessValues.keys, c.fitnessValues.entries, c.previousFitnessValues.entries)
  }

  /** `anyMatch(current != previous)` over an iteration order. */
  function AnyChanged(keys: seq<FitnessFunction>, current: map<FitnessFunction, real>,
                      previous: map<FitnessFunction, real>): (b: bool)
    requires forall k :: k in keys ==> k in current && k in previous
    ensures b <==> exists i :: 0 <= i < |keys| && current[keys[i]] != previous[keys[i]]
  {
    if |keys| == 0 then false
    else if current[keys[0]] != previous[keys[0]] then true
    else
      var b := AnyChanged(keys[1..], current, previous);
      assert forall i :: 1 <= i < |keys| ==> keys[i] == keys[1..][i - 1];
      b
  }

  /**
   * `getFitness()`: the sum of the current fitness of every objective; 0.0
   * with none, and never negative when no objective's fitness is.
   */
  function GetFitness(c: Chromosome): (r: real)
    requires Valid(c)
    ensures c.fitnessValues.keys == [] ==> r == 0.0
    ensures (forall ff :: ff in c.fitnessValues.entries ==> c.fitnessValues.entries[ff] >= 0.0) ==> r >= 0.0
  {
    SumNonNegative(c.fitnessValues.keys, c.fitnessValues.entries);
    Total(c.fitnessValues)
  }

  /** `setFitness` moves the total fitness by the difference between the new and the replaced value. */
  lemma TotalFitnessAfterSetFitness(c: Chromosome, ff: FitnessFunction, v: real)
    requires Valid(c)
    ensures SetFitness(c, ff, Finite(v)).Success?
    ensures GetFitness(SetFitness(c, ff, Finite(v)).value)
            == GetFitness(c) - GetOrDefault(c.fitnessValues, ff, 0.0) + v
  {
    TotalAfterPut(c.fitnessValues, ff, v);
  }

  /** `addFitness` moves the total fitness by the difference between the registered and the replaced value. */
  lemma TotalFitnessAfterAddFitness(c: Chromosome, ff: FitnessFunction, fitnessValue: real,
                                    coverage: real, numCoveredGoals: Int32)
    requires Valid(c)
    ensures GetFitness(AddFitnessWithGoals(c, ff, fitnessValue, coverage, numCoveredGoals))
            == GetFitness(c) - GetOrDefault(c.fitnessValues, ff, 0.0) + fitnessValue
  {
    TotalAfterPut(c.fitnessValues, ff, fitnessValue);
  }

  /** `getFitness(ff)` on a chromosome that already caches a value for `ff`. */
  function GetCachedFitness(c: Chromosome, ff: FitnessFunction): (r: real)
    requires ff in c.fitnessValues.entries
    ensures CachedFitness(c, ff) == Some(r)
  {
    c.fitnessValues.entries[ff]
  }

  /** `getCoverage()`: the mean of the coverage values (`averagingDouble`, 0.0 when there are none). */
  function GetCoverage(c: Chromosome): (r: real)
    requires Valid(c)
    ensures c.coverageValues.keys == [] ==> r == 0.0
    ensures |c.coverageValues.keys| > 0 ==> r * |c.coverageValues.keys| as real == Total(c.coverageValues)
  {
    var n := |c.coverageValues.keys|;
    if n == 0 then 0.0 else Total(c.coverageValues) / n as real
  }

  /** Every recorded coverage value lies in [0, 1]. */
  ghost predicate CoverageValuesInUnitInterval(c: Chromosome) {
    forall ff :: ff in c.coverageValues.entries ==> 0.0 <= c.coverageValues.entries[ff] <= 1.0
  }

  /** The mean coverage lies in [0, 1] whenever every coverage value does (the assertion of `getCoverage()`). */
  lemma CoverageWithinUnitInterval(c: Chromosome)
    requires Valid(c)
    requires CoverageValuesInUnitInterval(c)
    ensures 0.0 <= GetCoverage(c) <= 1.0
  {
    var n := |c.coverageValues.keys|;
    if n > 0 {
      SumOfUnitValues(c.coverageValues.keys, c.coverageValues.entries);
      MeanBounds(Total(c.coverageValues), n);
    }
  }

  /** A sum in [0, n] divided by n > 0 lies in [0, 1]. */
  lemma MeanBounds(s: real, n: nat)
    requires n > 0
    requires 0.0 <= s <= n as real
    ensures 0.0 <= s / n as real <= 1.0
  {
  }

  /** `getCoverage(ff)`: the registered coverage, 0.0 for an objective with no coverage entry. */
  function GetCoverageOf(c: Chromosome, ff: FitnessFunction): (r: real)
    ensures ff in c.coverageValues.entries ==> r == c.coverageValues.entries[ff]
    ensures ff !in c.coverageValues.entries ==> r == 0.0
    ensures Valid(c) && ff !in c.fitnessValues.entries ==> r == 0.0
  {
    GetOrDefault(c.coverageValues, ff, 0.0)
  }

  /** `getNumOfCoveredGoals(ff)`: the registered count, 0 for an objective with no count entry. */
  function NumOfCoveredGoalsOf(c: Chromosome, ff: FitnessFunction): (r: Int32)
    ensures ff in c.numsCoveredGoals.entries ==> r == c.numsCoveredGoals.entries[ff]
    ensures ff !in c.numsCoveredGoals.entries ==> r == 0
    ensures Valid(c) && ff !in c.fitnessValues.entries ==> r == 0
  {
    GetOrDefault(c.numsCoveredGoals, ff, 0)
  }

  /** `getNumOfNotCoveredGoals(ff)`: note the default 0 for an unregistered `ff`, not the sentinel -1. */
  function NumOfNotCoveredGoalsOf(c: Chromosome, ff: FitnessFunction): (r: Int32)
    ensures ff in c.numsNotCoveredGoals.entries ==> r == c.numsNotCoveredGoals.entries[ff]
    ensures ff !in c.numsNotCoveredGoals.entries ==> r == 0
    ensures Valid(c) && ff !in c.fitnessValues.entries ==> r == 0
  {
    GetOrDefault(c.numsNotCoveredGoals, ff, 0)
  }

  /** `getNumOfCoveredGoals()`: the `int` sum of the per-objective counts, wrapping on overflow. */
  function NumOfCoveredGoals(c: Chromosome): (r: Int32)
    requires Valid(c)
    ensures (r - TotalInt(c.numsCoveredGoals)) % Int32Modulus == 0
    ensures -0x8000_0000 <= TotalInt(c.numsCoveredGoals) <= 0x7fff_ffff ==> r == TotalInt(c.numsCoveredGoals)
  {
    Wrap32(TotalInt(c.numsCoveredGoals))
  }

  /** `getNumOfNotCoveredGoals()`: the `int` sum of the per-objective counts, wrapping on overflow. */
  function NumOfNotCoveredGoals(c: Chromosome): (r: Int32)
    requires Valid(c)
    ensures (r - TotalInt(c.numsNotCoveredGoals)) % Int32Modulus == 0
    ensures -0x8000_0000 <= TotalInt(c.numsNotCoveredGoals) <= 0x7fff_ffff ==> r == TotalInt(c.numsNotCoveredGoals)
  {
    Wrap32(TotalInt(c.numsNotCoveredGoals))
  }

  /**
   * Registering an objective moves the goal totals by the registered counts
   * minus the replaced ones: its covered count and the sentinel -1.
   */
  lemma GoalTotalsAfterAddFitness(c: Chromosome, ff: FitnessFunction, fitnessValue: real,
                                  coverage: real, numCoveredGoals: Int32)
    requires Valid(c)
    ensures var r := AddFitnessWithGoals(c, ff, fitnessValue, coverage, numCoveredGoals);
            && TotalInt(r.numsCoveredGoals)
               == TotalInt(c.numsCoveredGoals) - NumOfCoveredGoalsOf(c, ff) + numCoveredGoals
            && TotalInt(r.numsNotCoveredGoals)
               == TotalInt(c.numsNotCoveredGoals) - NumOfNotCoveredGoalsOf(c, ff) - 1
            && NumOfNotCoveredGoals(r) == Wrap32(TotalInt(c.numsNotCoveredGoals) - NumOfNotCoveredGoalsOf(c, ff) - 1)
  {
    TotalIntAfterPut(c.numsCoveredGoals, ff, numCoveredGoals);
    TotalIntAfterPut(c.numsNotCoveredGoals, ff, -1);
  }

  /**
   * `getFitnessInstanceOf(clazz)`: the current fitness of the first objective,
   * in registration order, that the filter `isKind` accepts; 0.0 if none does.
   */
  function GetFitnessInstanceOf(c: Chromosome, isKind: FitnessFunction -> bool): (r: real)
    requires Valid(c)
    ensures (forall i :: 0 <= i < |c.fitnessValues.keys| ==> !isKind(c.fitnessValues.keys[i])) ==> r == 0.0
    ensures forall i :: 0 <= i < |c.fitnessValues.keys| && isKind(c.fitnessValues.keys[i])
                        && (forall j :: 0 <= j < i ==> !isKind(c.fitnessValues.keys[j]))
                        ==> r == c.fitnessValues.entries[c.fitnessValues.keys[i]]
  {
    var keys := c.fitnessValues.keys;
    var i := FirstIndex(keys, isKind);
    if i < |keys| then c.fitnessValues.entries[keys[i]] else 0.0
  }

  /** `getCoverageInstanceOf(clazz)`: as `GetFitnessInstanceOf`, over the coverage map and its own order. */
  function GetCoverageInstanceOf(c: Chromosome, isKind: FitnessFunction -> bool): (r: real)
    requires Valid(c)
    ensures (forall i :: 0 <= i < |c.coverageValues.keys| ==> !isKind(c.coverageValues.keys[i])) ==> r == 0.0
    ensures forall i :: 0 <= i < |c.coverageValues.keys| && isKind(c.coverageValues.keys[i])
                        && (forall j :: 0 <= j < i ==> !isKind(c.coverageValues.keys[j]))
                        ==> r == c.coverageValues.entries[c.coverageValues.keys[i]]
  {
    var keys := c.coverageValues.keys;
    var i := FirstIndex(keys, isKind);
    if i < |keys| then c.coverageValues.entries[keys[i]] else 0.0
  }

  /**
   * `compareTo(other)`: the sign of the difference of the total fitnesses,
   * and on a tie the kind-specific `compareSecondaryObjective`.
   */
  function CompareTo(c: Chromosome, other: Chromosome,
                     compareSecondaryObjective: (Chromosome, Chromosome) -> int): (r: int)
    requires Valid(c) && Valid(other)
    ensures GetFitness(c) < GetFitness(other) ==> r == -1
    ensures GetFitness(c) > GetFitness(other) ==> r == 1
    ensures GetFitness(c) == GetFitness(other) ==> r == compareSecondaryObjective(c, other)
  {
    var i := Signum(GetFitness(c) - GetFitness(other));
    if i == 0 then compareSecondaryObjective(c, other) else i
  }

  /** The secondary comparison is antisymmetric in sign. */
  ghost predicate SignAntisymmetric(cmp: (Chromosome, Chromosome) -> int) {
    forall a, b :: Signum(cmp(a, b) as real) == -Signum(cmp(b, a) as real)
  }

  /** Swapping the arguments of `compareTo` flips the sign when the secondary comparison does. */
  lemma CompareToAntisymmetric(a: Chromosome, b: Chromosome, cmp: (Chromosome, Chromosome) -> int)
    requires Valid(a) && Valid(b)
    requires SignAntisymmetric(cmp)
    ensures Signum(CompareTo(a, b, cmp) as real) == -Signum(CompareTo(b, a, cmp) as real)
  {
  }

  /**
   * `compareTo` orders strictly by total fitness first: "less than" is
   * transitive whenever the secondary comparison's "less than" is.
   */
  lemma CompareToTransitive(a: Chromosome, b: Chromosome, d: Chromosome,
                            cmp: (Chromosome, Chromosome) -> int)
    requires Valid(a) && Valid(b) && Valid(d)
    requires cmp(a, b) < 0 && cmp(b, d) < 0 ==> cmp(a, d) < 0
    requires CompareTo(a, b, cmp) < 0 && CompareTo(b, d, cmp) < 0
    ensures CompareTo(a, d, cmp) < 0
  {
  }

  /** `setChanged(b)`: sets the flag and, whatever `b` is, re-enables local search. */
  function SetChanged(c: Chromosome, changed: bool): (r: Chromosome)
    ensures r.changed == changed && !r.localSearchApplied
    ensures SameFitnessState(c, r)
  {
    c.(changed := changed, localSearchApplied := false)
  }

  /** `setLocalSearchApplied(b)` */
  function SetLocalSearchApplied(c: Chromosome, applied: bool): (r: Chromosome)
    ensures r.localSearchApplied == applied && r.changed == c.changed
    ensures SameFitnessState(c, r)
  {
    c.(localSearchApplied := applied)
  }

  /** Marking a chromosome (un)changed discards any local-search mark it carried. */
  lemma SetChangedClearsLocalSearch(c: Chromosome, applied: bool, changed: bool)
    ensures !SetChanged(SetLocalSearchApplied(c, applied), changed).localSearchApplied
    ensures SetChanged(SetLocalSearchApplied(c, applied), changed) == SetChanged(c, changed)
  {
  }

  /** `increaseNumberOfEvaluations()`: `numberOfEvaluations++` on a Java `int`. */
  function IncreaseNumberOfEvaluations(c: Chromosome): (r: Chromosome)
    ensures c.numberOfEvaluations < 0x7fff_ffff ==> r.numberOfEvaluations == c.numberOfEvaluations + 1
    ensures c.numberOfEvaluations == 0x7fff_ffff ==> r.numberOfEvaluations == -0x8000_0000
    ensures r == c.(numberOfEvaluations := r.numberOfEvaluations)
  {
    c.(numberOfEvaluations := Wrap32(c.numberOfEvaluations + 1))
  }
}
