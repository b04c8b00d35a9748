# Chromosome fitness bookkeeping and evaluation caching

A Dafny model of the candidate-solution core of an EvoSuite-derived
search-based test generator: how a chromosome keeps its per-objective
fitness, previous fitness, coverage and goal counts; how a fitness function
records a computed fitness onto an individual; how a test-case goal decides
whether to run a test again or reuse the cached execution result; and how
goal coverage is memoised on the test so that a covered goal is never
re-derived.

The model is functional. A chromosome is an immutable record whose five
per-objective maps are insertion-ordered (`LinkedMaps`, the model of
`LinkedHashMap`). Every Java mutator becomes a function from the old record
to the new one, and a thrown `IllegalArgumentException` becomes a `Failure`.
Running a test and the concrete per-goal fitness are not part of this core.
They are the two fields of an `Oracle` value, uninterpreted. Every
evaluation and coverage query returns, next to its answer and the new
state, the number of times it ran a test, which is how the "no
re-execution" properties are stated.

Modules, following the source files:

- `Numbers`: `double` as a real with NaN/±infinity tags, `Double.MAX_VALUE` written out exactly, `int` as a wrapping 32-bit value.
- `LinkedMaps`: insertion-ordered maps, sums over them, first-match search.
- `FitnessFunctions`, `FitnessRecording`: `ga/FitnessFunction.java`.
- `Chromosomes`: `ga/Chromosome.java`.
- `ExecutableChromosomes`: `testcase/ExecutableChromosome.java`.
- `TestCases`: the covered-goal memo of `testcase/TestCase.java`.
- `TestFitnessFunctions`: `testcase/TestFitnessFunction.java`.

Three behaviours of the code worth knowing:

- `getFitness(individual)` caches the execution result and clears `changed` before `setFitness` can refuse a NaN or infinite goal fitness. A failed evaluation therefore leaves the cache filled and the chromosome marked unchanged; it is not a no-op. `GetFitness` states this.
- Coverage values are not validated anywhere. `addFitness` accepts any coverage, and `getCoverage()` only checks its bound with a Java `assert`. The model proves the bound under the hypothesis that every coverage value lies in [0, 1].
- `normalize(NaN)` is not refused. NaN is neither negative nor infinite, so the division runs and returns NaN.

## Model

| member | source | states |
|---|---|---|
| `Chromosomes.NewChromosome` | src/main/java/org/evosuite/ga/Chromosome.java:61-136 | a new chromosome has no objectives, is marked changed, has no local search applied, has zero evaluations, and satisfies the key-consistency invariant |
| `Chromosomes.CachedFitness` | src/main/java/org/evosuite/ga/Chromosome.java:166-170 | a cached fitness exists exactly for the registered objectives, and it is the current value |
| `Chromosomes.GetCachedFitness` | src/main/java/org/evosuite/ga/Chromosome.java:166-168 | for a registered objective, `getFitness(ff)` answers from the cache |
| `Chromosomes.AddFitnessWithGoals` | src/main/java/org/evosuite/ga/Chromosome.java:249-256 | registration keeps the invariant; the same value becomes current and previous fitness, so the objective does not count as changed; coverage and covered count are as given; not-covered count is the sentinel -1; a new objective is appended to the end of every iteration order and a present one keeps its place; every other objective's entries are unchanged, and so are the flags and the counter |
| `Chromosomes.AddFitnessWithCoverage` | src/main/java/org/evosuite/ga/Chromosome.java:235-237 | the three-argument overload has the same effect with a covered count of 0: value as current and previous fitness, the given coverage, covered 0, not covered -1, a new objective appended to every order, nothing else changed |
| `Chromosomes.AddFitnessWithValue` | src/main/java/org/evosuite/ga/Chromosome.java:222-224 | the two-argument overload has the same effect with coverage 0.0 and covered 0: value as current and previous fitness, not covered -1, a new objective appended to every order, nothing else changed |
| `Chromosomes.AddFitness` | src/main/java/org/evosuite/ga/Chromosome.java:210-213 | default registration: current = previous = 0 for a maximising objective, `Double.MAX_VALUE` otherwise; coverage 0.0, covered 0, not covered -1; a new objective is appended to every order; no other objective, flag or counter changes; it never makes `hasFitnessChanged` true |
| `Chromosomes.AddFitnessKeepsUnchanged` | src/main/java/org/evosuite/ga/Chromosome.java:249-256 | if the chromosome shows a fitness change after any registration of a real value, it already showed one before |
| `Chromosomes.SetFitness` | src/main/java/org/evosuite/ga/Chromosome.java:264-273 | refused exactly for NaN and infinite values, with the value in the error; otherwise previous[ff] becomes the old current value (or the new value when there was none), current[ff] becomes the value, a new objective is appended to both fitness orders and a present one keeps its place, no other key, value or map changes, the invariant holds and `hasExecutedFitness(ff)` is true |
| `Chromosomes.SetFitnessTwice` | src/main/java/org/evosuite/ga/Chromosome.java:271-272 | after setting v1 then v2, current is v2 and previous is v1, and the objective counts as changed exactly when v1 differs from v2 |
| `Chromosomes.SetFitnessChangedFor` | src/main/java/org/evosuite/ga/Chromosome.java:264-288 | after an update, the objective counts as changed exactly when it had an old value that differs from the new one |
| `Chromosomes.HasFitnessChanged` | src/main/java/org/evosuite/ga/Chromosome.java:281-288 | true exactly when some registered objective's current value differs from its previous value |
| `Chromosomes.AnyChanged` | src/main/java/org/evosuite/ga/Chromosome.java:282-287 | the in-order `anyMatch` scan is true exactly when some position of the key order holds a changed value |
| `Chromosomes.GetFitness` | src/main/java/org/evosuite/ga/Chromosome.java:153-157 | the total fitness is 0.0 with no objectives and is never negative when no objective's fitness is |
| `Chromosomes.HasExecutedFitness` | src/main/java/org/evosuite/ga/Chromosome.java:188-190 | on a consistent chromosome, a fitness has been executed for exactly the objectives that have a current fitness |
| `Chromosomes.TotalFitnessAfterSetFitness` | src/main/java/org/evosuite/ga/Chromosome.java:153-157 | the total fitness, the sum over all current values, moves by the new value minus the replaced one (0 for a new key) |
| `Chromosomes.TotalFitnessAfterAddFitness` | src/main/java/org/evosuite/ga/Chromosome.java:153-157 | registration moves the total fitness by the registered value minus the replaced one |
| `Chromosomes.GetCoverage` | src/main/java/org/evosuite/ga/Chromosome.java:434-438 | 0.0 with no coverage entries; otherwise the mean, so that it times the number of entries is their sum |
| `Chromosomes.CoverageWithinUnitInterval` | src/main/java/org/evosuite/ga/Chromosome.java:434-438 | the mean coverage, 0.0 with no entries, lies in [0, 1] when every entry does |
| `Chromosomes.GetCoverageOf` | src/main/java/org/evosuite/ga/Chromosome.java:505-507 | the coverage entry when there is one, 0.0 for any objective without a coverage entry, in particular one that has no fitness |
| `Chromosomes.NumOfCoveredGoalsOf` | src/main/java/org/evosuite/ga/Chromosome.java:525-527 | the covered-count entry when there is one, 0 for any objective without one, in particular one that has no fitness |
| `Chromosomes.NumOfNotCoveredGoalsOf` | src/main/java/org/evosuite/ga/Chromosome.java:535-537 | the not-covered-count entry when there is one, 0 (not the sentinel -1) for any objective without one, in particular one that has no fitness |
| `Chromosomes.NumOfCoveredGoals` | src/main/java/org/evosuite/ga/Chromosome.java:446-450 | the `int` total of the per-objective covered counts: congruent to the exact sum modulo 2^32, so it wraps on overflow, and equal to it whenever that fits in an `int` |
| `Chromosomes.NumOfNotCoveredGoals` | src/main/java/org/evosuite/ga/Chromosome.java:458-462 | the `int` total of the per-objective not-covered counts: congruent to the exact sum modulo 2^32, so it wraps on overflow, and equal to it whenever that fits in an `int` |
| `Chromosomes.GoalTotalsAfterAddFitness` | src/main/java/org/evosuite/ga/Chromosome.java:446-462 | registration moves the covered total by the new count minus the replaced one, and the not-covered total by -1 minus the replaced one (wrapped to `int`) |
| `Chromosomes.GetFitnessInstanceOf` | src/main/java/org/evosuite/ga/Chromosome.java:581-586 | the current fitness of the first objective, in insertion order, that the filter accepts; 0.0 when none does |
| `Chromosomes.GetCoverageInstanceOf` | src/main/java/org/evosuite/ga/Chromosome.java:596-601 | the coverage of the first objective, in the coverage map's own insertion order, that the filter accepts; 0.0 when none does |
| `Chromosomes.CompareTo` | src/main/java/org/evosuite/ga/Chromosome.java:318-324 | -1 when the total fitness is lower than the other's, 1 when higher; on a tie, exactly the secondary comparison |
| `Chromosomes.CompareToAntisymmetric` | src/main/java/org/evosuite/ga/Chromosome.java:318-324 | swapping the arguments flips the sign, provided the secondary comparison does the same |
| `Chromosomes.CompareToTransitive` | src/main/java/org/evosuite/ga/Chromosome.java:318-324 | "compares below" is transitive, provided the secondary comparison's is |
| `Chromosomes.SetChanged` | src/main/java/org/evosuite/ga/Chromosome.java:410-414 | sets `changed` to the argument and always clears `localSearchApplied`; fitness state untouched |
| `Chromosomes.SetLocalSearchApplied` | src/main/java/org/evosuite/ga/Chromosome.java:420-422 | sets only the local-search flag |
| `Chromosomes.SetChangedClearsLocalSearch` | src/main/java/org/evosuite/ga/Chromosome.java:410-422 | whatever local-search mark was set before, `setChanged` erases it and leaves the same state as on an unmarked chromosome |
| `Chromosomes.IncreaseNumberOfEvaluations` | src/main/java/org/evosuite/ga/Chromosome.java:627-629 | the counter goes up by one below `Integer.MAX_VALUE` and wraps to `Integer.MIN_VALUE` from it; nothing else changes |
| `FitnessFunctions.IsMaximizationFunction` | src/main/java/org/evosuite/testcase/TestFitnessFunction.java:211-214 | a test-case goal is never a maximisation function |
| `FitnessFunctions.Normalize` | src/main/java/org/evosuite/ga/FitnessFunction.java:77-85 | refused exactly for negative input, -infinity included; +infinity gives 1.0; NaN gives NaN; on exact reals, a finite x >= 0 gives a value in [0, 1) that is 0 exactly when x is 0 |
| `FitnessFunctions.NormalizeRoundTrip` | src/main/java/org/evosuite/ga/FitnessFunction.java:84 | on exact reals, x / (1 + x) is undone by y / (1 - y), so the normalisation loses nothing on finite distances |
| `FitnessFunctions.NormalizeStrictlyMonotonic` | src/main/java/org/evosuite/ga/FitnessFunction.java:84 | on exact reals, normalisation keeps the strict order of distances |
| `FitnessFunctions.UpdateCoveredGoals` | src/main/java/org/evosuite/ga/FitnessFunction.java:104-106 | by default no archive is updated (false) |
| `FitnessRecording.UpdateIndividual` | src/main/java/org/evosuite/ga/FitnessFunction.java:47-52 | refused exactly for NaN and infinite fitness; otherwise the value becomes the current fitness for this function, the old current value (or the value itself when there was none) becomes the previous one, a new function is appended to the fitness order, no other objective's current or previous fitness changes, and the evaluation count rises by one (modulo 2^32); coverage, counts and flags stay the same |
| `FitnessRecording.GetBestStoredIndividual` | src/main/java/org/evosuite/ga/FitnessFunction.java:55-57 | by default no individual is stored |
| `TestCases.IsGoalCovered` | src/main/java/org/evosuite/testcase/TestCase.java:233 | a goal is recorded as covered exactly when recording it again leaves the test unchanged |
| `TestCases.AddCoveredGoal` | src/main/java/org/evosuite/testcase/TestCase.java:54 | the goal becomes recorded as covered, and no other goal's record or the test's code changes |
| `ExecutableChromosomes.NewExecutableChromosome` | src/main/java/org/evosuite/testcase/ExecutableChromosome.java:36-43 | a new executable chromosome has no cached result and a fresh chromosome state: no objectives, marked changed, no local search, zero evaluations, consistent |
| `ExecutableChromosomes.SetLastExecutionResult` | src/main/java/org/evosuite/testcase/ExecutableChromosome.java:50-61 | the getter returns the result just set; the chromosome state is untouched |
| `ExecutableChromosomes.GetLastExecutionResultAfterWrites` | src/main/java/org/evosuite/testcase/ExecutableChromosome.java:50-90 | the getter observes the last write to the slot: the result just set, and nothing after a clear or a restore, whatever came before |
| `ExecutableChromosomes.ClearCachedResults` | src/main/java/org/evosuite/testcase/ExecutableChromosome.java:66-68 | the slot is empty; the `changed` flag and all fitness maps are untouched |
| `ExecutableChromosomes.Deserialize` | src/main/java/org/evosuite/testcase/ExecutableChromosome.java:86-90 | a restored instance has an empty slot and exactly the serialised state |
| `ExecutableChromosomes.RestoreClearsCache` | src/main/java/org/evosuite/testcase/ExecutableChromosome.java:86-90 | a serialisation round trip is the same as clearing the cache |
| `ExecutableChromosomes.ClearUndoesSet` | src/main/java/org/evosuite/testcase/ExecutableChromosome.java:50-68 | clearing after setting forgets the result that was set |
| `TestFitnessFunctions.NewTestChromosome` | src/main/java/org/evosuite/testcase/TestFitnessFunction.java:144-145 | the chromosome built around a test holds that test, has no cached result and a fresh state: no objectives, marked changed, no local search, zero evaluations, consistent |
| `TestFitnessFunctions.RunTest` | src/main/java/org/evosuite/testcase/TestFitnessFunction.java:98-100 | the result of running a test refers to that test |
| `TestFitnessFunctions.ExecuteIfNeeded` | src/main/java/org/evosuite/testcase/TestFitnessFunction.java:62-67 | runs the test exactly once when there is no cached result or the chromosome changed, then caches the result and sets `changed` to false, which also clears local search; otherwise it runs nothing and changes nothing; afterwards the cache is usable |
| `TestFitnessFunctions.GetFitness` | src/main/java/org/evosuite/testcase/TestFitnessFunction.java:60-73 | one run exactly when the cache is unusable, none otherwise; the answer is the goal's fitness on the cached or fresh result, refused exactly when that fitness is NaN or infinite; on success it is the goal's new current fitness, the old one becomes previous, a new goal is appended to the fitness order, no other objective's fitness changes, coverage and goal counts are untouched and the evaluation count rose by one; local search stays marked only when nothing was run; a refused fitness leaves the fitness state as it was but the result cached |
| `TestFitnessFunctions.NoReexecutionAfterGetFitness` | src/main/java/org/evosuite/testcase/TestFitnessFunction.java:63-67 | after one fitness query, a further query on the chromosome, for any goal, runs nothing |
| `TestFitnessFunctions.ChromosomeFitness` | src/main/java/org/evosuite/ga/Chromosome.java:166-170 | for a registered goal, the cached value, with no run and no change; otherwise the goal's own fitness computation |
| `TestFitnessFunctions.FitnessIsCachedAfterFirstQuery` | src/main/java/org/evosuite/ga/Chromosome.java:166-170 | once a goal's fitness has been computed, asking again returns the same value with no run and no change |
| `TestFitnessFunctions.IsCoveredWith` | src/main/java/org/evosuite/testcase/TestFitnessFunction.java:181-187 | covered exactly when the goal's fitness on the result is exactly 0.0; when covered the goal is added to the test's covered set, otherwise the test is unchanged; the fitness state is never touched and nothing runs |
| `TestFitnessFunctions.IsCoveredChromosome` | src/main/java/org/evosuite/testcase/TestFitnessFunction.java:157-170 | a goal already recorded on the test answers true with no run and no change; otherwise it runs once exactly when the cache is unusable, leaves exactly the cached-result and flag state of that step (the fresh result cached, `changed` and local search cleared), and decides by the fitness on the result; a positive answer is recorded on the test |
| `TestFitnessFunctions.CoverageIsMemoised` | src/main/java/org/evosuite/testcase/TestFitnessFunction.java:158-160 | after a true answer, asking again answers true with no run and no change |
| `TestFitnessFunctions.RepeatedCoverageQueryRunsNothing` | src/main/java/org/evosuite/testcase/TestFitnessFunction.java:157-170 | repeating a coverage query never runs the test; once a query went past the memo, no goal's query runs it either |
| `TestFitnessFunctions.IsCoveredTest` | src/main/java/org/evosuite/testcase/TestFitnessFunction.java:143-147 | on a bare test, the query runs it exactly when the test does not already record the goal, and answers by that record or by the fitness on the fresh run |
| `TestFitnessFunctions.TestCoverageIsMemoised` | src/main/java/org/evosuite/testcase/TestFitnessFunction.java:143-160 | a test found to cover the goal answers the repeated query with no run |
| `TestFitnessFunctions.FirstCoveringTest` | src/main/java/org/evosuite/testcase/TestFitnessFunction.java:110-112 | the position of the first test in the list that covers the goal; no test before it covers it |
| `TestFitnessFunctions.IsCoveredTests` | src/main/java/org/evosuite/testcase/TestFitnessFunction.java:110-112 | true exactly when some test in the list covers the goal |
| `TestFitnessFunctions.IsCoveredTestsStopsAtFirstHit` | src/main/java/org/evosuite/testcase/TestFitnessFunction.java:110-112 | the scan queries the tests up to the first covering one and leaves every later test untouched |
| `TestFitnessFunctions.IsCoveredTestsExecutions` | src/main/java/org/evosuite/testcase/TestFitnessFunction.java:110-112 | the scan runs each examined test that does not already record the goal, once, and no other |
| `TestFitnessFunctions.ResultChromosome` | src/main/java/org/evosuite/testcase/TestFitnessFunction.java:196-199 | the chromosome built around a result holds the result's test, has that result cached and is marked unchanged, so its cache is usable; otherwise its state is fresh: no objectives or coverage, no local search, zero evaluations |
| `TestFitnessFunctions.IsCoveredResult` | src/main/java/org/evosuite/testcase/TestFitnessFunction.java:195-201 | never runs a test; covered exactly when the goal's fitness on the given result is 0.0, and then the goal is recorded on the result's test |
| `TestFitnessFunctions.ResultQueryNeedsNoExecution` | src/main/java/org/evosuite/testcase/TestFitnessFunction.java:195-201 | even a full chromosome query on the built chromosome would not run the test |
| `TestFitnessFunctions.IsCoveredByResults` | src/main/java/org/evosuite/testcase/TestFitnessFunction.java:120-122 | true exactly when some result in the list covers the goal |
| `TestFitnessFunctions.IsCoveredBy` | src/main/java/org/evosuite/testcase/TestFitnessFunction.java:124-133 | true exactly when some test chromosome of the suite covers the goal; the scan goes in suite order and stops at the first hit; only the examined chromosomes are updated, and the number of runs is the sum over the examined ones |
| `TestFitnessFunctions.GoalsAreMinimised` | src/main/java/org/evosuite/testcase/TestFitnessFunction.java:211-214 | a goal is minimised, so `addFitness` registers it at `Double.MAX_VALUE` |

## Left out

- Test execution (`TestCaseExecutor.runTest`) and each goal's concrete `getFitness(individual, result)` are the uninterpreted fields of `Oracle`. The model's test-run count replaces a counter inside the executor.
- Oracle: test execution is taken to be a deterministic function of the test, and a goal's concrete fitness to be free of side effects: it writes nothing to the individual or its test. In Java that method is abstract and receives the mutable individual, so a subclass could record a fitness or a covered goal on it. The `TestFitnessFunctions.GetFitness` row ("the evaluation count rose by one") and the `TestFitnessFunctions.IsCoveredWith` row ("the fitness state is never touched") rely on both assumptions.
- The abstract operations that concrete chromosome kinds supply are left out: `mutate`, `crossOver`, `localSearch`, `clone`, `equals`, `hashCode`, `size`, `copyCachedResults` and `executeForFitnessFunction`. They have no bodies here. `compareSecondaryObjective` is a function parameter of `CompareTo`.
- `TestFitnessFunction.compareTo`, `compareClassName`, `getTargetClass` and `getTargetMethod` are left out: they are abstract, or they compare Java class names.
- `Chromosome.getFitness(ff)` delegating to a fitness function other than a test-case goal is not modelled, because that computation is abstract. `ChromosomeFitness` covers goals only.
- `PublicCloneable` is a marker interface. Clone independence holds by construction, because chromosomes are values.
- The bulk setters `setFitnessValues`, `setPreviousFitnessValues`, `setCoverageValues`, `setNumsOfCoveredGoals` and `setNumsOfNotCoveredGoals` are left out. So are the per-objective setters `setCoverage`, `setNumOfCoveredGoals` and `setNumOfNotCoveredGoals`. They are plain map writes that can break the key-consistency invariant.
- Age, rank, distance, mutation and collision counters, and their getters and setters, are left out. They are storage only.
- `addFitness` takes a real fitness and coverage, so a NaN or infinite value passed to `addFitness` is not modelled. In Java, `addFitness(ff, Double.NaN)` stores NaN as both current and previous fitness, and `NaN != NaN` then makes `hasFitnessChanged` true, so there a registration can create a change; `AddFitnessKeepsUnchanged` holds for real values only.
- IEEE-754 rounding is not modelled, and neither is overflow when summing `Double.MAX_VALUE` entries: doubles are exact reals. `-0.0 == 0.0` holds trivially.
- FitnessFunctions.Normalize: the division is exact here. In `double` arithmetic a large finite distance rounds to 1.0 (from about 1e16 on) and distinct large distances can normalise to the same value, so the bound below 1.0, the round trip and the strict order hold on exact reals only.
- Chromosomes.CompareTo: totals are exact reals. In Java, two totals that both overflow to infinity subtract to NaN and fall to the secondary comparison; here they compare by size.
- TestFitnessFunctions.IsCoveredByResults: returns only the answer. Each examined result's test also gets the goal recorded; that update is returned one result at a time by `IsCoveredResult`.
- Object identity is not modelled. In Java a chromosome, its cached result and a suite may share one `TestCase` object; here each holds its own copy. A suite is taken to list distinct chromosomes.
- Serialisation mechanics and logging are left out. The class filter of `getFitnessInstanceOf`/`getCoverageInstanceOf` is an arbitrary predicate on fitness functions.
- `TestCase` is reduced to an opaque code and its covered-goal set. `removeCoveredGoal` and `clearCoveredGoals` are not used by this core.
