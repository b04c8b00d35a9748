/**
 * `TestFitnessFunction`: the fitness of a single coverage goal on a test
 * chromosome. Evaluation runs the test only when the chromosome has no
 * cached execution result or has changed since it was last run; a goal is
 * covered exactly when its fitness is 0.0, and coverage, once found, is
 * recorded on the test so that later queries answer without running it.
 *
 * Running a test and the concrete per-goal fitness belong to collaborators
 * outside this core; they are the two fields of an `Oracle`. Every
 * operation reports how many times it ran a test.
 */
module TestFitnessFunctions {
  import opened Wrappers
  import opened Numbers
  import opened FitnessFunctions
  import opened TestCases
  import opened Chromosomes
  import opened LinkedMaps
  import opened FitnessRecording
  import opened ExecutableChromosomes

  /** A `TestChromosome`: an executable chromosome over one test case. */
  datatype TestChromosome = TestChromosome(exec: ExecutableChromosome, test: TestCase)

  /**
   * The collaborators: `execute` is what running a test produces (the
   * executor behind `runTest`), `goalFitness` a goal's concrete
   * `getFitness(individual, result)`.
   */
  datatype Oracle = Oracle(
    execute: TestCase -> nat,
    goalFitness: (Goal, TestChromosome, ExecutionResult) -> Double)

  /** What a fitness query returns, with the chromosome after the call and the number of test runs it made. */
  datatype Evaluation = Evaluation(fitness: Result<real, IllegalArgument>, chromosome: TestChromosome, executions: nat)

  /** What a coverage query on a chromosome returns. */
  datatype CoverageCheck = CoverageCheck(covered: bool, chromosome: TestChromosome, executions: nat)

  /** What a coverage query on a bare test case returns, with the test after the call. */
  datatype TestCheck = TestCheck(covered: bool, test: TestCase, executions: nat)

  /** What a coverage query on a list of test cases returns. */
  datatype TestsCheck = TestsCheck(covered: bool, tests: seq<TestCase>, executions: nat)

  /** What a coverage query on an execution result returns, with the result's test after the call. */
  datatype ResultCheck = ResultCheck(covered: bool, result: ExecutionResult, executions: nat)

  /** The outcome of running a test if needed: the result to use, the chromosome after caching it, the runs made. */
  datatype Prepared = Prepared(result: ExecutionResult, chromosome: TestChromosome, executions: nat)

  ghost predicate ValidTestChromosome(tc: TestChromosome) {
    Valid(tc.exec.base)
  }

  /** `new TestChromosome()` holding `test`. */
  function NewTestChromosome(test: TestCase): (tc: TestChromosome)
    ensures ValidTestChromosome(tc) && tc.test == test
    ensures GetLastExecutionResult(tc.exec).None?
    ensures tc.exec.base.fitnessValues.keys == [] && tc.exec.base.changed
    ensures !tc.exec.base.localSearchApplied && tc.exec.base.numberOfEvaluations == 0
  {
    TestChromosome(NewExecutableChromosome(), test)
  }

  /** `runTest(test)` */
  function RunTest(o: Oracle, test: TestCase): (r: ExecutionResult)
    ensures r.test == test
  {
    ExecutionResult(test, o.execute(test))
  }

  /** The cache cannot be used: there is no cached result, or the chromosome changed since. */
  predicate NeedsExecution(tc: TestChromosome) {
    tc.exec.lastExecutionResult.None? || tc.exec.base.changed
  }

  /**
   * The shared first step of `getFitness(individual)` and
   * `isCovered(TestChromosome)`: run the test only if the cache cannot be
   * used, then cache the result and mark the chromosome unchanged.
   */
  function ExecuteIfNeeded(o: Oracle, tc: TestChromosome): (p: Prepared)
    ensures NeedsExecution(tc) ==> p.executions == 1 && p.result == RunTest(o, tc.test)
    ensures NeedsExecution(tc) ==> !p.chromosome.exec.base.localSearchApplied
    ensures !NeedsExecution(tc) ==> p.executions == 0 && p.chromosome == tc
    ensures GetLastExecutionResult(p.chromosome.exec) == Some(p.result)
    ensures !NeedsExecution(p.chromosome)
    ensures p.chromosome.test == tc.test
    ensures SameFitnessState(tc.exec.base, p.chromosome.exec.base)
  {
    if NeedsExecution(tc) then
      var result := RunTest(o, tc.test);
      var exec := SetLastExecutionResult(tc.exec, result);
      Prepared(result, tc.(exec := exec.(base := SetChanged(exec.base, false))), 1)
    else
      Prepared(tc.exec.lastExecutionResult.value, tc, 0)
  }

  /** The goal's fitness on the result `getFitness(individual)` and `isCovered` use: the cached one, or a fresh run's. */
  function ComputedFitness(o: Oracle, goal: Goal, tc: TestChromosome): (fitness: Double) {
    var p := ExecuteIfNeeded(o, tc);
    o.goalFitness(goal, p.chromosome, p.result)
  }

  /**
   * `getFitness(individual)`: run the test if needed, compute the goal's
   * fitness on the result and record it on the individual (which counts
   * one evaluation). A NaN or infinite goal fitness is refused by the
   * recording step after the result has already been cached. This is the
   * goal's `getFitness`, not the chromosome's total `Chromosomes.GetFitness`.
   */
  function GetFitness(o: Oracle, goal: Goal, tc: TestChromosome): (e: Evaluation)
    requires ValidTestChromosome(tc)
    ensures e.executions == (if NeedsExecution(tc) then 1 else 0)
    ensures NeedsExecution(tc) ==> GetLastExecutionResult(e.chromosome.exec) == Some(RunTest(o, tc.test))
    ensures !NeedsExecution(tc) ==> GetLastExecutionResult(e.chromosome.exec) == GetLastExecutionResult(tc.exec)
    ensures ValidTestChromosome(e.chromosome) && !NeedsExecution(e.chromosome)
    ensures e.chromosome.test == tc.test
    ensures e.fitness.Failure? <==> ComputedFitness(o, goal, tc).NaN? || ComputedFitness(o, goal, tc).IsInfinite()
    ensures e.fitness.Success? ==> Finite(e.fitness.value) == ComputedFitness(o, goal, tc)
    ensures e.fitness.Success? ==> CachedFitness(e.chromosome.exec.base, goal) == Some(e.fitness.value)
    ensures e.fitness.Success? ==>
              e.chromosome.exec.base.fitnessValues.entries == tc.exec.base.fitnessValues.entries[goal := e.fitness.value]
    ensures e.fitness.Success? ==>
              e.chromosome.exec.base.fitnessValues.keys == KeysAfterPut(tc.exec.base.fitnessValues, goal)
    ensures e.fitness.Success? ==>
              && e.chromosome.exec.base.coverageValues == tc.exec.base.coverageValues
              && e.chromosome.exec.base.numsCoveredGoals == tc.exec.base.numsCoveredGoals
              && e.chromosome.exec.base.numsNotCoveredGoals == tc.exec.base.numsNotCoveredGoals
    ensures e.fitness.Success? && goal in tc.exec.base.fitnessValues.entries ==>
              e.chromosome.exec.base.previousFitnessValues.entries
              == tc.exec.base.previousFitnessValues.entries[goal := tc.exec.base.fitnessValues.entries[goal]]
    ensures e.fitness.Success? && goal !in tc.exec.base.fitnessValues.entries ==>
              e.chromosome.exec.base.previousFitnessValues.entries
              == tc.exec.base.previousFitnessValues.entries[goal := e.fitness.value]
    ensures e.chromosome.exec.base.localSearchApplied == (!NeedsExecution(tc) && tc.exec.base.localSearchApplied)
    ensures e.fitness.Success? ==> HasExecutedFitness(e.chromosome.exec.base, goal)
    ensures e.fitness.Success? ==>
              e.chromosome.exec.base.numberOfEvaluations == Wrap32(tc.exec.base.numberOfEvaluations + 1)
    ensures e.fitness.Failure? ==>
              && e.fitness.error.InvalidFitnessValue?
              && SameFitnessState(tc.exec.base, e.chromosome.exec.base)
  {
    var p := ExecuteIfNeeded(o, tc);
    var f := o.goalFitness(goal, p.chromosome, p.result);
    match UpdateIndividual(p.chromosome.exec.base, goal, f)
    case Failure(err) => Evaluation(Failure(err), p.chromosome, p.executions)
    case Success(base) =>
      Evaluation(Success(f.value), p.chromosome.(exec := p.chromosome.exec.(base := base)), p.executions)
  }

  /** Once a fitness query has run the test, no later query on the unchanged chromosome runs it again. */
  lemma NoReexecutionAfterGetFitness(o: Oracle, goal: Goal, other: Goal, tc: TestChromosome)
    requires ValidTestChromosome(tc)
    ensures GetFitness(o, other, GetFitness(o, goal, tc).chromosome).executions == 0
  {
  }

  /**
   * `Chromosome.getFitness(ff)` for a goal on a test chromosome: the cached
   * value when there is one, with no execution and no state change;
   * otherwise the goal's own `getFitness(individual)`.
   */
  function ChromosomeFitness(o: Oracle, goal: Goal, tc: TestChromosome): (e: Evaluation)
    requires ValidTestChromosome(tc)
    ensures goal in tc.exec.base.fitnessValues.entries ==>
              e == Evaluation(Success(tc.exec.base.fitnessValues.entries[goal]), tc, 0)
    ensures goal !in tc.exec.base.fitnessValues.entries ==> e == GetFitness(o, goal, tc)
  {
    match CachedFitness(tc.exec.base, goal)
    case Some(v) => Evaluation(Success(v), tc, 0)
    case None => GetFitness(o, goal, tc)
  }

  /** A successfully computed fitness is cached: asking again returns it without running anything. */
  lemma FitnessIsCachedAfterFirstQuery(o: Oracle, goal: Goal, tc: TestChromosome)
    requires ValidTestChromosome(tc)
    ensures var e := ChromosomeFitness(o, goal, tc);
            e.fitness.Success? ==> ChromosomeFitness(o, goal, e.chromosome) == Evaluation(e.fitness, e.chromosome, 0)
  {
  }

  /**
   * `isCovered(individual, result)`: covered exactly when the goal's fitness
   * on `result` is 0.0; a covered goal is recorded on the test. Nothing is
   * run and the chromosome's fitness state is not touched.
   */
  function IsCoveredWith(o: Oracle, goal: Goal, tc: TestChromosome, result: ExecutionResult): (r: CoverageCheck)
    ensures r.covered <==> o.goalFitness(goal, tc, result) == Finite(0.0)
    ensures r.covered ==> r.chromosome.test == AddCoveredGoal(tc.test, goal)
    ensures !r.covered ==> r.chromosome.test == tc.test
    ensures r.chromosome.exec == tc.exec
    ensures r.executions == 0
  {
    var covered := o.goalFitness(goal, tc, result) == Finite(0.0);
    if covered then CoverageCheck(true, tc.(test := AddCoveredGoal(tc.test, goal)), 0)
    else CoverageCheck(false, tc, 0)
  }

  /**
   * `isCovered(TestChromosome)`: a goal the test already records as covered
   * answers true at once; otherwise the test is run if needed and the
   * fitness on the (cached or fresh) result decides.
   */
  function IsCoveredChromosome(o: Oracle, goal: Goal, tc: TestChromosome): (r: CoverageCheck)
    ensures IsGoalCovered(tc.test, goal) ==> r == CoverageCheck(true, tc, 0)
    ensures !IsGoalCovered(tc.test, goal) ==>
              && r.executions == (if NeedsExecution(tc) then 1 else 0)
              && !NeedsExecution(r.chromosome)
              && (r.covered <==> ComputedFitness(o, goal, tc) == Finite(0.0))
              && r.chromosome.exec == ExecuteIfNeeded(o, tc).chromosome.exec
    ensures r.covered ==> IsGoalCovered(r.chromosome.test, goal)
    ensures forall g :: IsGoalCovered(r.chromosome.test, g) <==> IsGoalCovered(tc.test, g) || (r.covered && g == goal)
    ensures r.chromosome.test.code == tc.test.code
    ensures SameFitnessState(tc.exec.base, r.chromosome.exec.base)
  {
    if IsGoalCovered(tc.test, goal) then
      CoverageCheck(true, tc, 0)
    else
      var p := ExecuteIfNeeded(o, tc);
      var r := IsCoveredWith(o, goal, p.chromosome, p.result);
      r.(executions := p.executions)
  }

  /** Memoisation: once a chromosome is found to cover the goal, asking again runs nothing and changes nothing. */
  lemma CoverageIsMemoised(o: Oracle, goal: Goal, tc: TestChromosome)
    ensures var r := IsCoveredChromosome(o, goal, tc);
            r.covered ==> IsCoveredChromosome(o, goal, r.chromosome) == CoverageCheck(true, r.chromosome, 0)
  {
  }

  /**
   * Whatever the first coverage query answered, repeating it runs nothing;
   * and once a query has gone past the memo, no query for any goal runs the
   * unchanged chromosome again.
   */
  lemma RepeatedCoverageQueryRunsNothing(o: Oracle, goal: Goal, other: Goal, tc: TestChromosome)
    ensures IsCoveredChromosome(o, goal, IsCoveredChromosome(o, goal, tc).chromosome).executions == 0
    ensures !IsGoalCovered(tc.test, goal) ==>
              IsCoveredChromosome(o, other, IsCoveredChromosome(o, goal, tc).chromosome).executions == 0
  {
  }

  /** The chromosome `isCovered(TestCase)` builds around a test, after it has been run once. */
  function FreshlyRun(o: Oracle, test: TestCase): (tc: TestChromosome) {
    ExecuteIfNeeded(o, NewTestChromosome(test)).chromosome
  }

  /**
   * `isCovered(TestCase)`: the query on a new chromosome around the test, so
   * the test is run exactly when it does not already record the goal.
   */
  function IsCoveredTest(o: Oracle, goal: Goal, test: TestCase): (r: TestCheck)
    ensures r.executions == (if IsGoalCovered(test, goal) then 0 else 1)
    ensures r.covered <==>
              IsGoalCovered(test, goal) || o.goalFitness(goal, FreshlyRun(o, test), RunTest(o, test)) == Finite(0.0)
    ensures r.covered ==> IsGoalCovered(r.test, goal)
    ensures forall g :: IsGoalCovered(r.test, g) <==> IsGoalCovered(test, g) || (r.covered && g == goal)
    ensures r.test.code == test.code
  {
    var r := IsCoveredChromosome(o, goal, NewTestChromosome(test));
    TestCheck(r.covered, r.chromosome.test, r.executions)
  }

  /** Memoisation on a bare test: a covered test answers the repeated query without running. */
  lemma TestCoverageIsMemoised(o: Oracle, goal: Goal, test: TestCase)
    ensures var r := IsCoveredTest(o, goal, test);
            r.covered ==> IsCoveredTest(o, goal, r.test) == TestCheck(true, r.test, 0)
  {
    var r := IsCoveredTest(o, goal, test);
    if r.covered {
      var again := IsCoveredChromosome(o, goal, NewTestChromosome(r.test));
      assert again == CoverageCheck(true, NewTestChromosome(r.test), 0);
    }
  }

  /** The position of the first test of `tests` that covers the goal, or `|tests|`. */
  function FirstCoveringTest(o: Oracle, goal: Goal, tests: seq<TestCase>): (k: nat)
    ensures k <= |tests|
    ensures k < |tests| ==> IsCoveredTest(o, goal, tests[k]).covered
    ensures forall j :: 0 <= j < k ==> !IsCoveredTest(o, goal, tests[j]).covered
  {
    if |tests| == 0 then 0
    else if IsCoveredTest(o, goal, tests[0]).covered then 0
    else 1 + FirstCoveringTest(o, goal, tests[1..])
  }

  /** The number of tests of `tests` that do not record the goal, each of which a scan must run. */
  function CountUnrecorded(goal: Goal, tests: seq<TestCase>): (count: nat) {
    if |tests| == 0 then 0
    else (if IsGoalCovered(tests[0], goal) then 0 else 1) + CountUnrecorded(goal, tests[1..])
  }

  /** How many tests a scan in list order queries: up to and including the first covering one. */
  function ExaminedTests(o: Oracle, goal: Goal, tests: seq<TestCase>): (n: nat)
    ensures n <= |tests|
  {
    var k := FirstCoveringTest(o, goal, tests);
    if k < |tests| then k + 1 else |tests|
  }

  /**
   * `isCovered(List<TestCase>)`: `anyMatch` in list order, true exactly when
   * some test covers the goal.
   */
  function IsCoveredTests(o: Oracle, goal: Goal, tests: seq<TestCase>): (r: TestsCheck)
    ensures r.covered <==> exists i :: 0 <= i < |tests| && IsCoveredTest(o, goal, tests[i]).covered
    ensures |r.tests| == |tests|
  {
    if |tests| == 0 then TestsCheck(false, [], 0)
    else
      var head := IsCoveredTest(o, goal, tests[0]);
      if head.covered then
        TestsCheck(true, [head.test] + tests[1..], head.executions)
      else
        var rest := IsCoveredTests(o, goal, tests[1..]);
        assert forall i :: 1 <= i < |tests| ==> tests[i] == tests[1..][i - 1];
        TestsCheck(rest.covered, [head.test] + rest.tests, head.executions + rest.executions)
  }

  /**
   * The list scan stops at the first covering test: the tests it examined
   * are replaced by their queried versions (which may record the goal), the
   * tests after the first hit are left untouched.
   */
  lemma {:induction false} IsCoveredTestsStopsAtFirstHit(o: Oracle, goal: Goal, tests: seq<TestCase>)
    ensures var r := IsCoveredTests(o, goal, tests);
            var n := ExaminedTests(o, goal, tests);
            && (r.covered <==> FirstCoveringTest(o, goal, tests) < |tests|)
            && (forall i :: 0 <= i < n ==> r.tests[i] == IsCoveredTest(o, goal, tests[i]).test)
            && (forall i :: n <= i < |tests| ==> r.tests[i] == tests[i])
  {
    if |tests| > 0 && !IsCoveredTest(o, goal, tests[0]).covered {
      var r := IsCoveredTests(o, goal, tests);
      var n := ExaminedTests(o, goal, tests);
      var tail := tests[1..];
      var rest := IsCoveredTests(o, goal, tail);
      IsCoveredTestsStopsAtFirstHit(o, goal, tail);
      IsCoveredTestsMissStep(o, goal, tests);
      forall i | 1 <= i < n
        ensures r.tests[i] == IsCoveredTest(o, goal, tests[i]).test
      {
        assert r.tests[i] == rest.tests[i - 1] && tests[i] == tail[i - 1];
      }
      forall i | n <= i < |tests|
        ensures r.tests[i] == tests[i]
      {
        assert r.tests[i] == rest.tests[i - 1] && tests[i] == tail[i - 1];
      }
    }
  }

  /** One step of the list scan past a test that does not cover the goal. */
  lemma IsCoveredTestsMissStep(o: Oracle, goal: Goal, tests: seq<TestCase>)
    requires |tests| > 0 && !IsCoveredTest(o, goal, tests[0]).covered
    ensures IsCoveredTests(o, goal, tests).tests
            == [IsCoveredTest(o, goal, tests[0]).test] + IsCoveredTests(o, goal, tests[1..]).tests
    ensures FirstCoveringTest(o, goal, tests) == FirstCoveringTest(o, goal, tests[1..]) + 1
    ensures ExaminedTests(o, goal, tests) == ExaminedTests(o, goal, tests[1..]) + 1
  {
  }

  /** The list scan runs each examined test that does not already record the goal, once. */
  lemma {:induction false} IsCoveredTestsExecutions(o: Oracle, goal: Goal, tests: seq<TestCase>)
    ensures IsCoveredTests(o, goal, tests).executions == CountUnrecorded(goal, tests[..ExaminedTests(o, goal, tests)])
  {
    if |tests| > 0 {
      if IsCoveredTest(o, goal, tests[0]).covered {
        assert tests[..1][1..] == [];
      } else {
        var tail := tests[1..];
        IsCoveredTestsExecutions(o, goal, tail);
        var n := ExaminedTests(o, goal, tail);
        assert ExaminedTests(o, goal, tests) == n + 1;
        assert tests[..n + 1][1..] == tail[..n];
      }
    }
  }

  /**
   * `isCovered(ExecutionResult)`: the query on a chromosome built around the
   * result's test with the result cached and marked unchanged; it never runs
   * the test.
   */
  function IsCoveredResult(o: Oracle, goal: Goal, result: ExecutionResult): (r: ResultCheck)
    ensures r.executions == 0
    ensures r.covered <==> o.goalFitness(goal, ResultChromosome(result), result) == Finite(0.0)
    ensures r.covered ==> r.result.test == AddCoveredGoal(result.test, goal)
    ensures !r.covered ==> r.result == result
    ensures r.result.trace == result.trace
  {
    var tc := ResultChromosome(result);
    var check := IsCoveredWith(o, goal, tc, result);
    ResultCheck(check.covered, result.(test := check.chromosome.test), check.executions)
  }

  /** The chromosome `isCovered(ExecutionResult)` builds: the result cached, `changed` cleared. */
  function ResultChromosome(result: ExecutionResult): (tc: TestChromosome)
    ensures !NeedsExecution(tc) && GetLastExecutionResult(tc.exec) == Some(result)
    ensures tc.test == result.test && ValidTestChromosome(tc)
    ensures tc.exec.base.fitnessValues.keys == [] && tc.exec.base.coverageValues.keys == []
    ensures !tc.exec.base.localSearchApplied && tc.exec.base.numberOfEvaluations == 0
  {
    var exec := SetLastExecutionResult(NewExecutableChromosome(), result);
    TestChromosome(exec.(base := SetChanged(exec.base, false)), result.test)
  }

  /** Running the built chromosome's coverage query would not execute either: its cache is usable. */
  lemma ResultQueryNeedsNoExecution(o: Oracle, goal: Goal, result: ExecutionResult)
    ensures IsCoveredChromosome(o, goal, ResultChromosome(result)).executions == 0
  {
  }

  /** `isCoveredByResults(List<ExecutionResult>)`: `anyMatch` of the result query, in list order. */
  function IsCoveredByResults(o: Oracle, goal: Goal, results: seq<ExecutionResult>): (covered: bool)
    ensures covered <==> exists i :: 0 <= i < |results| && IsCoveredResult(o, goal, results[i]).covered
  {
    if |results| == 0 then false
    else if IsCoveredResult(o, goal, results[0]).covered then true
    else
      var covered := IsCoveredByResults(o, goal, results[1..]);
      assert forall i :: 1 <= i < |results| ==> results[i] == results[1..][i - 1];
      covered
  }

  /** Runs made by querying each chromosome of `suite` in turn. */
  function SuiteExecutions(o: Oracle, goal: Goal, suite: seq<TestChromosome>): (executions: nat) {
    if |suite| == 0 then 0
    else SuiteExecutions(o, goal, suite[..|suite| - 1]) + IsCoveredChromosome(o, goal, suite[|suite| - 1]).executions
  }

  /**
   * `isCoveredBy(TestSuiteChromosome)`: query the suite's test chromosomes in
   * order and stop at the first that covers the goal. `examined` is how many
   * were queried; the rest are left as they were.
   */
  method IsCoveredBy(o: Oracle, goal: Goal, suite: seq<TestChromosome>)
    returns (covered: bool, scanned: seq<TestChromosome>, examined: nat, executions: nat)
    ensures covered <==> exists i :: 0 <= i < |suite| && IsCoveredChromosome(o, goal, suite[i]).covered
    ensures examined <= |suite| && |scanned| == |suite|
    ensures covered ==> 0 < examined && IsCoveredChromosome(o, goal, suite[examined - 1]).covered
    ensures covered ==> forall i :: 0 <= i < examined - 1 ==> !IsCoveredChromosome(o, goal, suite[i]).covered
    ensures !covered ==> examined == |suite|
    ensures forall i :: 0 <= i < examined ==> scanned[i] == IsCoveredChromosome(o, goal, suite[i]).chromosome
    ensures forall i :: examined <= i < |suite| ==> scanned[i] == suite[i]
    ensures executions == SuiteExecutions(o, goal, suite[..examined])
  {
    scanned := suite;
    executions := 0;
    var i := 0;
    while i < |suite|
      invariant 0 <= i <= |suite| && |scanned| == |suite|
      invariant forall j :: 0 <= j < i ==> !IsCoveredChromosome(o, goal, suite[j]).covered
      invariant forall j :: 0 <= j < i ==> scanned[j] == IsCoveredChromosome(o, goal, suite[j]).chromosome
      invariant forall j :: i <= j < |suite| ==> scanned[j] == suite[j]
      invariant executions == SuiteExecutions(o, goal, suite[..i])
    {
      var check := IsCoveredChromosome(o, goal, suite[i]);
      scanned := scanned[i := check.chromosome];
      assert suite[..i + 1][..i] == suite[..i];
      executions := executions + check.executions;
      if check.covered {
        covered := true;
        examined := i + 1;
        return;
      }
      i := i + 1;
    }
    covered := false;
    examined := |suite|;
  }

  /** `isMaximizationFunction()`: a coverage goal is minimised, so `addFitness` registers it at `Double.MAX_VALUE`. */
  lemma GoalsAreMinimised(c: Chromosome, goal: Goal)
    requires Valid(c)
    ensures !IsMaximizationFunction(goal)
    ensures CachedFitness(AddFitness(c, goal), goal) == Some(MaxDouble)
  {
  }
}
