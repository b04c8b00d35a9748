/**
 * The parts of `FitnessFunction` that act on a chromosome: recording a
 * computed fitness onto the individual, and the archive query whose default
 * has no archive to answer from.
 */
module FitnessRecording {
  import opened Wrappers
  import opened Numbers
  import opened FitnessFunctions
  import opened Chromosomes
  import opened LinkedMaps

  /**
   * `updateIndividual(individual, fitness)`: computing implies recording. The
   * fitness is set on the individual (which refuses NaN and infinities, in
   * which case nothing is counted): the old value becomes the previous one,
   * no other objective is touched, and the evaluation counter goes up by one.
   */
  function UpdateIndividual(c: Chromosome, ff: FitnessFunction, fitness: Double): (r: Result<Chromosome, IllegalArgument>)
    requires Valid(c)
    ensures r.Failure? <==> fitness.NaN? || fitness.IsInfinite()
    ensures r.Failure? ==> r.error == InvalidFitnessValue(fitness)
    ensures r.Success? ==> Valid(r.value)
    ensures r.Success? ==> CachedFitness(r.value, ff) == Some(fitness.value)
    ensures r.Success? ==> HasExecutedFitness(r.value, ff)
    ensures r.Success? ==> r.value.fitnessValues.entries == c.fitnessValues.entries[ff := fitness.value]
    ensures r.Success? ==> r.value.fitnessValues.keys == KeysAfterPut(c.fitnessValues, ff)
    ensures r.Success? && ff in c.fitnessValues.entries ==>
              r.value.previousFitnessValues.entries
              == c.previousFitnessValues.entries[ff := c.fitnessValues.entries[ff]]
    ensures r.Success? && ff !in c.fitnessValues.entries ==>
              r.value.previousFitnessValues.entries == c.previousFitnessValues.entries[ff := fitness.value]
    ensures r.Success? ==> (r.value.numberOfEvaluations - c.numberOfEvaluations - 1) % Int32Modulus == 0
    ensures r.Success? && c.numberOfEvaluations < 0x7fff_ffff ==>
              r.value.numberOfEvaluations == c.numberOfEvaluations + 1
    ensures r.Success? ==>
              && r.value.coverageValues == c.coverageValues
              && r.value.numsCoveredGoals == c.numsCoveredGoals
              && r.value.numsNotCoveredGoals == c.numsNotCoveredGoals
              && r.value.changed == c.changed
              && r.value.localSearchApplied == c.localSearchApplied
  {
    match SetFitness(c, ff, fitness)
    case Failure(e) => Failure(e)
    case Success(d) => Success(IncreaseNumberOfEvaluations(d))
  }

  /** `getBestStoredIndividual()`: a fitness function without an archive stores no individual. */
  function GetBestStoredIndividual(ff: FitnessFunction): (best: Option<Chromosome>)
    ensures best.None?
  {
    None
  }
}
