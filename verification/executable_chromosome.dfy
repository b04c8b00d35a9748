/**
 * `ExecutableChromosome`: a chromosome that additionally caches the result
 * of the last execution of the artefact it represents. The slot is
 * transient: it is not part of the serialised form and is empty after an
 * instance is restored.
 */
module ExecutableChromosomes {
  import opened Wrappers
  import opened TestCases
  import opened Chromosomes

  datatype ExecutableChromosome = ExecutableChromosome(base: Chromosome, lastExecutionResult: Option<ExecutionResult>)

  /** A freshly constructed executable chromosome: a fresh chromosome with an empty result slot. */
  function NewExecutableChromosome(): (e: ExecutableChromosome)
    ensures Valid(e.base)
    ensures GetLastExecutionResult(e).None?
    ensures e.base.changed && e.base.fitnessValues.keys == []
    ensures !e.base.localSearchApplied && e.base.numberOfEvaluations == 0
  {
    ExecutableChromosome(NewChromosome(), None)
  }

  /** `getLastExecutionResult()`: `None` stands for `null`. */
  function GetLastExecutionResult(e: ExecutableChromosome): (result: Option<ExecutionResult>) {
    e.lastExecutionResult
  }

  /** `setLastExecutionResult(result)`: fills the slot and changes nothing else. */
  function SetLastExecutionResult(e: ExecutableChromosome, result: ExecutionResult): (r: ExecutableChromosome)
    ensures GetLastExecutionResult(r) == Some(result)
    ensures r.base == e.base
  {
    e.(lastExecutionResult := Some(result))
  }

  /** `clearCachedResults()`: empties the slot; the `changed` flag and the fitness maps stay as they were. */
  function ClearCachedResults(e: ExecutableChromosome): (r: ExecutableChromosome)
    ensures GetLastExecutionResult(r).None?
    ensures r.base == e.base
  {
    e.(lastExecutionResult := None)
  }

  /** The serialised form of an executable chromosome: everything but the transient result slot. */
  function Serialize(e: ExecutableChromosome): (state: Chromosome) {
    e.base
  }

  /** Restoring an instance (`readObject`): the fields come back, the result slot is reset to `null`. */
  function Deserialize(state: Chromosome): (e: ExecutableChromosome)
    ensures GetLastExecutionResult(e).None?
    ensures Serialize(e) == state
  {
    ExecutableChromosome(state, None)
  }

  /** A serialisation round trip is exactly a cache clear. */
  lemma RestoreClearsCache(e: ExecutableChromosome)
    ensures Deserialize(Serialize(e)) == ClearCachedResults(e)
  {
  }

  /** Setting then clearing the slot returns the chromosome to its cleared state, whatever was cached. */
  lemma ClearUndoesSet(e: ExecutableChromosome, result: ExecutionResult)
    ensures ClearCachedResults(SetLastExecutionResult(e, result)) == ClearCachedResults(e)
  {
  }

  /**
   * What `getLastExecutionResult()` observes is the last write to the slot:
   * the result just set, and nothing after a clear or a restore.
   */
  lemma GetLastExecutionResultAfterWrites(e: ExecutableChromosome, result: ExecutionResult)
    ensures GetLastExecutionResult(SetLastExecutionResult(e, result)) == Some(result)
    ensures GetLastExecutionResult(ClearCachedResults(SetLastExecutionResult(e, result))).None?
    ensures GetLastExecutionResult(Deserialize(Serialize(SetLastExecutionResult(e, result)))).None?
    ensures GetLastExecutionResult(SetLastExecutionResult(ClearCachedResults(e), result)) == Some(result)
  {
  }
}
