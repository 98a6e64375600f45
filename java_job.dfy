/**
 * `JavaJobRequest.execute`: the template every in-process job runs. The user's
 * `executeJob` and `rollbackJob` are not visible, so what each of them does to
 * the context result and how it ends are inputs.
 */
module JavaJob {
  import opened Wrappers
  import Context
  import Listener
  import History

  const RESULT_CODE_SUCCESS: int := 0
  const RESULT_CODE_FAILED: int := 1

  /** The user callbacks, in the order `execute` invokes them. */
  datatype Call = ExecuteJob | RollbackJob

  /** How a user callback ends: it returns, throws the checked exception of its
      signature (`ExecutionException` or `RollbackException`), or throws an
      unchecked exception. */
  datatype Ending = Returns | RaisesChecked | RaisesUnchecked

  /** What a user callback does: the value of its last `setResult` on the context
      (`None` when it sets nothing) and how it ends. */
  datatype Callback = Callback(sets: Option<Option<int>>, ending: Ending)

  /** What leaves `execute`: nothing, the `JobExecutionException` it throws, or an
      unchecked exception from a callback, which it does not catch. */
  datatype Thrown = NothingThrown | JobExecutionException | UncheckedEscapes

  /** What one run of `execute` does: the context result it leaves, the callbacks
      it invokes, and what it throws to Quartz. */
  datatype Run = Run(result: Option<int>, calls: seq<Call>, thrown: Thrown)

  /** The number of times `c` occurs in `calls`. */
  function Count(calls: seq<Call>, c: Call): nat
  {
    if calls == [] then 0 else (if calls[0] == c then 1 else 0) + Count(calls[1..], c)
  }

  /** The context result after callback `cb` ran on a context holding `before`. */
  function After(before: Option<int>, cb: Callback): Option<int>
  {
    if cb.sets.Some? then cb.sets.value else before
  }

  /**
   * The behaviour of `execute` on a context holding `before`. `executeJob` runs
   * first, once. When it returns, the result becomes 0 and nothing is thrown.
   * When it throws `ExecutionException`, the result becomes 1, `rollbackJob` runs
   * once on that context (its own write, if any, is the final result), a
   * `RollbackException` is swallowed, and `JobExecutionException` is thrown,
   * unless the rollback's unchecked exception escapes first. An unchecked
   * exception from `executeJob` skips both `setResult` calls and the rollback.
   */
  function RunOf(before: Option<int>, executeJob: Callback, rollbackJob: Callback): (r: Run)
    ensures |r.calls| > 0 && r.calls[0] == ExecuteJob
    ensures Count(r.calls, ExecuteJob) == 1
    ensures Count(r.calls, RollbackJob) == (if executeJob.ending == RaisesChecked then 1 else 0)
    ensures r.thrown == NothingThrown <==> executeJob.ending == Returns
    ensures executeJob.ending == Returns ==> r.result == Some(RESULT_CODE_SUCCESS)
    ensures executeJob.ending == RaisesChecked ==>
      && r.result == After(Some(RESULT_CODE_FAILED), rollbackJob)
      && (r.thrown == JobExecutionException <==> rollbackJob.ending != RaisesUnchecked)
    ensures executeJob.ending == RaisesUnchecked ==>
      r.result == After(before, executeJob) && r.thrown == UncheckedEscapes
  {
    match executeJob.ending
    case Returns => Run(Some(RESULT_CODE_SUCCESS), [ExecuteJob], NothingThrown)
    case RaisesUnchecked => Run(After(before, executeJob), [ExecuteJob], UncheckedEscapes)
    case RaisesChecked =>
      Run(After(Some(RESULT_CODE_FAILED), rollbackJob), [ExecuteJob, RollbackJob],
          if rollbackJob.ending == RaisesUnchecked then UncheckedEscapes else JobExecutionException)
  }

  /** A `RollbackException` is swallowed: the run is the same as when the rollback returns.
      It holds because the catch at the rollback call only logs. */
  lemma RollbackFailureIrrelevant(before: Option<int>, executeJob: Callback, sets: Option<Option<int>>)
    ensures RunOf(before, executeJob, Callback(sets, RaisesChecked)) == RunOf(before, executeJob, Callback(sets, Returns))
  {
  }

  /**
   * With the listener, for callbacks that do not set the result themselves and a
   * fresh context: the recorded result is FAILED exactly when `executeJob` did not
   * return, whatever the rollback did. A normal return records SUCCESS in any case.
   */
  lemma RecordedResult(executeJob: Callback, rollbackJob: Callback)
    ensures executeJob.ending == Returns ==>
      forall before :: Listener.ResultOf(RunOf(before, executeJob, rollbackJob).result) == History.Success
    ensures executeJob.sets.None? && rollbackJob.sets.None? ==>
      Listener.ResultOf(RunOf(None, executeJob, rollbackJob).result) ==
        (if executeJob.ending == Returns then History.Success else History.Failed)
  {
  }

  /** A rollback that sets the result to 0 makes a failed execution be recorded as SUCCESS,
      since it runs after `setResult(RESULT_CODE_FAILED)`. */
  lemma RollbackCanMaskFailure(before: Option<int>, executeSets: Option<Option<int>>, rollbackEnding: Ending)
    ensures var run := RunOf(before, Callback(executeSets, RaisesChecked),
                             Callback(Some(Some(RESULT_CODE_SUCCESS)), rollbackEnding));
      && Count(run.calls, RollbackJob) == 1
      && run.thrown != NothingThrown
      && Listener.ResultOf(run.result) == History.Success
  {
  }

  /** An unchecked exception from `executeJob` skips the rollback and leaves a fresh context's
      result null, which is recorded as FAILED. */
  lemma UncheckedSkipsRollback(executeSets: Option<Option<int>>, rollbackJob: Callback)
    requires executeSets.None? || executeSets.value != Some(RESULT_CODE_SUCCESS)
    ensures var run := RunOf(None, Callback(executeSets, RaisesUnchecked), rollbackJob);
      && Count(run.calls, RollbackJob) == 0
      && run.thrown == UncheckedEscapes
      && Listener.ResultOf(run.result) == History.Failed
  {
  }

  /**
   * `execute(jobExecutionContext)`. Runs the callbacks on the context, sets its
   * result, and returns the callbacks invoked and what was thrown.
   */
  method Execute(context: Context.JobExecutionContext, executeJob: Callback, rollbackJob: Callback)
    returns (calls: seq<Call>, thrown: Thrown)
    modifies context
    ensures context.result == RunOf(old(context.result), executeJob, rollbackJob).result
    ensures calls == RunOf(old(context.result), executeJob, rollbackJob).calls
    ensures thrown == RunOf(old(context.result), executeJob, rollbackJob).thrown
  {
    calls := [ExecuteJob];
    if executeJob.sets.Some? {
      context.SetResult(executeJob.sets.value);
    }
    match executeJob.ending {
      case Returns =>
        context.SetResult(Some(RESULT_CODE_SUCCESS));
        thrown := NothingThrown;
      case RaisesUnchecked =>
        // not caught by `catch (ExecutionException ee)`
        thrown := UncheckedEscapes;
      case RaisesChecked =>
        // catch (ExecutionException ee)
        context.SetResult(Some(RESULT_CODE_FAILED));
        calls := calls + [RollbackJob];
        if rollbackJob.sets.Some? {
          context.SetResult(rollbackJob.sets.value);
        }
        if rollbackJob.ending == RaisesUnchecked {
          thrown := UncheckedEscapes;
        } else {
          // a RollbackException is caught and logged only
          thrown := JobExecutionException;
        }
    }
  }
}
