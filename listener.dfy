/**
 * `JobExecutionListener`: the Quartz job listener that turns the end of every
 * execution into one history record.
 */
module Listener {
  import opened Wrappers
  import History
  import Context

  /** `EXECUTION_SUCCESS_CODE`. */
  const EXECUTION_SUCCESS_CODE: int := 0

  /** The result column written for a context result, as `Objects.equals(result, 0)` decides it. */
  function ResultOf(code: Option<int>): (r: History.Result)
    ensures r == History.Success <==> code == Some(EXECUTION_SUCCESS_CODE)
    ensures r == History.Failed <==> code != Some(EXECUTION_SUCCESS_CODE)
  {
    if code == Some(EXECUTION_SUCCESS_CODE) then History.Success else History.Failed
  }

  /** A missing (`null`) result and every nonzero exit code count as a failure. */
  lemma NullOrNonzeroFails(code: Option<int>)
    requires code.None? || code.value != EXECUTION_SUCCESS_CODE
    ensures ResultOf(code) == History.Failed
  {
  }

  class JobExecutionListener {
    const historyRepository: History.HistoryRepository

    constructor(historyRepository: History.HistoryRepository)
      ensures this.historyRepository == historyRepository
    {
      this.historyRepository := historyRepository;
    }

    /** `jobToBeExecuted`: a no-op. */
    method JobToBeExecuted(context: Context.JobExecutionContext)
      ensures historyRepository.records == old(historyRepository.records)
    {
    }

    /** `jobExecutionVetoed`: a no-op. */
    method JobExecutionVetoed(context: Context.JobExecutionContext)
      ensures historyRepository.records == old(historyRepository.records)
    {
    }

    /**
     * `jobWasExecuted`: saves exactly one record, for the context's job, stamped
     * with the clock reading `now`, SUCCESS exactly when the context result is 0.
     */
    method JobWasExecuted(context: Context.JobExecutionContext, now: nat)
      modifies historyRepository
      ensures historyRepository.records ==
        old(historyRepository.records) + [History.Record(context.jobName, now, ResultOf(context.result))]
    {
      var jobExecutionHistory := History.Record(context.jobName, now, ResultOf(context.result));
      historyRepository.Save(jobExecutionHistory);
    }
  }
}
