/**
 * The part of Quartz's `JobExecutionContext` the core touches: the key name
 * of the job being executed and the result object a job may set.
 */
module Context {
  import opened Wrappers

  class JobExecutionContext {
    /** `getJobDetail().getKey().getName()`. */
    const jobName: string
    /** `getResult()`: `None` is `null` (nothing set, or a value that is not an `Integer`). */
    var result: Option<int>

    constructor(jobName: string)
      ensures this.jobName == jobName && result == None
    {
      this.jobName := jobName;
      result := None;
    }

    /** `setResult`. */
    method SetResult(r: Option<int>)
      modifies this
      ensures result == r
    {
      result := r;
    }
  }
}
