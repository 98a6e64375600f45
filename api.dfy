/**
 * The public vocabulary of the job service: job requests, job information,
 * the four job states and the four error kinds its operations raise
 * (package `api` and the `domain` request/info classes).
 */
module Api {
  import opened Wrappers

  /** The priority a trigger gets when the request carries none
      (`JobRequest.DEFAULT_PRIORITY`, equal to Quartz's `Trigger.DEFAULT_PRIORITY`). */
  const DEFAULT_PRIORITY: int := 5

  /** A request to register or replace a job. `priority` is a nullable `Integer`.
      A native request runs a shell command; a Java request names the user class
      that extends `JavaJobRequest`. */
  datatype JobRequest =
    | NativeJobRequest(name: string, command: string, cron: string, priority: Option<int>)
    | JavaJobRequest(name: string, jobClass: string, cron: string, priority: Option<int>)

  /** `JobInfo.State`. */
  datatype State = Queued | Running | Success | Failed

  /** `NativeJobInfo` and `JavaJobInfo`: what `getJobInfo` reports. */
  datatype JobInfo =
    | NativeJobInfo(name: string, command: string, cron: string, priority: int, state: State)
    | JavaJobInfo(name: string, cron: string, priority: int, state: State)

  /** The checked exceptions of `JobService`. */
  datatype JobServiceError =
    | IncorrectJobRequest
    | JobAlreadyExists
    | JobIsNotFound
    | JobIsCurrentlyRunning

  /** The outcome of an operation that returns `void` or throws. */
  datatype Outcome = Pass | Fail(error: JobServiceError)
}
