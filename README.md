# Job service: a Dafny model of the job registry and its completion hooks

The job service lets callers register named jobs, each with a cron expression, a
priority and a payload. A payload is either a native shell command or an in-process
Java task. The service then runs the jobs on a Quartz scheduler and reports each job's
state: QUEUED, RUNNING, SUCCESS or FAILED. This project models the core of the service.

- `JobServiceImpl`: `create`, `execute`, `update`, `delete`, `getJobInfo` and
  `getAllJobs`, with their guard checks and their fixed error order. The model also
  covers the private helpers: the state derivation, the running-job scan,
  `buildCronTrigger` with its default priority, and `buildJobDetail`.
- `JobExecutionListener`: turns every completed execution into one history record.
- `JavaJobRequest.execute`: the in-process template. It calls `executeJob`, sets the
  result code, and on an `ExecutionException` calls `rollbackJob` once, swallows a
  `RollbackException` and rethrows. The user callbacks are inputs: each may set the
  context result and may end by returning, by its checked exception, or by an
  unchecked one.
- `JobExecutionHistoryRepository`: saves records, finds a job's latest record, and
  purges a job's records.

Files and modules:

- `api.dfy` (`Api`): requests, job infos, the four states and the four error kinds.
- `history.dfy` (`History`): the history record, the latest-record query, the purge,
  and the repository class.
- `context.dfy` (`Context`): the slice of Quartz's execution context the core reads and
  writes.
- `listener.dfy` (`Listener`)
- `java_job.dfy` (`JavaJob`)
- `registry.dfy` (`Registry`): the abstract service state and one pure function per
  operation and per lifecycle step. Also the single-step properties.
- `job_service.dfy` (`JobService`): the class `JobServiceImpl`. Its methods carry out
  the same guard sequence as the Java code and are proved equal to the `Registry`
  functions.
- `scenarios.dfy` (`Scenarios`): multi-step properties that follow the integration
  tests.

The service state has these parts:

- the job store, a map from job name to cron, priority and payload;
- the set of currently executing job names;
- the pending one-shot triggers that manual `execute` calls have added;
- the history table, as a sequence of records;
- a natural-number clock.

Quartz's cron parser is not visible, so it is the function-valued constant
`validCron`, fixed when the service is constructed. An execution is made of explicit
steps:

- `Start` adds the job to the running set. It is a cron fire or consumes a pending
  manual fire.
- Setting the context result stands in for the payload. The native exit code is an
  input; a Java task's result is set by `JavaJob.Execute`.
- `Finish` removes the job from the running set and calls the listener, which saves
  one record stamped with the clock.

Two behaviours of the code differ from what a reader of the API would expect. The
model follows the code:

- One would expect `update` to validate the new request before it touches the old
  job, with no change on failure. As written, it deletes the old job
  (`JobServiceImpl.java:104`) before it builds the new cron trigger
  (`JobServiceImpl.java:110-111`). So an update with a rejected cron raises
  IncorrectJobRequest after the old job is already gone
  (`Registry.UpdateInvalidCronDropsJob`, `Scenarios.FailedUpdateLosesJob`).
- `update` never purges history. A job lost this way and then created again therefore
  reports its old latest result, not QUEUED (`Scenarios.RecreatedAfterFailedUpdateKeepsState`).

## Model

| member | source | states |
|---|---|---|
| `History.FindTopByJobName` | src/main/java/com/ail/optile/jobservice/repository/JobExecutionHistoryRepository.java:8 | none exactly when no record has the job's name; otherwise a stored record of that job whose completion date is at least that of every record of the job |
| `History.RecordsOf` | src/main/java/com/ail/optile/jobservice/repository/JobExecutionHistoryRepository.java:10 | not a query of the source: a reference view, exactly the stored records with a given name, in their order; the purge lemmas are stated with it |
| `History.WithoutJob` | src/main/java/com/ail/optile/jobservice/repository/JobExecutionHistoryRepository.java:10 | what the purge keeps: exactly the stored records of other jobs, never more records than before; the order it keeps is `History.WithoutJobInOrder` |
| `History.WithoutJobInOrder` | src/main/java/com/ail/optile/jobservice/repository/JobExecutionHistoryRepository.java:10 | the purge keeps the other jobs' records as an order-preserving subsequence: each kept record sits at one of strictly increasing positions of the old table, and every record of another job is kept |
| `History.WithoutJobRemovesAll` | src/main/java/com/ail/optile/jobservice/repository/JobExecutionHistoryRepository.java:10 | after `deleteAllByJobName(name)` no record of `name` remains |
| `History.WithoutJobKeepsOthers` | src/main/java/com/ail/optile/jobservice/repository/JobExecutionHistoryRepository.java:10 | the purge leaves every other job's records unchanged and in their order |
| `History.WithoutJobKeepsOthersTop` | src/main/java/com/ail/optile/jobservice/repository/JobExecutionHistoryRepository.java:8-10 | the purge does not change the latest record of any other job |
| `History.WithoutAbsentJob` | src/main/java/com/ail/optile/jobservice/repository/JobExecutionHistoryRepository.java:10 | purging a job that has no records changes nothing |
| `History.SaveBecomesTop` | src/main/java/com/ail/optile/jobservice/repository/JobExecutionHistoryRepository.java:6-8 | a saved record stamped no earlier than its job's other records becomes that job's latest record; other jobs' latest records are unaffected |
| `History.HistoryRepository.constructor` | src/main/java/com/ail/optile/jobservice/repository/JobExecutionHistoryRepository.java:6 | a repository holding the given rows |
| `History.HistoryRepository.Save` | src/main/java/com/ail/optile/jobservice/pdo/JobExecutionHistory.java:24-34 | `save` appends the new row and leaves every existing row as it was (the columns are not updatable) |
| `History.HistoryRepository.DeleteAllByJobName` | src/main/java/com/ail/optile/jobservice/repository/JobExecutionHistoryRepository.java:10 | afterwards no row of the job remains and every other job's rows are unchanged and in order |
| `Listener.ResultOf` | src/main/java/com/ail/optile/jobservice/listener/JobExecutionListener.java:47-49 | SUCCESS exactly when the context result equals 0, FAILED otherwise |
| `Listener.NullOrNonzeroFails` | src/main/java/com/ail/optile/jobservice/listener/JobExecutionListener.java:20 | a null result and every nonzero result give FAILED |
| `Listener.JobExecutionListener.constructor` | src/main/java/com/ail/optile/jobservice/listener/JobExecutionListener.java:24-27 | the listener writes to the given repository |
| `Listener.JobExecutionListener.JobToBeExecuted` | src/main/java/com/ail/optile/jobservice/listener/JobExecutionListener.java:35-36 | changes nothing |
| `Listener.JobExecutionListener.JobExecutionVetoed` | src/main/java/com/ail/optile/jobservice/listener/JobExecutionListener.java:39-40 | changes nothing |
| `Listener.JobExecutionListener.JobWasExecuted` | src/main/java/com/ail/optile/jobservice/listener/JobExecutionListener.java:43-53 | appends exactly one record: the executed job's name, the clock reading, and the result mapped from the context result |
| `JavaJob.RunOf` | src/main/java/com/ail/optile/jobservice/domain/JavaJobRequest.java:29-45 | `executeJob` is called once and first. On a normal return the result is 0 and nothing is thrown. On `ExecutionException` the result is set to 1, then `rollbackJob` runs exactly once and its own write, if any, is final; JobExecutionException is thrown unless the rollback's unchecked exception escapes. On an unchecked exception from `executeJob` neither `setResult` runs, there is no rollback, and the exception escapes |
| `JavaJob.RollbackFailureIrrelevant` | src/main/java/com/ail/optile/jobservice/domain/JavaJobRequest.java:37-41 | a `RollbackException` is swallowed: the run is identical to one whose rollback returns |
| `JavaJob.RecordedResult` | src/main/java/com/ail/optile/jobservice/domain/JavaJobRequest.java:30-34 | with the listener, a normal return of `executeJob` is always recorded SUCCESS; when neither callback sets the result itself, a fresh context is recorded FAILED exactly when `executeJob` did not return, whether or not the rollback raised |
| `JavaJob.RollbackCanMaskFailure` | src/main/java/com/ail/optile/jobservice/domain/JavaJobRequest.java:34-38 | a rollback that sets the result to 0 makes an execution that threw `ExecutionException` be recorded SUCCESS, although `execute` still throws |
| `JavaJob.UncheckedSkipsRollback` | src/main/java/com/ail/optile/jobservice/domain/JavaJobRequest.java:30-33 | an unchecked exception from `executeJob` skips the rollback and escapes; on a fresh context where the callback set no result, or one other than 0, the run is recorded FAILED |
| `JavaJob.Execute` | src/main/java/com/ail/optile/jobservice/domain/JavaJobRequest.java:29-45 | runs the callbacks on the context and returns the callbacks invoked and what it threw; the context result, calls and thrown exception are those of `RunOf` |
| `Context.JobExecutionContext.SetResult` | src/main/java/com/ail/optile/jobservice/domain/JavaJobRequest.java:32-34 | the context result becomes the given value |
| `Registry.BuildJobDetail` | src/main/java/com/ail/optile/jobservice/service/JobServiceImpl.java:276-293 | the detail carries the request's name; a native request gives a native payload with its command, a Java request a Java payload with its class |
| `Registry.BuildCronTrigger` | src/main/java/com/ail/optile/jobservice/service/JobServiceImpl.java:263-274 | IncorrectJobRequest exactly when the parser rejects the cron; otherwise that cron, with the request's priority, or 5 when it has none |
| `Registry.JobState` | src/main/java/com/ail/optile/jobservice/service/JobServiceImpl.java:198-217 | RUNNING exactly when the job is executing. QUEUED exactly when it is not executing and has no record. Otherwise SUCCESS or FAILED, the result of a record of the job with the latest completion date |
| `Registry.JobInfoOf` | src/main/java/com/ail/optile/jobservice/service/JobServiceImpl.java:167-191 | the info carries the job's own name |
| `Registry.GetJobInfo` | src/main/java/com/ail/optile/jobservice/service/JobServiceImpl.java:139-149 | JobIsNotFound exactly for an unregistered name. Otherwise the stored cron and priority, the command for a native job, and the derived state |
| `Registry.ScheduleJob` | src/main/java/com/ail/optile/jobservice/service/JobServiceImpl.java:51 | the detail's job is stored with the trigger's cron and priority and its payload; every other job, the running set, pending fires, history and clock are unchanged |
| `Registry.DeleteJob` | src/main/java/com/ail/optile/jobservice/service/JobServiceImpl.java:104 | the job leaves the store with all its pending manual fires; every other job and pending fire, the running set, history and clock are unchanged |
| `Registry.Create` | src/main/java/com/ail/optile/jobservice/service/JobServiceImpl.java:39-57 | JobAlreadyExists exactly for a registered name, else IncorrectJobRequest exactly for a rejected cron, else success; failures change nothing; success registers the name and keeps the history (details in `Registry.CreateRegisters`) |
| `Registry.Execute` | src/main/java/com/ail/optile/jobservice/service/JobServiceImpl.java:59-72 | JobIsNotFound exactly for an unregistered name, else JobIsCurrentlyRunning exactly for an executing job, else success; failures change nothing; success adds one pending manual fire and changes neither the jobs, the running set nor the history |
| `Registry.Update` | src/main/java/com/ail/optile/jobservice/service/JobServiceImpl.java:97-120 | JobIsNotFound, else JobIsCurrentlyRunning, each with no change; else IncorrectJobRequest exactly for a rejected cron, with the job then gone; else success with the same job names. The history and the running set never change |
| `Registry.Delete` | src/main/java/com/ail/optile/jobservice/service/JobServiceImpl.java:122-137 | JobIsNotFound, else JobIsCurrentlyRunning, each with no change; else success, after which the job, its pending fires and all and only its records are gone |
| `Registry.Start` | src/main/java/com/ail/optile/jobservice/listener/JobExecutionListener.java:35-36 | a fire of a registered job: the job joins the executing jobs, a manual fire consumes one pending manual trigger; jobs, history and clock are unchanged |
| `Registry.Finish` | src/main/java/com/ail/optile/jobservice/listener/JobExecutionListener.java:43-51 | the job leaves the executing jobs and exactly one record is appended after the existing ones: the job's name, the clock reading, SUCCESS exactly for result 0 |
| `Registry.ListingCountsJobs` | src/main/java/com/ail/optile/jobservice/service/JobServiceImpl.java:151-165 | a `getAllJobs` listing (`Registry.IsJobListing`) has exactly as many entries as there are registered jobs, each what `getJobInfo` answers for its name |
| `Registry.DeleteJobKeepsValid` | src/main/java/com/ail/optile/jobservice/service/JobServiceImpl.java:130 | removing a job that is not running keeps the state invariant: only registered jobs run or have pending manual fires, and no record is stamped later than the clock |
| `Registry.CreateKeepsValid` | src/main/java/com/ail/optile/jobservice/service/JobServiceImpl.java:39-57 | `create` keeps the state invariant, on every path |
| `Registry.ExecuteKeepsValid` | src/main/java/com/ail/optile/jobservice/service/JobServiceImpl.java:59-72 | `execute` keeps the state invariant, on every path: a pending manual fire always names a registered job |
| `Registry.UpdateKeepsValid` | src/main/java/com/ail/optile/jobservice/service/JobServiceImpl.java:97-120 | `update` keeps the state invariant on every path, including the one that leaves the job deleted |
| `Registry.DeleteKeepsValid` | src/main/java/com/ail/optile/jobservice/service/JobServiceImpl.java:122-137 | `delete` keeps the state invariant, on every path |
| `Registry.LifecycleKeepsValid` | src/main/java/com/ail/optile/jobservice/listener/JobExecutionListener.java:42-53 | starting, finishing and the clock advancing keep the state invariant |
| `Registry.CreateExisting` | src/main/java/com/ail/optile/jobservice/service/JobServiceImpl.java:42-45 | `create` of a registered name raises JobAlreadyExists and changes nothing, whatever the cron |
| `Registry.CreateInvalidCron` | src/main/java/com/ail/optile/jobservice/service/JobServiceImpl.java:47-51 | `create` with a rejected cron raises IncorrectJobRequest and registers nothing |
| `Registry.CreateRegisters` | src/main/java/com/ail/optile/jobservice/service/JobServiceImpl.java:47-51 | a successful `create` adds exactly the new job, with the request's cron, payload and priority (default 5). Other jobs, the running set, pending fires and history are unchanged |
| `Registry.CreatedIsQueued` | src/main/java/com/ail/optile/jobservice/service/JobServiceImpl.java:198-216 | a newly created job with no history records reports QUEUED |
| `Registry.UnknownJobIsNotFound` | src/main/java/com/ail/optile/jobservice/service/JobServiceImpl.java:90-95 | `execute`, `update`, `delete` and `getJobInfo` of an unregistered name raise JobIsNotFound before any other check, with no change |
| `Registry.RunningJobIsGuarded` | src/main/java/com/ail/optile/jobservice/service/JobServiceImpl.java:74-79 | `execute`, `update` and `delete` of an executing job raise JobIsCurrentlyRunning and change nothing, whatever the new cron |
| `Registry.ExecuteAddsManualFire` | src/main/java/com/ail/optile/jobservice/service/JobServiceImpl.java:59-72 | a successful `execute` adds one pending manual fire. The stored cron and priority, the running set and the history do not change |
| `Registry.UpdateReplaces` | src/main/java/com/ail/optile/jobservice/service/JobServiceImpl.java:99-120 | a successful `update` replaces the job's cron, priority and payload. It keeps the job's history and drops its pending manual fires |
| `Registry.UpdateInvalidCronDropsJob` | src/main/java/com/ail/optile/jobservice/service/JobServiceImpl.java:104-111 | `update` with a rejected cron raises IncorrectJobRequest and leaves the job deleted; the history is untouched |
| `Registry.DeletePurges` | src/main/java/com/ail/optile/jobservice/service/JobServiceImpl.java:130-131 | a successful `delete` removes the job and all its records. Other jobs' records stay unchanged and in order. A later `getJobInfo` raises JobIsNotFound |
| `Registry.DeleteKeepsOtherStates` | src/main/java/com/ail/optile/jobservice/service/JobServiceImpl.java:122-137 | deleting one job does not change any other job's reported state |
| `Registry.FinishRecordsState` | src/main/java/com/ail/optile/jobservice/listener/JobExecutionListener.java:42-53 | once an execution completes, the job's state is the recorded result: SUCCESS exactly for result 0. Other jobs' states do not change. This depends on the invariant that no record is stamped later than the clock and on the tie rule of `History.FindTopByJobName` |
| `Registry.FinishAppendsOne` | src/main/java/com/ail/optile/jobservice/listener/JobExecutionListener.java:44-51 | each completion appends exactly one record, for the executed job, after the existing ones |
| `Registry.StartedIsRunning` | src/main/java/com/ail/optile/jobservice/service/JobServiceImpl.java:199-201 | a started job reports RUNNING, also through `getJobInfo` |
| `JobService.JobServiceImpl.constructor` | src/main/java/com/ail/optile/jobservice/service/JobServiceImpl.java:33-37 | a valid service with no jobs over the given repository |
| `JobService.JobServiceImpl.ScheduleJob` | src/main/java/com/ail/optile/jobservice/service/JobServiceImpl.java:51 | registers the detail with its trigger |
| `JobService.JobServiceImpl.DeleteJob` | src/main/java/com/ail/optile/jobservice/service/JobServiceImpl.java:130 | removes the job and its pending triggers |
| `JobService.JobServiceImpl.CheckJobIsCurrentlyRunning` | src/main/java/com/ail/optile/jobservice/service/JobServiceImpl.java:81-88 | true exactly when the name is among the executing jobs. `isJobRunning` at lines 219-229 is the same scan, since every job is in the default group |
| `JobService.JobServiceImpl.GetJobState` | src/main/java/com/ail/optile/jobservice/service/JobServiceImpl.java:198-217 | the derived state `Registry.JobState` describes |
| `JobService.JobServiceImpl.GetJobInfoByKey` | src/main/java/com/ail/optile/jobservice/service/JobServiceImpl.java:167-191 | the info of a registered job: native with its command, or Java; with its cron, priority and derived state |
| `JobService.JobServiceImpl.GetJobInfo` | src/main/java/com/ail/optile/jobservice/service/JobServiceImpl.java:139-149 | the answer `Registry.GetJobInfo` describes |
| `JobService.JobServiceImpl.GetAllJobs` | src/main/java/com/ail/optile/jobservice/service/JobServiceImpl.java:151-165 | exactly one entry per registered job, each as `getJobInfo` reports it; an empty list when no job is registered |
| `JobService.JobServiceImpl.Create` | src/main/java/com/ail/optile/jobservice/service/JobServiceImpl.java:39-57 | the new state and outcome are those of `Registry.Create`, and the invariant holds |
| `JobService.JobServiceImpl.Execute` | src/main/java/com/ail/optile/jobservice/service/JobServiceImpl.java:59-72 | the new state and outcome are those of `Registry.Execute`, and the invariant holds |
| `JobService.JobServiceImpl.Update` | src/main/java/com/ail/optile/jobservice/service/JobServiceImpl.java:97-120 | the new state and outcome are those of `Registry.Update`, and the invariant holds |
| `JobService.JobServiceImpl.Delete` | src/main/java/com/ail/optile/jobservice/service/JobServiceImpl.java:122-137 | the new state and outcome are those of `Registry.Delete`, and the invariant holds |
| `JobService.JobServiceImpl.Start` | src/main/java/com/ail/optile/jobservice/listener/JobExecutionListener.java:35-36 | the job joins the executing jobs (consuming a manual fire if it was one) with a fresh context holding no result |
| `JobService.JobServiceImpl.Finish` | src/main/java/com/ail/optile/jobservice/listener/JobExecutionListener.java:43-51 | the job leaves the executing jobs and one record stamped with the clock is saved |
| `JobService.JobServiceImpl.AdvanceClock` | src/main/java/com/ail/optile/jobservice/listener/JobExecutionListener.java:46 | the completion-time clock only moves forward |
| `Scenarios.NativeLifecycle` | src/test/java/com/ail/optile/jobservice/it/NativeJobIntegrationTest.java:173-224 | create (QUEUED, priority 5), manual run (RUNNING), exit 0 (SUCCESS), update with new command, cron and priority 10, exit nonzero (FAILED), delete, then JobIsNotFound |
| `Scenarios.JavaLifecycle` | src/test/java/com/ail/optile/jobservice/it/JavaJobIntegrationTest.java:51-78 | a Java job whose `executeJob` throws `ExecutionException` ends FAILED however its rollback ends, when neither callback sets the result, and can then be deleted |
| `Scenarios.CreateTwice` | src/test/java/com/ail/optile/jobservice/it/NativeJobIntegrationTest.java:72-89 | a second `create` of the same request raises JobAlreadyExists and keeps the first registration |
| `Scenarios.SecondRunRefused` | src/test/java/com/ail/optile/jobservice/it/NativeJobIntegrationTest.java:128-171 | while a manual run executes, `execute`, `update` and `delete` of the job raise JobIsCurrentlyRunning with no change |
| `Scenarios.FailedUpdateLosesJob` | src/main/java/com/ail/optile/jobservice/service/JobServiceImpl.java:99-120 | after an update with a rejected cron, a job that was found before is no longer found |
| `Scenarios.RecreatedAfterFailedUpdateKeepsState` | src/main/java/com/ail/optile/jobservice/service/JobServiceImpl.java:99-131 | a job lost by a failed update keeps its history, so re-creating it reports its old result, not QUEUED |
| `Scenarios.JavaLifecycleOnService` | src/test/java/com/ail/optile/jobservice/it/JavaJobIntegrationTest.java:60-73 | the Java lifecycle through the service object and the real `execute` template ends with `getJobInfo` reporting FAILED with priority 5 |

## Left out

- Quartz internals: cron parsing, next-fire computation, the worker pool,
  priority-ordered dispatch and misfire handling belong to a library that is not part
  of this model. Cron validity is the opaque `validCron`. A fire is the `Start` step,
  taken whenever the environment chooses.
- Concurrency: each operation and each lifecycle step is one atomic step. The
  executing jobs form a set, so two overlapping executions of one job collapse into
  one entry, and the first `Finish` removes it. The unguarded window between the
  running check and `triggerJob` in `execute` is not modelled.
- Native process execution: the `NativeJob` class is not part of this model. Process
  spawning and stream handling are OS I/O. A native run's exit code enters as the
  context result.
- Infrastructure failures: SchedulerException and the UnexpectedException it becomes
  are not modelled.
- `BuildJobDetail`: never fails here. The source wraps `JobBuilder` errors as
  IncorrectJobRequest, but none can arise for the requests modelled.
- `@Transactional` on `create`, `update` and `delete`: its effect depends on Spring and
  the job-store configuration. The model does not roll anything back.
- `getJobCron` and `getJobPriority` (loop over triggers, `get(0)`): each job keeps
  exactly one cron trigger, whose cron and priority are reported. The source's
  `get(0)` might return the priority of a pending manual trigger instead; that case is
  not modelled.
- `History.FindTopByJobName`: among records with equal completion dates the source's
  query order is unspecified; the model picks the last one saved. `Registry.FinishRecordsState`
  relies on this choice: in the source, two completions of one job within the same
  millisecond may report either result.
- `JavaJob.RunOf`: a user callback is reduced to its last `setResult` on the context and
  to how it ends (returns, its checked exception, an unchecked one). Its other uses of the
  context (job data, the scheduler) are not modelled. What Quartz does with an exception
  that escapes `execute` is Quartz's part; the listener's `Finish` step still records the
  context result.
- Dates: completion dates are readings of a natural-number clock, advanced by
  `AdvanceClock`.
- Context results: a context result that is not an `Integer` is treated as null.
- The `JobExecutionException` argument of `jobWasExecuted`, which the source ignores,
  is not modelled.
- The listener's `getName` is not modelled.
- The REST layer, exception mapping and DTOs are transport: `JobServiceRestController`,
  the REST exception classes and the DTO classes.
- Wiring and no-op classes: `AppConfiguration`, `JobServiceApplication`,
  `JobTriggerListener` and `Utils`.
- The legacy types `service/JobService.java` and `domain/Job.java` are not modelled.
