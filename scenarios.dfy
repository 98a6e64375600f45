/**
 * Multi-step properties of the job service: the lifecycles the integration
 * tests walk through, and the consequences of `update` deleting the old job
 * before it validates the new cron.
 */
module Scenarios {
  import opened Wrappers
  import opened Api
  import History
  import Listener
  import JavaJob
  import Registry
  import JobService

  /**
   * The native lifecycle: create (QUEUED, default priority), run manually
   * (RUNNING), exit 0 (SUCCESS), update command, cron and priority, run again
   * and exit nonzero (FAILED), delete, after which the job is not found.
   */
  lemma NativeLifecycle(s0: Registry.ServiceState, name: string, command: string, cron: string,
                        command2: string, cron2: string, priority2: int, exitCode2: int,
                        validCron: string -> bool)
    requires Registry.Valid(s0) && name !in s0.jobs && !History.HasRecordFor(s0.history, name)
    requires validCron(cron) && validCron(cron2) && exitCode2 != 0
    ensures
      var req := NativeJobRequest(name, command, cron, None);
      var c := Registry.Create(s0, req, validCron);
      && c.outcome == Pass
      && Registry.GetJobInfo(c.state, name) == Ok(NativeJobInfo(name, command, cron, 5, Queued))
      && var e := Registry.Execute(c.state, name);
      && e.outcome == Pass
      && var r := Registry.Start(e.state, name, true);
      && Registry.JobState(r, name) == Running
      && var f := Registry.Finish(r, name, Some(0));
      && Registry.JobState(f, name) == Success
      && var req2 := NativeJobRequest(name, command2, cron2, Some(priority2));
      && var u := Registry.Update(f, req2, validCron);
      && u.outcome == Pass
      && Registry.GetJobInfo(u.state, name) == Ok(NativeJobInfo(name, command2, cron2, priority2, Success))
      && var e2 := Registry.Execute(u.state, name);
      && e2.outcome == Pass
      && var f2 := Registry.Finish(Registry.Start(e2.state, name, true), name, Some(exitCode2));
      && Registry.JobState(f2, name) == Failed
      && var d := Registry.Delete(f2, name);
      && d.outcome == Pass
      && Registry.GetJobInfo(d.state, name) == Err(JobIsNotFound)
  {
    var req := NativeJobRequest(name, command, cron, None);
    var c := Registry.Create(s0, req, validCron);
    Registry.CreateKeepsValid(s0, req, validCron);
    var e := Registry.Execute(c.state, name);
    Registry.ExecuteKeepsValid(c.state, name);
    var r := Registry.Start(e.state, name, true);
    Registry.LifecycleKeepsValid(e.state, name, true, None, 0);
    var f := Registry.Finish(r, name, Some(0));
    Registry.FinishRecordsState(r, name, Some(0), name);
    Registry.LifecycleKeepsValid(r, name, false, Some(0), 0);
    var req2 := NativeJobRequest(name, command2, cron2, Some(priority2));
    var u := Registry.Update(f, req2, validCron);
    Registry.UpdateKeepsValid(f, req2, validCron);
    var e2 := Registry.Execute(u.state, name);
    Registry.ExecuteKeepsValid(u.state, name);
    var r2 := Registry.Start(e2.state, name, true);
    Registry.LifecycleKeepsValid(e2.state, name, true, None, 0);
    Registry.FinishRecordsState(r2, name, Some(exitCode2), name);
    var f2 := Registry.Finish(r2, name, Some(exitCode2));
    Registry.DeletePurges(f2, name);
  }

  /**
   * The in-process lifecycle: a Java job whose `executeJob` throws
   * `ExecutionException` ends in FAILED, however its rollback ends, as long as
   * neither callback sets the result itself, and can then be deleted.
   */
  lemma JavaLifecycle(s0: Registry.ServiceState, name: string, jobClass: string, cron: string,
                      rollbackEnding: JavaJob.Ending, validCron: string -> bool)
    requires Registry.Valid(s0) && name !in s0.jobs && !History.HasRecordFor(s0.history, name)
    requires validCron(cron)
    ensures
      var req := JavaJobRequest(name, jobClass, cron, None);
      var c := Registry.Create(s0, req, validCron);
      && c.outcome == Pass
      && Registry.GetJobInfo(c.state, name) == Ok(JavaJobInfo(name, cron, 5, Queued))
      && var e := Registry.Execute(c.state, name);
      && e.outcome == Pass
      && var run := JavaJob.RunOf(None, JavaJob.Callback(None, JavaJob.RaisesChecked),
                                  JavaJob.Callback(None, rollbackEnding));
      && run.thrown != JavaJob.NothingThrown
      && var f := Registry.Finish(Registry.Start(e.state, name, true), name, run.result);
      && Registry.JobState(f, name) == Failed
      && Registry.Delete(f, name).outcome == Pass
  {
    var req := JavaJobRequest(name, jobClass, cron, None);
    var c := Registry.Create(s0, req, validCron);
    Registry.CreateKeepsValid(s0, req, validCron);
    var e := Registry.Execute(c.state, name);
    Registry.ExecuteKeepsValid(c.state, name);
    var r := Registry.Start(e.state, name, true);
    Registry.LifecycleKeepsValid(e.state, name, true, None, 0);
    var run := JavaJob.RunOf(None, JavaJob.Callback(None, JavaJob.RaisesChecked),
                             JavaJob.Callback(None, rollbackEnding));
    Registry.FinishRecordsState(r, name, run.result, name);
  }

  /** Creating the same job twice: the second call is JobAlreadyExists and keeps the first
      registration. */
  lemma CreateTwice(s0: Registry.ServiceState, req: JobRequest, validCron: string -> bool)
    requires req.name !in s0.jobs && validCron(req.cron)
    ensures
      var c := Registry.Create(s0, req, validCron);
      && c.outcome == Pass
      && Registry.Create(c.state, req, validCron) == Registry.Step(c.state, Fail(JobAlreadyExists))
  {
  }

  /** A second manual run while the first is executing is refused, and so are update and
      delete; nothing changes. */
  lemma SecondRunRefused(s0: Registry.ServiceState, req: JobRequest, validCron: string -> bool)
    requires req.name in s0.jobs && req.name !in s0.running
    ensures
      var e := Registry.Execute(s0, req.name);
      && e.outcome == Pass
      && var r := Registry.Start(e.state, req.name, true);
      && Registry.Execute(r, req.name) == Registry.Step(r, Fail(JobIsCurrentlyRunning))
      && Registry.Update(r, req, validCron) == Registry.Step(r, Fail(JobIsCurrentlyRunning))
      && Registry.Delete(r, req.name) == Registry.Step(r, Fail(JobIsCurrentlyRunning))
  {
  }

  /** `update` with a rejected cron, followed by `getJobInfo`: the old job is not found, not
      unchanged, because `deleteJob` runs before the new cron trigger is built. */
  lemma FailedUpdateLosesJob(s0: Registry.ServiceState, req: JobRequest, validCron: string -> bool)
    requires req.name in s0.jobs && req.name !in s0.running && !validCron(req.cron)
    ensures
      var u := Registry.Update(s0, req, validCron);
      && u.outcome == Fail(IncorrectJobRequest)
      && Registry.GetJobInfo(s0, req.name).Ok?
      && Registry.GetJobInfo(u.state, req.name) == Err(JobIsNotFound)
  {
  }

  /**
   * A job lost by a failed update keeps its history, since only `delete` purges it.
   * Re-creating it therefore reports the old latest result, not QUEUED.
   */
  lemma RecreatedAfterFailedUpdateKeepsState(s0: Registry.ServiceState, bad: JobRequest, good: JobRequest,
                                             validCron: string -> bool)
    requires Registry.Valid(s0) && bad.name in s0.jobs && bad.name !in s0.running
    requires History.HasRecordFor(s0.history, bad.name)
    requires good.name == bad.name && !validCron(bad.cron) && validCron(good.cron)
    ensures
      var u := Registry.Update(s0, bad, validCron);
      var c := Registry.Create(u.state, good, validCron);
      && u.outcome == Fail(IncorrectJobRequest)
      && c.outcome == Pass
      && Registry.JobState(c.state, good.name) == Registry.JobState(s0, good.name)
      && Registry.JobState(c.state, good.name) != Queued
  {
  }

  /**
   * The same Java lifecycle driven through the service object: create, manual
   * execute, a worker starts the fire and runs `JavaJobRequest.execute` with an
   * `executeJob` that throws `ExecutionException`, the listener records it, and
   * `getJobInfo` reports FAILED.
   */
  method JavaLifecycleOnService(service: JobService.JobServiceImpl, name: string, jobClass: string,
                                cron: string, rollbackEnding: JavaJob.Ending)
    returns (info: Result<JobInfo, JobServiceError>)
    requires service.Valid() && name !in service.jobs && service.validCron(cron)
    requires !History.HasRecordFor(service.historyRepository.records, name)
    modifies service, service.historyRepository
    ensures service.Valid()
    ensures info.Ok? && info.value == JavaJobInfo(name, cron, 5, Failed)
  {
    var req := JavaJobRequest(name, jobClass, cron, None);
    var created := service.Create(req);
    Registry.CreateRegisters(old(service.Snapshot()), req, service.validCron);
    var executed := service.Execute(name);
    var context := service.Start(name, true);
    var calls, thrown := JavaJob.Execute(context, JavaJob.Callback(None, JavaJob.RaisesChecked),
                                         JavaJob.Callback(None, rollbackEnding));
    assert thrown != JavaJob.NothingThrown && calls == [JavaJob.ExecuteJob, JavaJob.RollbackJob];
    ghost var running := service.Snapshot();
    service.Finish(context);
    Registry.FinishRecordsState(running, name, context.result, name);
    info := service.GetJobInfo(name);
  }
}
