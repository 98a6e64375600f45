/**
 * `JobServiceImpl` together with the scheduler state it drives. The scheduler
 * calls the service makes (`checkExists`, `scheduleJob`, `deleteJob`,
 * `triggerJob`, `getCurrentlyExecutingJobs`) act on the fields `jobs`,
 * `running` and `manualFires`; the history table is the shared
 * `HistoryRepository`. `Start` and `Finish` are the scheduler's worker
 * steps around one execution; `Finish` reports to the job listener.
 * Every method is proved against the matching function of `Registry`.
 */
module JobService {
  import opened Wrappers
  import opened Api
  import History
  import Context
  import Listener
  import Registry

  class JobServiceImpl {
    var jobs: map<string, Registry.JobDef>
    var running: set<string>
    var manualFires: multiset<string>
    var clock: nat
    const historyRepository: History.HistoryRepository
    const listener: Listener.JobExecutionListener
    /** The cron parser of `CronScheduleBuilder.cronSchedule`: true when it accepts the expression. */
    const validCron: string -> bool

    /** The abstract state this object stands for. */
    function Snapshot(): Registry.ServiceState
      reads this, historyRepository
    {
      Registry.ServiceState(jobs, running, manualFires, historyRepository.records, clock)
    }

    /** The listener writes to the service's history table, and the abstract invariant holds. */
    predicate Valid()
      reads this, historyRepository
    {
      listener.historyRepository == historyRepository && Registry.Valid(Snapshot())
    }

    /** A service over an empty scheduler and a history table that may already hold rows
        (started with the clock at `now`). */
    constructor(historyRepository: History.HistoryRepository, listener: Listener.JobExecutionListener,
                validCron: string -> bool, now: nat)
      requires listener.historyRepository == historyRepository
      requires forall r :: r in historyRepository.records ==> r.completion <= now
      ensures Valid()
      ensures this.historyRepository == historyRepository && this.listener == listener
      ensures this.validCron == validCron
      ensures Snapshot() == Registry.ServiceState(map[], {}, multiset{}, historyRepository.records, now)
    {
      jobs, running, manualFires, clock := map[], {}, multiset{}, now;
      this.historyRepository := historyRepository;
      this.listener := listener;
      this.validCron := validCron;
    }

    // -------------------------------------------------------------------------
    // Scheduler calls

    /** `scheduler.scheduleJob(jobDetail, trigger)`. */
    method ScheduleJob(detail: Registry.JobDetail, trigger: Registry.CronTrigger)
      modifies this
      ensures Snapshot() == Registry.ScheduleJob(old(Snapshot()), detail, trigger)
    {
      jobs := jobs[detail.name := Registry.JobDef(trigger.cron, trigger.priority, detail.payload)];
    }

    /** `scheduler.deleteJob(jobKey)`. */
    method DeleteJob(name: string)
      modifies this
      ensures Snapshot() == Registry.DeleteJob(old(Snapshot()), name)
    {
      jobs := jobs - {name};
      manualFires := manualFires[name := 0];
    }

    /** `checkJobIsCurrentlyRunning` (and `isJobRunning`, which also compares the default
        group): scans the currently executing jobs for the name. */
    method CheckJobIsCurrentlyRunning(name: string) returns (isRunning: bool)
      ensures isRunning <==> name in running
    {
      var executing := running;
      while executing != {}
        invariant executing <= running
        invariant name in running ==> name in executing
        decreases executing
      {
        var jobName :| jobName in executing;
        if jobName == name {
          return true;
        }
        executing := executing - {jobName};
      }
      return false;
    }

    // -------------------------------------------------------------------------
    // Queries

    /** `getJobState(jobKey)`. */
    method GetJobState(name: string) returns (st: State)
      ensures st == Registry.JobState(Snapshot(), name)
    {
      var isRunning := CheckJobIsCurrentlyRunning(name);
      if isRunning {
        return Running;
      }
      var top := History.FindTopByJobName(historyRepository.records, name);
      if top.Some? {
        match top.value.result
        case Success => return Success;
        case Failed => return Failed;
      }
      return Queued;
    }

    /** `getJobInfo(JobKey)`: a `NativeJobInfo` with the command for a native job,
        a `JavaJobInfo` otherwise. */
    method GetJobInfoByKey(name: string) returns (info: JobInfo)
      requires name in jobs
      ensures info == Registry.JobInfoOf(Snapshot(), name)
    {
      var def := jobs[name];
      var jobState := GetJobState(name);
      if def.payload.Native? {
        info := NativeJobInfo(name, def.payload.command, def.cron, def.priority, jobState);
      } else {
        info := JavaJobInfo(name, def.cron, def.priority, jobState);
      }
    }

    /** `getJobInfo(jobName)`. */
    method GetJobInfo(name: string) returns (r: Result<JobInfo, JobServiceError>)
      ensures r == Registry.GetJobInfo(Snapshot(), name)
    {
      if name !in jobs {
        return Err(JobIsNotFound);
      }
      var info := GetJobInfoByKey(name);
      return Ok(info);
    }

    /** `getAllJobs()`: the info of every job of the default group. */
    method GetAllJobs() returns (list: seq<JobInfo>)
      ensures Registry.IsJobListing(Snapshot(), list)
    {
      list := [];
      var keys := jobs.Keys;
      while keys != {}
        invariant keys <= jobs.Keys
        invariant forall i :: 0 <= i < |list| ==>
          list[i].name in jobs && list[i].name !in keys &&
          list[i] == Registry.JobInfoOf(Snapshot(), list[i].name)
        invariant forall i, j :: 0 <= i < j < |list| ==> list[i].name != list[j].name
        invariant forall n :: n in jobs && n !in keys ==> exists i :: 0 <= i < |list| && list[i].name == n
        decreases keys
      {
        var jobKey :| jobKey in keys;
        var info := GetJobInfoByKey(jobKey);
        ghost var before := list;
        list := list + [info];
        keys := keys - {jobKey};
        forall n | n in jobs && n !in keys
          ensures exists i :: 0 <= i < |list| && list[i].name == n
        {
          if n == jobKey {
            assert list[|before|].name == n;
          } else {
            var i :| 0 <= i < |before| && before[i].name == n;
            assert list[i].name == n;
          }
        }
      }
    }

    // -------------------------------------------------------------------------
    // Operations

    /** `create(jobRequest)`. */
    method Create(req: JobRequest) returns (outcome: Outcome)
      requires Valid()
      modifies this
      ensures Valid()
      ensures Registry.Create(old(Snapshot()), req, validCron) == Registry.Step(Snapshot(), outcome)
    {
      Registry.CreateKeepsValid(Snapshot(), req, validCron);
      if req.name in jobs {
        return Fail(JobAlreadyExists);
      }
      var detail := Registry.BuildJobDetail(req);
      var trigger := Registry.BuildCronTrigger(req, validCron);
      if trigger.Err? {
        return Fail(trigger.error);
      }
      ScheduleJob(detail, trigger.value);
      return Pass;
    }

    /** `execute(jobName)`. */
    method Execute(name: string) returns (outcome: Outcome)
      requires Valid()
      modifies this
      ensures Valid()
      ensures Registry.Execute(old(Snapshot()), name) == Registry.Step(Snapshot(), outcome)
    {
      Registry.ExecuteKeepsValid(Snapshot(), name);
      if name !in jobs {
        return Fail(JobIsNotFound);
      }
      var isRunning := CheckJobIsCurrentlyRunning(name);
      if isRunning {
        return Fail(JobIsCurrentlyRunning);
      }
      // scheduler.triggerJob
      manualFires := manualFires + multiset{name};
      return Pass;
    }

    /** `update(jobRequest)`: the old job is deleted before the new one is built. */
    method Update(req: JobRequest) returns (outcome: Outcome)
      requires Valid()
      modifies this
      ensures Valid()
      ensures Registry.Update(old(Snapshot()), req, validCron) == Registry.Step(Snapshot(), outcome)
    {
      Registry.UpdateKeepsValid(Snapshot(), req, validCron);
      if req.name !in jobs {
        return Fail(JobIsNotFound);
      }
      var isRunning := CheckJobIsCurrentlyRunning(req.name);
      if isRunning {
        return Fail(JobIsCurrentlyRunning);
      }
      DeleteJob(req.name);
      var detail := Registry.BuildJobDetail(req);
      var trigger := Registry.BuildCronTrigger(req, validCron);
      if trigger.Err? {
        return Fail(trigger.error);
      }
      ScheduleJob(detail, trigger.value);
      return Pass;
    }

    /** `delete(jobName)`. */
    method Delete(name: string) returns (outcome: Outcome)
      requires Valid()
      modifies this, historyRepository
      ensures Valid()
      ensures Registry.Delete(old(Snapshot()), name) == Registry.Step(Snapshot(), outcome)
    {
      Registry.DeleteKeepsValid(Snapshot(), name);
      if name !in jobs {
        return Fail(JobIsNotFound);
      }
      var isRunning := CheckJobIsCurrentlyRunning(name);
      if isRunning {
        return Fail(JobIsCurrentlyRunning);
      }
      DeleteJob(name);
      historyRepository.DeleteAllByJobName(name);
      return Pass;
    }

    // -------------------------------------------------------------------------
    // One execution, as the scheduler's worker runs it

    /** A worker starts a fire of a registered job (a cron fire, or a pending manual fire,
        which it consumes): the job joins the currently executing jobs and gets a fresh context. */
    method Start(name: string, manual: bool) returns (context: Context.JobExecutionContext)
      requires Valid()
      requires name in jobs && (manual ==> name in manualFires)
      modifies this
      ensures Valid()
      ensures fresh(context) && context.jobName == name && context.result == None
      ensures Snapshot() == Registry.Start(old(Snapshot()), name, manual)
    {
      Registry.LifecycleKeepsValid(Snapshot(), name, manual, None, 0);
      context := new Context.JobExecutionContext(name);
      listener.JobToBeExecuted(context);
      running := running + {name};
      if manual {
        manualFires := manualFires - multiset{name};
      }
    }

    /** The execution behind `context` completes: it leaves the currently executing jobs and
        the listener's `jobWasExecuted` saves its record, stamped with the clock. */
    method Finish(context: Context.JobExecutionContext)
      requires Valid()
      requires context.jobName in running
      modifies this, historyRepository
      ensures Valid()
      ensures Snapshot() == Registry.Finish(old(Snapshot()), context.jobName, context.result)
    {
      Registry.LifecycleKeepsValid(Snapshot(), context.jobName, false, context.result, 0);
      running := running - {context.jobName};
      listener.JobWasExecuted(context, clock);
    }

    /** Time passes. */
    method AdvanceClock(dt: nat)
      requires Valid()
      modifies this
      ensures Valid()
      ensures Snapshot() == Registry.Tick(old(Snapshot()), dt)
    {
      Registry.LifecycleKeepsValid(Snapshot(), "", false, None, dt);
      clock := clock + dt;
    }
  }
}
