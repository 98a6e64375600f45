/**
 * The abstract state behind `JobServiceImpl` (the Quartz scheduler's job and
 * trigger store, its currently executing jobs, and the history table) and one
 * pure function per operation of the service and per step of an execution's
 * lifecycle. The class `JobService.JobServiceImpl` is proved against these.
 */
module Registry {
  import opened Wrappers
  import opened Api
  import History
  import Listener

  /** What a registered job runs: `NativeJob` with its `command`, or a `JavaJobRequest` subclass. */
  datatype Payload = Native(command: string) | Java(jobClass: string)

  /** `buildJobDetail`: the job's identity and class. */
  datatype JobDetail = JobDetail(name: string, payload: Payload)

  /** `buildCronTrigger`: the job's cron trigger. */
  datatype CronTrigger = CronTrigger(cron: string, priority: int)

  /** A registered job: its cron trigger folded together with its job detail. */
  datatype JobDef = JobDef(cron: string, priority: int, payload: Payload)

  /**
   * `jobs`: the scheduler's job store, keyed by job name (all jobs live in the default group).
   * `running`: the names in `scheduler.getCurrentlyExecutingJobs()`.
   * `manualFires`: one-shot triggers added by `scheduler.triggerJob` that have not fired yet.
   * `history`: the rows of the history table, in the order they were saved.
   * `clock`: the current completion-time clock reading.
   */
  datatype ServiceState = ServiceState(
    jobs: map<string, JobDef>,
    running: set<string>,
    manualFires: multiset<string>,
    history: seq<History.Record>,
    clock: nat)

  /** The new state of a step and the outcome the caller sees. */
  datatype Step = Step(state: ServiceState, outcome: Outcome)

  /** The invariant every step keeps: only registered jobs run or have a pending manual fire,
      and no history row is stamped later than the clock. */
  predicate Valid(s: ServiceState)
  {
    && s.running <= s.jobs.Keys
    && (forall n :: n in s.manualFires ==> n in s.jobs)
    && (forall r :: r in s.history ==> r.completion <= s.clock)
  }

  /** `buildJobDetail`: a native request becomes a `NativeJob` with its command;
      any other request becomes a job of its own class. It never fails here. */
  function BuildJobDetail(req: JobRequest): (d: JobDetail)
    ensures d.name == req.name
    ensures req.NativeJobRequest? <==> d.payload.Native?
    ensures req.NativeJobRequest? ==> d.payload.command == req.command
    ensures req.JavaJobRequest? ==> d.payload.jobClass == req.jobClass
  {
    match req
    case NativeJobRequest(name, command, _, _) => JobDetail(name, Native(command))
    case JavaJobRequest(name, jobClass, _, _) => JobDetail(name, Java(jobClass))
  }

  /** The priority `buildCronTrigger` gives a request: its own, or the default when it has none. */
  function PriorityOf(req: JobRequest): int
  {
    if req.priority.Some? then req.priority.value else DEFAULT_PRIORITY
  }

  /**
   * `buildCronTrigger`: fails with IncorrectJobRequest exactly when the cron
   * parser rejects the expression; otherwise a trigger with that expression
   * and the request's priority, 5 when the request has none.
   */
  function BuildCronTrigger(req: JobRequest, validCron: string -> bool): (t: Result<CronTrigger, JobServiceError>)
    ensures t.Err? <==> !validCron(req.cron)
    ensures t.Err? ==> t.error == IncorrectJobRequest
    ensures t.Ok? ==> t.value.cron == req.cron
    ensures t.Ok? && req.priority.None? ==> t.value.priority == 5
    ensures t.Ok? && req.priority.Some? ==> t.value.priority == req.priority.value
  {
    if validCron(req.cron) then Ok(CronTrigger(req.cron, PriorityOf(req)))
    else Err(IncorrectJobRequest)
  }

  /** `scheduler.scheduleJob(jobDetail, trigger)`: the detail's job is stored with the
      trigger's cron and priority; every other job and the rest of the state stay. */
  function ScheduleJob(s: ServiceState, d: JobDetail, t: CronTrigger): (r: ServiceState)
    ensures r.jobs.Keys == s.jobs.Keys + {d.name}
    ensures r.jobs[d.name].cron == t.cron && r.jobs[d.name].priority == t.priority
    ensures r.jobs[d.name].payload == d.payload
    ensures forall n :: n in s.jobs && n != d.name ==> r.jobs[n] == s.jobs[n]
    ensures r.running == s.running && r.manualFires == s.manualFires
    ensures r.history == s.history && r.clock == s.clock
  {
    s.(jobs := s.jobs[d.name := JobDef(t.cron, t.priority, d.payload)])
  }

  /** `scheduler.deleteJob(key)`: the job goes, and with it every trigger of it that has not fired. */
  function DeleteJob(s: ServiceState, name: string): (r: ServiceState)
    ensures r.jobs.Keys == s.jobs.Keys - {name}
    ensures forall n :: n in r.jobs ==> r.jobs[n] == s.jobs[n]
    ensures name !in r.manualFires
    ensures forall n :: n != name ==> r.manualFires[n] == s.manualFires[n]
    ensures r.running == s.running && r.history == s.history && r.clock == s.clock
  {
    s.(jobs := s.jobs - {name}, manualFires := s.manualFires[name := 0])
  }

  /**
   * `create(jobRequest)`: the name check, then both builders, then `scheduleJob`.
   * JobAlreadyExists exactly for a registered name, whatever the cron; otherwise
   * IncorrectJobRequest exactly for a rejected cron. A failed create changes nothing;
   * a successful one registers the name and leaves the history alone.
   */
  function Create(s: ServiceState, req: JobRequest, validCron: string -> bool): (r: Step)
    ensures r.outcome == Fail(JobAlreadyExists) <==> req.name in s.jobs
    ensures r.outcome == Fail(IncorrectJobRequest) <==> req.name !in s.jobs && !validCron(req.cron)
    ensures r.outcome == Pass <==> req.name !in s.jobs && validCron(req.cron)
    ensures r.outcome.Fail? ==> r.state == s
    ensures r.outcome == Pass ==> r.state.jobs.Keys == s.jobs.Keys + {req.name} && r.state.history == s.history
  {
    if req.name in s.jobs then Step(s, Fail(JobAlreadyExists))
    else
      var detail := BuildJobDetail(req);
      var trigger := BuildCronTrigger(req, validCron);
      if trigger.Err? then Step(s, Fail(trigger.error))
      else Step(ScheduleJob(s, detail, trigger.value), Pass)
  }

  /**
   * `execute(jobName)`: JobIsNotFound for an unregistered name, then
   * JobIsCurrentlyRunning for an executing job, each with no change. Otherwise
   * `triggerJob` adds a one-shot trigger; the cron trigger is untouched.
   */
  function Execute(s: ServiceState, name: string): (r: Step)
    ensures r.outcome == Fail(JobIsNotFound) <==> name !in s.jobs
    ensures r.outcome == Fail(JobIsCurrentlyRunning) <==> name in s.jobs && name in s.running
    ensures r.outcome == Pass <==> name in s.jobs && name !in s.running
    ensures r.outcome.Fail? ==> r.state == s
    ensures r.outcome == Pass ==>
      && r.state.jobs == s.jobs && r.state.running == s.running && r.state.history == s.history
      && r.state.manualFires[name] == s.manualFires[name] + 1
  {
    if name !in s.jobs then Step(s, Fail(JobIsNotFound))
    else if name in s.running then Step(s, Fail(JobIsCurrentlyRunning))
    else Step(s.(manualFires := s.manualFires + multiset{name}), Pass)
  }

  /**
   * `update(jobRequest)`, as written: JobIsNotFound, then JobIsCurrentlyRunning,
   * each with no change. Otherwise the old job is deleted before the new
   * request is built, so a rejected cron gives IncorrectJobRequest with the job
   * gone. The history is never touched.
   */
  function Update(s: ServiceState, req: JobRequest, validCron: string -> bool): (r: Step)
    ensures r.outcome == Fail(JobIsNotFound) <==> req.name !in s.jobs
    ensures r.outcome == Fail(JobIsCurrentlyRunning) <==> req.name in s.jobs && req.name in s.running
    ensures r.outcome == Fail(IncorrectJobRequest) <==>
      req.name in s.jobs && req.name !in s.running && !validCron(req.cron)
    ensures r.outcome == Pass <==> req.name in s.jobs && req.name !in s.running && validCron(req.cron)
    ensures r.outcome == Fail(JobIsNotFound) || r.outcome == Fail(JobIsCurrentlyRunning) ==> r.state == s
    ensures r.outcome == Fail(IncorrectJobRequest) ==> r.state.jobs.Keys == s.jobs.Keys - {req.name}
    ensures r.outcome == Pass ==> r.state.jobs.Keys == s.jobs.Keys
    ensures r.state.history == s.history && r.state.running == s.running
  {
    if req.name !in s.jobs then Step(s, Fail(JobIsNotFound))
    else if req.name in s.running then Step(s, Fail(JobIsCurrentlyRunning))
    else
      var deleted := DeleteJob(s, req.name);
      var detail := BuildJobDetail(req);
      var trigger := BuildCronTrigger(req, validCron);
      if trigger.Err? then Step(deleted, Fail(trigger.error))
      else Step(ScheduleJob(deleted, detail, trigger.value), Pass)
  }

  /**
   * `delete(jobName)`: JobIsNotFound, then JobIsCurrentlyRunning, each with no
   * change. Otherwise the job, its pending triggers and its whole history go.
   */
  function Delete(s: ServiceState, name: string): (r: Step)
    ensures r.outcome == Fail(JobIsNotFound) <==> name !in s.jobs
    ensures r.outcome == Fail(JobIsCurrentlyRunning) <==> name in s.jobs && name in s.running
    ensures r.outcome == Pass <==> name in s.jobs && name !in s.running
    ensures r.outcome.Fail? ==> r.state == s
    ensures r.outcome == Pass ==>
      && r.state.jobs.Keys == s.jobs.Keys - {name}
      && name !in r.state.manualFires
      && (forall x :: x in r.state.history <==> x in s.history && x.jobName != name)
  {
    if name !in s.jobs then Step(s, Fail(JobIsNotFound))
    else if name in s.running then Step(s, Fail(JobIsCurrentlyRunning))
    else
      var deleted := DeleteJob(s, name);
      Step(deleted.(history := History.WithoutJob(s.history, name)), Pass)
  }

  /** The job state a history result maps to. */
  function StateOf(result: History.Result): State
  {
    match result
    case Success => Success
    case Failed => Failed
  }

  /**
   * `getJobState`: RUNNING while the job executes; otherwise the result of
   * its latest history record; QUEUED when it has none.
   */
  function JobState(s: ServiceState, name: string): (st: State)
    ensures st == Running <==> name in s.running
    ensures st == Queued <==> name !in s.running && !History.HasRecordFor(s.history, name)
    ensures st == Success || st == Failed ==>
      exists r :: r in s.history && r.jobName == name && StateOf(r.result) == st &&
        forall x :: x in s.history && x.jobName == name ==> x.completion <= r.completion
  {
    if name in s.running then Running
    else
      match History.FindTopByJobName(s.history, name)
      case None => Queued
      case Some(r) =>
        assert forall x :: x in s.history && x.jobName == name ==> x.completion <= r.completion by {
          forall x | x in s.history && x.jobName == name ensures x.completion <= r.completion {
            var i :| 0 <= i < |s.history| && s.history[i] == x;
          }
        }
        StateOf(r.result)
  }

  /** `getJobInfo(JobKey)`: the info of a registered job. */
  function JobInfoOf(s: ServiceState, name: string): (info: JobInfo)
    requires name in s.jobs
    ensures info.name == name
  {
    var def := s.jobs[name];
    match def.payload
    case Native(command) => NativeJobInfo(name, command, def.cron, def.priority, JobState(s, name))
    case Java(_) => JavaJobInfo(name, def.cron, def.priority, JobState(s, name))
  }

  /**
   * `getJobInfo(jobName)`: JobIsNotFound exactly when the job is not
   * registered; otherwise the stored cron, priority and (for a native job)
   * command together with the derived state.
   */
  function GetJobInfo(s: ServiceState, name: string): (r: Result<JobInfo, JobServiceError>)
    ensures r.Err? <==> name !in s.jobs
    ensures r.Err? ==> r.error == JobIsNotFound
    ensures r.Ok? ==>
      && r.value.name == name
      && r.value.cron == s.jobs[name].cron
      && r.value.priority == s.jobs[name].priority
      && r.value.state == JobState(s, name)
      && (r.value.NativeJobInfo? <==> s.jobs[name].payload.Native?)
      && (r.value.NativeJobInfo? ==> r.value.command == s.jobs[name].payload.command)
  {
    if name !in s.jobs then Err(JobIsNotFound) else Ok(JobInfoOf(s, name))
  }

  /** `getAllJobs()`: one info per registered job, each as `getJobInfo` reports it, in no fixed order. */
  predicate IsJobListing(s: ServiceState, list: seq<JobInfo>)
  {
    && (forall i :: 0 <= i < |list| ==> list[i].name in s.jobs && list[i] == JobInfoOf(s, list[i].name))
    && (forall i, j :: 0 <= i < j < |list| ==> list[i].name != list[j].name)
    && (forall n :: n in s.jobs ==> exists i :: 0 <= i < |list| && list[i].name == n)
  }

  /** A listing holds exactly as many entries as there are registered jobs, and each entry
      is what `getJobInfo` answers for its name. */
  lemma ListingCountsJobs(s: ServiceState, list: seq<JobInfo>)
    requires IsJobListing(s, list)
    ensures |list| == |s.jobs|
    ensures forall i :: 0 <= i < |list| ==> GetJobInfo(s, list[i].name) == Ok(list[i])
  {
    var names := NamesOf(list);
    DistinctNamesCount(list);
    assert names == s.jobs.Keys by {
      forall n | n in s.jobs ensures n in names {
        var i :| 0 <= i < |list| && list[i].name == n;
      }
    }
    assert |s.jobs| == |s.jobs.Keys|;
  }

  /** The set of names in a list of infos. */
  function NamesOf(list: seq<JobInfo>): (names: set<string>)
    ensures forall n :: n in names <==> exists i :: 0 <= i < |list| && list[i].name == n
  {
    if list == [] then {}
    else
      var rest := NamesOf(list[..|list| - 1]);
      assert forall i :: 0 <= i < |list| - 1 ==> list[..|list| - 1][i] == list[i];
      rest + {list[|list| - 1].name}
  }

  /** A list whose names are pairwise distinct has as many names as entries. */
  lemma {:induction false} DistinctNamesCount(list: seq<JobInfo>)
    requires forall i, j :: 0 <= i < j < |list| ==> list[i].name != list[j].name
    ensures |NamesOf(list)| == |list|
  {
    if list != [] {
      var init := list[..|list| - 1];
      assert forall i, j :: 0 <= i < j < |init| ==> init[i].name != init[j].name by {
        forall i, j | 0 <= i < j < |init| ensures init[i].name != init[j].name {
          assert init[i] == list[i] && init[j] == list[j];
        }
      }
      DistinctNamesCount(init);
      var last := list[|list| - 1].name;
      forall i | 0 <= i < |init| ensures init[i].name != last {
        assert init[i] == list[i];
      }
    }
  }

  /** A worker starts an execution of a registered job, from a cron fire or from a pending
      manual fire, which it consumes. */
  function Start(s: ServiceState, name: string, manual: bool): (r: ServiceState)
    requires name in s.jobs
    requires manual ==> name in s.manualFires
    ensures r.running == s.running + {name}
    ensures manual ==> r.manualFires[name] == s.manualFires[name] - 1
    ensures forall n :: n != name || !manual ==> r.manualFires[n] == s.manualFires[n]
    ensures r.jobs == s.jobs && r.history == s.history && r.clock == s.clock
  {
    s.(running := s.running + {name},
       manualFires := if manual then s.manualFires - multiset{name} else s.manualFires)
  }

  /** An execution of `name` completes with context result `code`: it leaves the running set and
      `jobWasExecuted` saves one record stamped with the clock. */
  function Finish(s: ServiceState, name: string, code: Option<int>): (r: ServiceState)
    requires name in s.running
    ensures r.running == s.running - {name}
    ensures |r.history| == |s.history| + 1 && r.history[..|s.history|] == s.history
    ensures r.history[|s.history|].jobName == name && r.history[|s.history|].completion == s.clock
    ensures r.history[|s.history|].result == History.Success <==> code == Some(0)
    ensures r.jobs == s.jobs && r.manualFires == s.manualFires && r.clock == s.clock
  {
    s.(running := s.running - {name},
       history := s.history + [History.Record(name, s.clock, Listener.ResultOf(code))])
  }

  /** The clock moves forward. */
  function Tick(s: ServiceState, dt: nat): ServiceState
  {
    s.(clock := s.clock + dt)
  }

  // ---------------------------------------------------------------------------
  // Properties of single steps

  /** `scheduler.deleteJob` keeps the invariant. */
  lemma DeleteJobKeepsValid(s: ServiceState, name: string)
    requires Valid(s) && name !in s.running
    ensures Valid(DeleteJob(s, name))
  {
    var s' := DeleteJob(s, name);
    forall n | n in s'.manualFires ensures n in s'.jobs {
      assert n != name;
    }
  }

  /** `create` keeps the invariant, on every path. */
  lemma CreateKeepsValid(s: ServiceState, req: JobRequest, validCron: string -> bool)
    requires Valid(s)
    ensures Valid(Create(s, req, validCron).state)
  {
  }

  /** `execute` keeps the invariant, on every path. */
  lemma ExecuteKeepsValid(s: ServiceState, name: string)
    requires Valid(s)
    ensures Valid(Execute(s, name).state)
  {
    var s' := Execute(s, name).state;
    forall n | n in s'.manualFires ensures n in s'.jobs {
      assert n == name || n in s.manualFires;
    }
  }

  /** `update` keeps the invariant, on every path, including the one that leaves the job deleted. */
  lemma UpdateKeepsValid(s: ServiceState, req: JobRequest, validCron: string -> bool)
    requires Valid(s)
    ensures Valid(Update(s, req, validCron).state)
  {
    if req.name in s.jobs && req.name !in s.running {
      DeleteJobKeepsValid(s, req.name);
    }
  }

  /** `delete` keeps the invariant, on every path. */
  lemma DeleteKeepsValid(s: ServiceState, name: string)
    requires Valid(s)
    ensures Valid(Delete(s, name).state)
  {
    if name in s.jobs && name !in s.running {
      DeleteJobKeepsValid(s, name);
    }
  }

  /** Every lifecycle step keeps the invariant. */
  lemma LifecycleKeepsValid(s: ServiceState, name: string, manual: bool, code: Option<int>, dt: nat)
    requires Valid(s)
    ensures name in s.jobs && (manual ==> name in s.manualFires) ==> Valid(Start(s, name, manual))
    ensures name in s.running ==> Valid(Finish(s, name, code))
    ensures Valid(Tick(s, dt))
  {
    if name in s.jobs && manual && name in s.manualFires {
      var s' := Start(s, name, manual);
      forall n | n in s'.manualFires ensures n in s'.jobs {
        assert n in s.manualFires;
      }
    }
  }

  /** `create` of a registered name: JobAlreadyExists, nothing changes, whatever the cron. */
  lemma CreateExisting(s: ServiceState, req: JobRequest, validCron: string -> bool)
    requires req.name in s.jobs
    ensures Create(s, req, validCron) == Step(s, Fail(JobAlreadyExists))
  {
  }

  /** `create` with a rejected cron of a new name: IncorrectJobRequest, nothing registered. */
  lemma CreateInvalidCron(s: ServiceState, req: JobRequest, validCron: string -> bool)
    requires req.name !in s.jobs && !validCron(req.cron)
    ensures Create(s, req, validCron) == Step(s, Fail(IncorrectJobRequest))
  {
  }

  /** `create` of a new name with an accepted cron registers exactly that job, with the
      request's cron, payload and (default) priority, and touches nothing else. */
  lemma CreateRegisters(s: ServiceState, req: JobRequest, validCron: string -> bool)
    requires req.name !in s.jobs && validCron(req.cron)
    ensures Create(s, req, validCron).outcome == Pass
    ensures var s' := Create(s, req, validCron).state;
      && s'.jobs.Keys == s.jobs.Keys + {req.name}
      && s'.jobs[req.name].cron == req.cron
      && s'.jobs[req.name].priority == PriorityOf(req)
      && s'.jobs[req.name].payload == BuildJobDetail(req).payload
      && (forall n :: n in s.jobs ==> s'.jobs[n] == s.jobs[n])
      && s'.running == s.running && s'.manualFires == s.manualFires && s'.history == s.history
  {
  }

  /** After a successful `create` a job with no history reports QUEUED. */
  lemma CreatedIsQueued(s: ServiceState, req: JobRequest, validCron: string -> bool)
    requires Valid(s) && Create(s, req, validCron).outcome == Pass
    requires !History.HasRecordFor(s.history, req.name)
    ensures JobState(Create(s, req, validCron).state, req.name) == Queued
  {
  }

  /** An unregistered name is reported JobIsNotFound by every keyed operation, before any other
      check and without any change. */
  lemma UnknownJobIsNotFound(s: ServiceState, req: JobRequest, name: string, validCron: string -> bool)
    requires name !in s.jobs && req.name !in s.jobs
    ensures Execute(s, name) == Step(s, Fail(JobIsNotFound))
    ensures Update(s, req, validCron) == Step(s, Fail(JobIsNotFound))
    ensures Delete(s, name) == Step(s, Fail(JobIsNotFound))
    ensures GetJobInfo(s, name) == Err(JobIsNotFound)
  {
  }

  /** A running job is protected: `execute`, `update` and `delete` answer JobIsCurrentlyRunning
      and change nothing, whatever the new cron. */
  lemma RunningJobIsGuarded(s: ServiceState, req: JobRequest, name: string, validCron: string -> bool)
    requires name in s.jobs && name in s.running
    requires req.name in s.jobs && req.name in s.running
    ensures Execute(s, name) == Step(s, Fail(JobIsCurrentlyRunning))
    ensures Update(s, req, validCron) == Step(s, Fail(JobIsCurrentlyRunning))
    ensures Delete(s, name) == Step(s, Fail(JobIsCurrentlyRunning))
  {
  }

  /** A successful `execute` adds one pending manual fire and leaves the registrations,
      the running set and the history alone. */
  lemma ExecuteAddsManualFire(s: ServiceState, name: string)
    requires name in s.jobs && name !in s.running
    ensures Execute(s, name).outcome == Pass
    ensures var s' := Execute(s, name).state;
      && s'.jobs == s.jobs && s'.running == s.running && s'.history == s.history
      && s'.manualFires[name] == s.manualFires[name] + 1
  {
  }

  /** A successful `update` replaces the cron, priority and payload of the job and keeps its history. */
  lemma UpdateReplaces(s: ServiceState, req: JobRequest, validCron: string -> bool)
    requires req.name in s.jobs && req.name !in s.running && validCron(req.cron)
    ensures Update(s, req, validCron).outcome == Pass
    ensures var s' := Update(s, req, validCron).state;
      && s'.jobs == s.jobs[req.name := JobDef(req.cron, PriorityOf(req), BuildJobDetail(req).payload)]
      && s'.history == s.history
      && s'.manualFires[req.name] == 0
  {
  }

  /** `update` with a rejected cron, as written: IncorrectJobRequest, and the old job is gone. */
  lemma UpdateInvalidCronDropsJob(s: ServiceState, req: JobRequest, validCron: string -> bool)
    requires req.name in s.jobs && req.name !in s.running && !validCron(req.cron)
    ensures Update(s, req, validCron).outcome == Fail(IncorrectJobRequest)
    ensures var s' := Update(s, req, validCron).state;
      && req.name !in s'.jobs
      && s'.jobs == s.jobs - {req.name}
      && s'.history == s.history
  {
  }

  /** A successful `delete` removes the job and every history record of it, keeps every other
      job's records in order, and later lookups answer JobIsNotFound. */
  lemma DeletePurges(s: ServiceState, name: string)
    requires name in s.jobs && name !in s.running
    ensures Delete(s, name).outcome == Pass
    ensures var s' := Delete(s, name).state;
      && s'.jobs == s.jobs - {name}
      && !History.HasRecordFor(s'.history, name)
      && (forall other :: other != name ==>
            History.RecordsOf(s'.history, other) == History.RecordsOf(s.history, other))
      && GetJobInfo(s', name) == Err(JobIsNotFound)
  {
    var s' := Delete(s, name).state;
    History.WithoutJobRemovesAll(s.history, name);
    forall other | other != name
      ensures History.RecordsOf(s'.history, other) == History.RecordsOf(s.history, other)
    {
      History.WithoutJobKeepsOthers(s.history, name, other);
    }
  }

  /** Deleting one job does not change the state reported for any other job. */
  lemma DeleteKeepsOtherStates(s: ServiceState, name: string, other: string)
    requires name in s.jobs && name !in s.running && other != name
    ensures JobState(Delete(s, name).state, other) == JobState(s, other)
  {
    History.WithoutJobKeepsOthersTop(s.history, name, other);
  }

  /**
   * The state reported after an execution completes is the result `jobWasExecuted` recorded:
   * SUCCESS exactly for context result 0. Other jobs' states do not change. This rests on
   * two modelling choices: `Valid`'s bound that no record is stamped later than the clock,
   * and the tie rule of `History.FindTopByJobName` (of equal stamps the last saved wins).
   * Without the tie rule, two completions within one clock reading could report either.
   */
  lemma FinishRecordsState(s: ServiceState, name: string, code: Option<int>, other: string)
    requires Valid(s) && name in s.running
    ensures JobState(Finish(s, name, code), name) == StateOf(Listener.ResultOf(code))
    ensures JobState(Finish(s, name, code), name) == Success <==> code == Some(0)
    ensures other != name ==> JobState(Finish(s, name, code), other) == JobState(s, other)
  {
    var r := History.Record(name, s.clock, Listener.ResultOf(code));
    History.SaveBecomesTop(s.history, r);
  }

  /** Every completion appends exactly one record. */
  lemma FinishAppendsOne(s: ServiceState, name: string, code: Option<int>)
    requires name in s.running
    ensures |Finish(s, name, code).history| == |s.history| + 1
    ensures Finish(s, name, code).history[..|s.history|] == s.history
    ensures Finish(s, name, code).history[|s.history|].jobName == name
  {
  }

  /** A started job reports RUNNING until it finishes. */
  lemma StartedIsRunning(s: ServiceState, name: string, manual: bool)
    requires name in s.jobs && (manual ==> name in s.manualFires)
    ensures JobState(Start(s, name, manual), name) == Running
    ensures GetJobInfo(Start(s, name, manual), name).Ok?
    ensures GetJobInfo(Start(s, name, manual), name).value.state == Running
  {
  }
}
