/** The supervisor on the real registries (services/orchestrator/execution_supervisor.py:123-363,
    task_finalizer.py:45-125). Wherever a pass waits, `Others` lets the rest of the orchestrator act on the
    same registries. */
module ExecutionSupervisor {
  import opened Cancellation
  import opened Liveness
  import opened Options
  import opened WorkerLoss
  import opened WorkerRegistry

  class Supervisor {
    const telemetry: ExecutionRegistry
    const registry: Registry
    const cfg: Config
    const startedAt: real
    /** The time of day. */
    var clock: real
    /** The orchestrator as a state of a run, with what it has received and attempted so far. */
    ghost var system: System

    ghost predicate Valid()
      reads this, telemetry, registry, registry.workers.Values
    {
      && registry.Valid()
      && Keyed(telemetry.executions)
      && system.workers == registry.View()
      && system.clock == clock
      && system.startedAt == startedAt
    }

    ghost function Now(): World
      reads this, telemetry
    {
      World(telemetry.executions, system)
    }

    constructor (telemetry: ExecutionRegistry, registry: Registry, cfg: Config, clock: real)
      requires registry.Valid() && Keyed(telemetry.executions) && registry.View() == map[]
      ensures Valid() && this.telemetry == telemetry && this.registry == registry && this.cfg == cfg
      ensures Now() == World(telemetry.executions, System(clock, clock, map[], None, [], []))
    {
      this.telemetry, this.registry, this.cfg := telemetry, registry, cfg;
      this.clock, this.startedAt := clock, clock;
      this.system := System(clock, clock, map[], None, [], []);
    }

    /** The part of a step that concerns the registry. */
    method StepRegistry(step: Step)
      requires registry.Valid()
      modifies registry, registry.workers.Values
      ensures registry.Valid() && fresh(registry.workers.Values - old(registry.workers.Values))
      ensures registry.View() == WorkersAfter(old(registry.View()), step, clock, cfg.heartbeatTimeout)
    {
      hide Beat, Reap, MarkBusy, MarkIdle;
      match step
      case HeartbeatArrives(id, hb) =>
        var _ := registry.UpdateFromHeartbeat(id, hb);
      case SchedulerReaps =>
        var _ := registry.ReapDeadWorkers(clock, cfg.heartbeatTimeout);
      case TelemetryArrives(id, task) => registry.MarkBusy(id, task);
      case WorkerFreed(id, task) => registry.MarkIdle(id, task);
      case _ =>
    }

    /** A step of the registry or of the clock that is not the supervisor's. */
    method Happen(step: Step)
      requires Valid()
      modifies this, registry, registry.workers.Values
      ensures Valid() && fresh(registry.workers.Values - old(registry.workers.Values))
      ensures Now() == Acted(old(Now()), Happens(step), cfg.heartbeatTimeout)
    {
      hide WorkersAfter, Next;
      if !IsOutside(step) || (step.Tick? && step.elapsed < 0.0) || (step.HeartbeatArrives? && step.hb.receivedAt != clock) {
        return;
      }
      NextWorkers(system, step, cfg.heartbeatTimeout);
      StepRegistry(step);
      if step.Tick? {
        clock := clock + step.elapsed;
      }
      system := Next(system, step, cfg.heartbeatTimeout);
    }

    /** An await: the others act. */
    method Others(acts: seq<Act>)
      requires Valid()
      modifies this, telemetry, registry, registry.workers.Values
      ensures Valid() && fresh(registry.workers.Values - old(registry.workers.Values))
      ensures Now() == ActedAll(old(Now()), acts, cfg.heartbeatTimeout)
    {
      hide Next, Enabled;
      for i := 0 to |acts|
        invariant Valid() && fresh(registry.workers.Values - old(registry.workers.Values))
        invariant Now() == ActedAll(old(Now()), acts[..i], cfg.heartbeatTimeout)
      {
        assert acts[..i + 1][..i] == acts[..i];
        match acts[i]
        case Happens(step) => Happen(step);
        case Upserts(record) => telemetry.Upsert(record);
        case Removes(id) => telemetry.Remove(id);
      }
      assert acts[..|acts|] == acts;
    }

    /** Frees a worker in both views of the registry. */
    method Free(workerId: string, taskId: string)
      requires Valid()
      modifies this, registry.workers.Values
      ensures Valid() && registry.workers == old(registry.workers)
      ensures Now() == old(Now()).(system := old(system).(workers := MarkIdle(old(system).workers, workerId, Some(taskId))))
    {
      hide MarkIdle;
      registry.MarkIdle(workerId, Some(taskId));
      system := system.(workers := MarkIdle(system.workers, workerId, Some(taskId)));
    }

    /** The cleanup after a commit, each step tried on its own. */
    method CleanUp(task: Request, answer: Answer) returns (log: seq<Effect>)
      requires Valid()
      modifies this, telemetry, registry.workers.Values
      ensures Valid() && registry.workers == old(registry.workers)
      ensures Now() == Cleaned(old(Now()), task, answer)
      ensures log == [RemoveTelemetry(task.id)]
                     + (if task.worker.Some? then [FreeWorker(task.worker.value, task.id)] else [])
    {
      hide MarkIdle;
      if !answer.removeRaises {
        telemetry.Remove(task.id);
      }
      log := [RemoveTelemetry(task.id)];
      if task.worker.Some? {
        if !answer.freeRaises {
          Free(task.worker.value, task.id);
        }
        log := log + [FreeWorker(task.worker.value, task.id)];
      }
    }

    /** `finalize_task_terminal_status`, with the guard of the use case it calls. */
    method FinalizeTask(task: Request, answer: Answer) returns (log: seq<Effect>)
      requires Valid()
      modifies this, telemetry, registry, registry.workers.Values
      ensures Valid() && fresh(registry.workers.Values - old(registry.workers.Values))
      ensures log == FinaliserEffects(task, answer)
      ensures Now() == FinaliserWorld(old(Now()), task, answer, cfg)
    {
      hide ActedAll, Cleaned;
      log := [PutForward(task.id)];
      if !Reconcilable(task.reason) {
        return;
      }
      var status := TerminalStatus(task.reason);
      log := log + [Commit(task.id, task.reason.value)];
      Others(answer.during);
      if answer.commit != Finalized(status) {
        return;
      }
      var more := CleanUp(task, answer);
      log := log + (more + [ReleaseWait(task.id), Publish(task.id, status)]);
    }

    /** The body of the loop over listed requests. */
    method VisitTask(task: Request, now: real, answer: Answer) returns (log: seq<Effect>)
      requires Valid()
      modifies this, telemetry, registry, registry.workers.Values
      ensures Valid() && fresh(registry.workers.Values - old(registry.workers.Values))
      ensures var w := ActedAll(old(Now()), answer.before, cfg.heartbeatTimeout);
        log == VisitEffects(w, task, now, cfg, answer) && Now() == VisitWorld(w, task, now, cfg, answer)
    {
      hide ActedAll, FinaliserEffects, FinaliserWorld;
      Others(answer.before);
      log := [];
      var execution := telemetry.Get(task.id);
      var stale := execution.Some? && execution.value.Stale(now, cfg.staleTimeout);
      var age := if task.updatedAt.Some? then now - task.updatedAt.value else 0.0;
      if task.reason == Some(USER_STOP) && execution.Some? && age >= cfg.grace {
        log := [Terminate(task.id)];
        if answer.terminateRaises || !stale {
          return;
        }
      }
      if execution.Some? && !stale {
        return;
      }
      var delay := if task.reason == Some(USER_STOP) then cfg.grace else cfg.staleTimeout;
      if age < delay {
        return;
      }
      if task.reason == Some(USER_STOP) && execution.None? {
        log := log + [Terminate(task.id)];
        if answer.terminateRaises {
          return;
        }
      }
      if !task.modeKnown {
        return;
      }
      var more := FinalizeTask(task, answer);
      log := log + more;
    }

    /** `_reconcile_cancel_requested_tasks`. */
    method ReconcileCancelRequested(tasks: seq<Request>, now: real, answers: seq<Answer>) returns (log: seq<Effect>)
      requires Valid() && |answers| == |tasks|
      modifies this, telemetry, registry, registry.workers.Values
      ensures Valid() && fresh(registry.workers.Values - old(registry.workers.Values))
      ensures log == PassEffects(old(Now()), tasks, |tasks|, now, cfg, answers)
      ensures Now() == PassWorld(old(Now()), tasks, |tasks|, now, cfg, answers)
      ensures TerminatedFirst(log) && CommittedFirst(log)
      ensures Reachable(old(system), cfg.heartbeatTimeout) ==> Reachable(system, cfg.heartbeatTimeout)
    {
      hide Reachable, VisitEffects, VisitWorld, ActedAll, TerminatedFirst, CommittedFirst;
      ghost var w := Now();
      log := [];
      for i := 0 to |tasks|
        invariant Valid() && fresh(registry.workers.Values - old(registry.workers.Values))
        invariant log == PassEffects(w, tasks, i, now, cfg, answers)
        invariant Now() == PassWorld(w, tasks, i, now, cfg, answers)
      {
        var more := VisitTask(tasks[i], now, answers[i]);
        log := log + more;
      }
      PassOrdered(w, tasks, |tasks|, now, cfg, answers);
      if Reachable(old(system), cfg.heartbeatTimeout) {
        CancelReachable(w, tasks, |tasks|, now, cfg, answers);
      }
    }

    /** `_cleanup_execution_runtime`; the release of a nested wait is only requested. */
    method Cleanup(taskId: string, workerId: string)
      requires Valid()
      modifies this, telemetry, registry.workers.Values
      ensures Valid() && registry.workers == old(registry.workers)
      ensures Now() == Dropped(old(Now()), taskId, workerId)
    {
      hide MarkIdle;
      telemetry.Remove(taskId);
      Free(workerId, taskId);
    }

    /** What the registry says about the owner of a task. */
    method LookUp(task: Task, now: real) returns (verdict: Verdict)
      requires Valid()
      ensures verdict == Judge(system.workers, task.worker, now, startedAt, cfg.heartbeatTimeout)
      ensures verdict != Unassigned ==> task.worker.Some?
    {
      if task.worker.None? {
        return Unassigned;
      }
      var workerId := task.worker.value;
      if workerId in registry.workers && registry.workers[workerId].IsAlive(now, cfg.heartbeatTimeout) {
        assert registry.View()[workerId].Alive(now, cfg.heartbeatTimeout);
        return StillAlive;
      }
      if workerId !in registry.workers && now - startedAt < cfg.heartbeatTimeout {
        return StartupGrace;
      }
      return Lost;
    }

    /** Marks a worker busy in both views of the registry. */
    method Occupy(workerId: string, taskId: string)
      requires Valid()
      modifies this`system, registry.workers.Values
      ensures Valid() && registry.workers == old(registry.workers)
      ensures Now() == old(Now()).(system := old(system).(workers := MarkBusy(old(system).workers, workerId, taskId)))
    {
      hide MarkBusy, Keyed;
      registry.MarkBusy(workerId, taskId);
      system := system.(workers := MarkBusy(system.workers, workerId, taskId));
    }

    /** A step of the run that does not concern the registry or the clock. */
    ghost method Move(s: System)
      requires Valid() && s.workers == system.workers && s.clock == system.clock && s.startedAt == system.startedAt
      modifies this`system
      ensures Valid() && Now() == old(Now()).(system := s)
    {
      hide Keyed;
      system := s;
    }

    /** A visit that takes the verdict: the owner of a live task is marked busy. */
    method Judged(task: Task, now: real) returns (verdict: Verdict)
      requires Valid() && AtVisit(Now()) && Visited(Now()) == task && system.pass.value.now == now
      modifies this, registry.workers.Values
      ensures Valid() && registry.workers == old(registry.workers)
      ensures verdict == VerdictAt(old(Now()), cfg.heartbeatTimeout)
      ensures Now() == old(Now()).(system := Next(old(system), PassVisitsTask, cfg.heartbeatTimeout))
    {
      hide MarkBusy, Judge, Next, Keyed;
      verdict := LookUp(task, now);
      ghost var s := Next(system, PassVisitsTask, cfg.heartbeatTimeout);
      VisitWorkers(system, cfg.heartbeatTimeout);
      if verdict == StillAlive {
        Occupy(task.worker.value, task.id);
      }
      Move(s);
    }

    /** The body of the loop over worker-owned tasks: a visit of the run, and what follows it. */
    method VisitOwned(task: Task, now: real, answer: LossAnswer) returns (log: seq<Effect>, ok: bool)
      requires Valid() && AtVisit(Now()) && Visited(Now()) == task && system.pass.value.now == now
      modifies this, telemetry, registry, registry.workers.Values
      ensures Valid() && fresh(registry.workers.Values - old(registry.workers.Values))
      ensures Progress(Now(), log, ok)
           == LossVisit(ActedAll(old(Now()), answer.before, cfg.heartbeatTimeout), answer, cfg)
    {
      hide ActedAll, Next, VerdictAt, Dropped, Judge;
      Others(answer.before);
      log, ok := [], true;
      var verdict := Judged(task, now);
      if verdict == Lost {
        log := LossEffects(task, answer.outcome);
        Others(answer.during);
        match answer.outcome
        case Fails => ok := false;
        case Unmoved =>
        case Finished(announced) =>
          Cleanup(task.id, task.worker.value);
          Others(answer.after);
          ok := announced;
      }
    }

    /** The pass begins: it reaps and remembers the time. */
    method Begin(active: seq<Task>) returns (now: real)
      requires Valid() && system.pass.None?
      modifies this, registry.workers.Values
      ensures Valid() && registry.workers == old(registry.workers) && clock == old(clock) == now
      ensures Now() == Begun(old(Now()), active, cfg) && system.pass == Some(Pass(now, active))
    {
      hide Reap;
      now := clock;
      var _ := registry.ReapDeadWorkers(now, cfg.heartbeatTimeout);
      system := Next(system, PassBegins(active), cfg.heartbeatTimeout);
    }

    /** Visit `i` of the pass that began in `w`. */
    method Advance(ghost w: World, i: nat, task: Task, now: real, answers: seq<LossAnswer>, log: seq<Effect>)
      returns (more: seq<Effect>, ok: bool)
      requires Valid() && Answered(w, answers) && i < |answers|
      requires w.system.pass.value.now == now && w.system.pass.value.todo[i] == task
      requires LossRun(w, i, answers, cfg) == Progress(Now(), log, true)
      modifies this, telemetry, registry, registry.workers.Values
      ensures Valid() && fresh(registry.workers.Values - old(registry.workers.Values))
      ensures Progress(Now(), more, ok) == LossRun(w, i + 1, answers, cfg)
    {
      hide LossRun, LossVisit, ActedAll, Supervisor.Valid, Registry.View;
      RunStep(w, i, answers, cfg);
      more, ok := VisitOwned(task, now, answers[i]);
      more := log + more;
    }

    /** The part of `_reconcile_stale_executions` that reports lost workers: reap, list, and visit what is listed
        until a visit raises. */
    method FinalizeLost(active: seq<Task>, answers: seq<LossAnswer>) returns (log: seq<Effect>, ok: bool)
      requires Valid() && system.pass.None? && |answers| == |active|
      modifies this, telemetry, registry, registry.workers.Values
      ensures Valid() && fresh(registry.workers.Values - old(registry.workers.Values))
      ensures Progress(Now(), log, ok) == LossRun(Begun(old(Now()), active, cfg), |active|, answers, cfg)
    {
      hide LossRun, Begun, Supervisor.Valid, Registry.View;
      var now := Begin(active);
      ghost var w := Now();
      log, ok := [], true;
      assert LossRun(w, 0, answers, cfg) == Progress(w, [], true) by { RunStarts(w, answers, cfg); }
      for i := 0 to |active|
        invariant Valid() && fresh(registry.workers.Values - old(registry.workers.Values))
        invariant ok && Progress(Now(), log, ok) == LossRun(w, i, answers, cfg)
      {
        log, ok := Advance(w, i, active[i], now, answers, log);
        if !ok {
          StopsHere(w, i + 1, |active|, answers, cfg);
          return;
        }
      }
    }

    /** The stale records of executions that were not listed. */
    method FindOrphans(active: set<string>, now: real) returns (orphans: seq<Record>)
      requires Valid()
      ensures ListsOrphans(orphans, Now(), active, now, cfg)
    {
      hide Unlisted, Registry.View;
      var stale := telemetry.GetStale(now, cfg.staleTimeout);
      orphans := Unlisted(stale, active);
      UnlistedAre(stale, active);
    }

    /** The garbage collection after the loop: cleans up the orphans found at first, while others act. */
    method CollectOrphans(active: set<string>, now: real, others: nat -> seq<Act>) returns (orphans: seq<Record>)
      requires Valid()
      modifies this, telemetry, registry, registry.workers.Values
      ensures Valid() && fresh(registry.workers.Values - old(registry.workers.Values))
      ensures ListsOrphans(orphans, old(Now()), active, now, cfg)
      ensures Now() == OrphanRun(old(Now()), orphans, |orphans|, Listed(others, |orphans|), cfg)
    {
      hide ActedAll, Dropped, ListsOrphans, Registry.View, Supervisor.Valid;
      orphans := FindOrphans(active, now);
      ghost var acts := Listed(others, |orphans|);
      for i := 0 to |orphans|
        invariant Valid() && fresh(registry.workers.Values - old(registry.workers.Values))
        invariant Now() == OrphanRun(old(Now()), orphans, i, acts, cfg)
      {
        Cleanup(orphans[i].taskId, orphans[i].workerId);
        Others(others(i));
      }
    }

    /** `_reconcile_stale_executions`: orphans are collected only if no visit raised. Whatever others do and
        PostgreSQL answers, it is a stretch of a run. */
    method ReconcileStaleExecutions(active: seq<Task>, answers: seq<LossAnswer>, between: seq<Act>, others: nat -> seq<Act>)
      returns (log: seq<Effect>, ok: bool, orphans: seq<Record>)
      requires Valid() && system.pass.None? && |answers| == |active|
      modifies this, telemetry, registry, registry.workers.Values
      ensures Valid() && fresh(registry.workers.Values - old(registry.workers.Values))
      ensures var r := LossRun(Begun(old(Now()), active, cfg), |active|, answers, cfg);
        && log == r.log && ok == r.ok
        && var w := Gap(r, between, cfg);
        && (if ok then ListsOrphans(orphans, w, Ids(active), old(clock), cfg) else orphans == [])
        && Now() == Ended(OrphanRun(w, orphans, |orphans|, Listed(others, |orphans|), cfg))
      ensures Reachable(old(system), cfg.heartbeatTimeout) ==> Reachable(system, cfg.heartbeatTimeout)
    {
      hide LossRun, OrphanRun, Reachable, ListsOrphans, ActedAll, Begun, Ids, Keyed;
      var now := clock;
      log, ok := FinalizeLost(active, answers);
      ghost var r := Now();
      orphans := [];
      if ok {
        Others(between);
        orphans := CollectOrphans(Ids(active), now, others);
      } else {
        NoOrphans(r, Listed(others, 0), cfg);
      }
      Move(Ended(Now()).system);
      if Reachable(old(system), cfg.heartbeatTimeout) {
        PassReachable(old(Now()), active, answers, between, orphans, Listed(others, |orphans|), cfg);
      }
    }
  }

  function Ids(tasks: seq<Task>): set<string> {
    set task | task in tasks :: task.id
  }

  function WorkersAfter(ws: Workers, step: Step, clock: real, timeout: real): Workers {
    match step
    case HeartbeatArrives(id, hb) => Beat(ws, id, hb)
    case SchedulerReaps => Reap(ws, clock, timeout)
    case TelemetryArrives(id, task) => MarkBusy(ws, id, task)
    case WorkerFreed(id, task) => MarkIdle(ws, id, task)
    case _ => ws
  }

  lemma NextWorkers(s: System, step: Step, timeout: real)
    requires IsOutside(step) && Enabled(s, step)
    ensures var s' := Next(s, step, timeout);
      && s'.workers == WorkersAfter(s.workers, step, s.clock, timeout)
      && s'.clock == s.clock + (if step.Tick? then step.elapsed else 0.0)
      && s'.startedAt == s.startedAt
  {
  }

  lemma VisitWorkers(s: System, timeout: real)
    requires Enabled(s, PassVisitsTask)
    ensures var s' := Next(s, PassVisitsTask, timeout); var task := s.pass.value.todo[0];
      && s'.clock == s.clock && s'.startedAt == s.startedAt
      && s'.workers == (if Judge(s.workers, task.worker, s.pass.value.now, s.startedAt, timeout) == StillAlive
                        then MarkBusy(s.workers, task.worker.value, task.id) else s.workers)
  {
  }

  function Listed(others: nat -> seq<Act>, n: nat): (acts: seq<seq<Act>>)
    ensures |acts| == n && forall i :: 0 <= i < n ==> acts[i] == others(i)
  {
    seq(n, i requires 0 <= i < n => others(i))
  }

  /** The world when stale records are listed: others act once more after the visits, unless one raised. */
  function Gap(r: Progress, between: seq<Act>, cfg: Config): World {
    if r.ok then ActedAll(r.world, between, cfg.heartbeatTimeout) else r.world
  }

  function Ended(w: World): World {
    w.(system := w.system.(pass := None))
  }

  lemma NoOrphans(w: World, acts: seq<seq<Act>>, cfg: Config)
    requires acts == []
    ensures OrphanRun(w, [], 0, acts, cfg) == w
  {
  }

  lemma PassReachable(w: World, active: seq<Task>, answers: seq<LossAnswer>, between: seq<Act>, orphans: seq<Record>,
                      acts: seq<seq<Act>>, cfg: Config)
    requires w.system.pass.None? && |answers| == |active| && |acts| == |orphans| && Reachable(w.system, cfg.heartbeatTimeout)
    ensures var w1 := Gap(LossRun(Begun(w, active, cfg), |active|, answers, cfg), between, cfg);
      Reachable(Ended(OrphanRun(w1, orphans, |orphans|, acts, cfg)).system, cfg.heartbeatTimeout)
  {
    hide Reachable, LossRun, OrphanRun, ActedAll;
    var timeout := cfg.heartbeatTimeout;
    ReachableNext(w.system, PassBegins(active), timeout);
    RunReachable(Begun(w, active, cfg), |active|, answers, cfg);
    var r := LossRun(Begun(w, active, cfg), |active|, answers, cfg);
    ActsReachable(r.world, between, timeout);
    var w1 := Gap(r, between, cfg);
    OrphansReachable(w1, orphans, |orphans|, acts, cfg);
    var s := OrphanRun(w1, orphans, |orphans|, acts, cfg).system;
    if s.pass.Some? {
      ReachableNext(s, PassEnds, timeout);
    }
  }

  /** The cancellation pass is a stretch of a run, too. */
  lemma {:induction false} CancelReachable(w: World, tasks: seq<Request>, n: nat, now: real, cfg: Config, answers: seq<Answer>)
    requires n <= |tasks| && |answers| == |tasks| && Reachable(w.system, cfg.heartbeatTimeout)
    ensures Reachable(PassWorld(w, tasks, n, now, cfg, answers).system, cfg.heartbeatTimeout)
  {
    hide Reachable, ActedAll, VisitWorld;
    if n > 0 {
      CancelReachable(w, tasks, n - 1, now, cfg, answers);
      ActsReachable(PassWorld(w, tasks, n - 1, now, cfg, answers), answers[n - 1].before, cfg.heartbeatTimeout);
      CancelVisitReachable(ReadWorld(w, tasks, n - 1, now, cfg, answers), tasks[n - 1], now, cfg, answers[n - 1]);
    }
  }

  lemma CancelVisitReachable(w: World, task: Request, now: real, cfg: Config, answer: Answer)
    requires Reachable(w.system, cfg.heartbeatTimeout)
    ensures Reachable(VisitWorld(w, task, now, cfg, answer).system, cfg.heartbeatTimeout)
  {
    hide Reachable, ActedAll, Reaches;
    ActsReachable(w, answer.during, cfg.heartbeatTimeout);
    var w1 := ActedAll(w, answer.during, cfg.heartbeatTimeout);
    if task.worker.Some? {
      ReachableNext(w1.system, WorkerFreed(task.worker.value, Some(task.id)), cfg.heartbeatTimeout);
    }
  }

  function Unlisted(records: seq<Record>, active: set<string>): seq<Record> {
    if records == [] then []
    else
      var last := records[|records| - 1];
      Unlisted(records[..|records| - 1], active) + if last.taskId in active then [] else [last]
  }

  lemma {:induction false} UnlistedAre(records: seq<Record>, active: set<string>)
    requires forall i, j :: 0 <= i < j < |records| ==> records[i].taskId != records[j].taskId
    ensures forall r :: r in Unlisted(records, active) <==> r in records && r.taskId !in active
    ensures forall i, j :: 0 <= i < j < |Unlisted(records, active)| ==>
              Unlisted(records, active)[i].taskId != Unlisted(records, active)[j].taskId
  {
    if records != [] {
      var init, last := records[..|records| - 1], records[|records| - 1];
      UnlistedAre(init, active);
      assert records == init + [last];
      forall r | r in Unlisted(init, active) ensures r.taskId != last.taskId {
        var k :| 0 <= k < |init| && init[k] == r;
        assert records[k] == r;
      }
    }
  }
}
