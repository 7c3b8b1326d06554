/** The pass over worker-owned executions, which reports lost workers and drops orphaned telemetry
    (services/orchestrator/execution_supervisor.py:123-209). Others act wherever the pass waits; the pass is a
    stretch of a run of the orchestrator, and its verdicts are taken at each visit. */
module WorkerLoss {
  import opened Cancellation
  import opened Liveness
  import opened Options

  /** What PostgreSQL says to a finalisation, which is not guarded: it may raise, find nothing to do, or
      finish, after which announcing it may still raise. */
  datatype Outcome = Fails | Unmoved | Finished(announced: bool)

  /** One visit, seen from outside: what others do before it, while PostgreSQL is asked, and while a wait is
      released and the end is announced. */
  datatype LossAnswer = LossAnswer(before: seq<Act>, outcome: Outcome, during: seq<Act>, after: seq<Act>)

  /** Where the pass is: the world, its effects so far, and whether it still goes on. */
  datatype Progress = Progress(world: World, log: seq<Effect>, ok: bool)

  predicate AtVisit(w: World) {
    w.system.pass.Some? && w.system.pass.value.todo != []
  }

  function Visited(w: World): Task
    requires AtVisit(w)
  {
    w.system.pass.value.todo[0]
  }

  /** The verdict on what is visited next. */
  function VerdictAt(w: World, timeout: real): (verdict: Verdict)
    requires AtVisit(w)
    ensures verdict == Lost ==> Visited(w).worker.Some?
  {
    Judge(w.system.workers, Visited(w).worker, w.system.pass.value.now, w.system.startedAt, timeout)
  }

  /** `_cleanup_execution_runtime`, without its request to release a nested wait. */
  function Dropped(w: World, id: string, worker: string): (r: World)
    ensures r.system.pass == w.system.pass && r.system.startedAt == w.system.startedAt
  {
    World(w.executions - {id}, w.system.(workers := MarkIdle(w.system.workers, worker, Some(id))))
  }

  function LossEffects(task: Task, outcome: Outcome): seq<Effect>
    requires task.worker.Some?
  {
    [Commit(task.id, WORKER_LOST)]
    + match outcome
      case Finished(announced) =>
        [RemoveTelemetry(task.id), FreeWorker(task.worker.value, task.id), ReleaseWait(task.id)]
        + if announced then [Publish(task.id, ERROR)] else []
      case _ => []
  }

  /** One visit, in the world in which the worker is looked up. */
  function LossVisit(w: World, answer: LossAnswer, cfg: Config): (r: Progress)
    requires AtVisit(w)
    ensures r.world.system.pass == Some(w.system.pass.value.(todo := w.system.pass.value.todo[1..]))
    ensures r.world.system.startedAt == w.system.startedAt
  {
    var task := Visited(w);
    var w1 := w.(system := Next(w.system, PassVisitsTask, cfg.heartbeatTimeout));
    if VerdictAt(w, cfg.heartbeatTimeout) != Lost then Progress(w1, [], true)
    else
      var w2 := ActedAll(w1, answer.during, cfg.heartbeatTimeout);
      match answer.outcome
      case Fails => Progress(w2, LossEffects(task, answer.outcome), false)
      case Unmoved => Progress(w2, LossEffects(task, answer.outcome), true)
      case Finished(announced) =>
        Progress(ActedAll(Dropped(w2, task.id, task.worker.value), answer.after, cfg.heartbeatTimeout),
                 LossEffects(task, answer.outcome), announced)
  }

  /** The pass has just begun: workers are reaped, the listing is to come. */
  function Begun(w: World, listed: seq<Task>, cfg: Config): World
    requires w.system.pass.None?
  {
    w.(system := Next(w.system, PassBegins(listed), cfg.heartbeatTimeout))
  }

  ghost predicate Answered(w: World, answers: seq<LossAnswer>) {
    w.system.pass.Some? && |answers| == |w.system.pass.value.todo|
  }

  /** The pass after `n` visits. A visit that raises ends it. */
  ghost function LossRun(w: World, n: nat, answers: seq<LossAnswer>, cfg: Config): (r: Progress)
    requires Answered(w, answers) && n <= |answers|
    ensures r.ok ==> r.world.system.pass == Some(w.system.pass.value.(todo := w.system.pass.value.todo[n..]))
    ensures r.world.system.startedAt == w.system.startedAt
    decreases n, 0
  {
    if n == 0 then Progress(w, [], true)
    else
      var before := LossRun(w, n - 1, answers, cfg);
      if !before.ok then before
      else
        var visit := LossVisit(ReadAt(w, n - 1, answers, cfg), answers[n - 1], cfg);
        assert w.system.pass.value.todo[n - 1..][1..] == w.system.pass.value.todo[n..];
        Progress(visit.world, before.log + visit.log, visit.ok)
  }

  /** The world in which visit `i` looks up the worker. */
  ghost function ReadAt(w: World, i: nat, answers: seq<LossAnswer>, cfg: Config): (r: World)
    requires Answered(w, answers) && i < |answers| && LossRun(w, i, answers, cfg).ok
    ensures AtVisit(r) && Visited(r) == w.system.pass.value.todo[i]
    ensures r.system.pass.value.now == w.system.pass.value.now && r.system.startedAt == w.system.startedAt
    decreases i, 1
  {
    ActedAll(LossRun(w, i, answers, cfg).world, answers[i].before, cfg.heartbeatTimeout)
  }

  lemma RunStarts(w: World, answers: seq<LossAnswer>, cfg: Config)
    requires Answered(w, answers)
    ensures LossRun(w, 0, answers, cfg) == Progress(w, [], true)
  {
  }

  lemma RunStep(w: World, i: nat, answers: seq<LossAnswer>, cfg: Config)
    requires Answered(w, answers) && i < |answers| && LossRun(w, i, answers, cfg).ok
    ensures var before := LossRun(w, i, answers, cfg);
      && AtVisit(before.world) && Visited(before.world) == w.system.pass.value.todo[i]
      && before.world.system.pass.value.now == w.system.pass.value.now
      && var visit := LossVisit(ActedAll(before.world, answers[i].before, cfg.heartbeatTimeout), answers[i], cfg);
      LossRun(w, i + 1, answers, cfg) == Progress(visit.world, before.log + visit.log, visit.ok)
  {
    hide LossVisit, ActedAll;
  }

  /** Visit `i` takes place and finds its worker lost. */
  ghost predicate FoundLost(w: World, i: nat, answers: seq<LossAnswer>, cfg: Config)
    requires Answered(w, answers) && i < |answers|
  {
    LossRun(w, i, answers, cfg).ok && VerdictAt(ReadAt(w, i, answers, cfg), cfg.heartbeatTimeout) == Lost
  }

  /** Visit `i` raises: PostgreSQL did, or the announcement did. */
  ghost predicate Aborts(w: World, i: nat, answers: seq<LossAnswer>, cfg: Config)
    requires Answered(w, answers) && i < |answers|
  {
    FoundLost(w, i, answers, cfg) && (answers[i].outcome == Fails || answers[i].outcome == Finished(false))
  }

  lemma VisitGoesOn(w: World, answer: LossAnswer, cfg: Config)
    requires AtVisit(w)
    ensures LossVisit(w, answer, cfg).ok <==>
      !(VerdictAt(w, cfg.heartbeatTimeout) == Lost && (answer.outcome == Fails || answer.outcome == Finished(false)))
  {
    hide ActedAll, Next, VerdictAt;
  }

  /** A visit takes place exactly when no earlier one raised. */
  lemma {:induction false} GoesOnExactly(w: World, n: nat, answers: seq<LossAnswer>, cfg: Config)
    requires Answered(w, answers) && n <= |answers|
    ensures LossRun(w, n, answers, cfg).ok <==> forall j :: 0 <= j < n ==> !Aborts(w, j, answers, cfg)
  {
    hide ActedAll, Judge, LossVisit, VerdictAt;
    if n > 0 {
      GoesOnExactly(w, n - 1, answers, cfg);
      if LossRun(w, n - 1, answers, cfg).ok {
        VisitGoesOn(ReadAt(w, n - 1, answers, cfg), answers[n - 1], cfg);
      }
      assert LossRun(w, n, answers, cfg).ok <==> LossRun(w, n - 1, answers, cfg).ok && !Aborts(w, n - 1, answers, cfg);
    }
  }

  ghost predicate DistinctTasks(tasks: seq<Task>) {
    forall i, j :: 0 <= i < j < |tasks| ==> tasks[i].id != tasks[j].id
  }

  lemma VisitLog(w: World, answer: LossAnswer, cfg: Config)
    requires AtVisit(w)
    ensures var log := LossVisit(w, answer, cfg).log;
      && (Commit(Visited(w).id, WORKER_LOST) in log <==> VerdictAt(w, cfg.heartbeatTimeout) == Lost)
      && forall e :: e in log ==> e.task == Visited(w).id
  {
    hide ActedAll, Next;
    if VerdictAt(w, cfg.heartbeatTimeout) == Lost {
      assert LossVisit(w, answer, cfg).log[0] == Commit(Visited(w).id, WORKER_LOST);
    }
  }

  /** The executions put to PostgreSQL as WORKER_LOST are exactly those whose worker is found lost at their own
      visit, up to and including the first visit that raises. */
  lemma {:induction false} PutForwardExactly(w: World, n: nat, answers: seq<LossAnswer>, cfg: Config, i: nat)
    requires Answered(w, answers) && i < |answers| && n <= |answers| && DistinctTasks(w.system.pass.value.todo)
    ensures Commit(w.system.pass.value.todo[i].id, WORKER_LOST) in LossRun(w, n, answers, cfg).log
       <==> i < n && FoundLost(w, i, answers, cfg)
  {
    hide ActedAll, Judge, LossVisit, LossRun;
    if n == 0 {
      RunStarts(w, answers, cfg);
    } else {
      PutForwardExactly(w, n - 1, answers, cfg, i);
      if LossRun(w, n - 1, answers, cfg).ok {
        RunStep(w, n - 1, answers, cfg);
        VisitLog(ReadAt(w, n - 1, answers, cfg), answers[n - 1], cfg);
      } else {
        StopsHere(w, n - 1, n, answers, cfg);
      }
    }
  }

  /** Once a visit has raised, no further one takes place. */
  lemma {:induction false} StopsHere(w: World, n: nat, m: nat, answers: seq<LossAnswer>, cfg: Config)
    requires Answered(w, answers) && n <= m <= |answers| && !LossRun(w, n, answers, cfg).ok
    ensures LossRun(w, m, answers, cfg) == LossRun(w, n, answers, cfg)
    decreases m - n
  {
    if n < m {
      StopsHere(w, n, m - 1, answers, cfg);
    }
  }

  /** A first visit that nobody disturbs and that changes nothing, on an empty registry. */
  lemma FirstIsLost(w: World, answers: seq<LossAnswer>, cfg: Config)
    requires Answered(w, answers) && |answers| > 0 && w.system.workers == map[]
    requires w.system.pass.value.todo[0].worker.Some?
    requires w.system.pass.value.now - w.system.startedAt >= cfg.heartbeatTimeout
    requires answers[0].before == [] && answers[0].during == [] && !answers[0].outcome.Finished?
    ensures FoundLost(w, 0, answers, cfg) && LossRun(w, 1, answers, cfg).world.system.workers == map[]
  {
    ActsNone(w, cfg.heartbeatTimeout);
    hide ActedAll;
    assert LossRun(w, 0, answers, cfg) == Progress(w, [], true);
    assert ReadAt(w, 0, answers, cfg) == w;
    ActsNone(w.(system := Next(w.system, PassVisitsTask, cfg.heartbeatTimeout)), cfg.heartbeatTimeout);
  }

  /** Such a pass: two executions of workers that were never heard from, past the startup grace, of which the first
      cannot be finalised. The second worker is as lost, but is put forward only if the first visit goes on. */
  lemma RaisingHidesTheNext(w: World, first: Task, second: Task, answer: LossAnswer, cfg: Config)
    requires first.id != second.id && first.worker.Some? && second.worker.Some? && w.system.workers == map[]
    requires w.system.pass.Some? && w.system.pass.value.todo == [first, second]
    requires w.system.pass.value.now - w.system.startedAt >= cfg.heartbeatTimeout
    requires answer.before == []
    ensures var fails := [LossAnswer([], Fails, [], []), answer]; var r := LossRun(w, 2, fails, cfg);
      && !r.ok && Commit(first.id, WORKER_LOST) in r.log && Commit(second.id, WORKER_LOST) !in r.log
      && Judge(r.world.system.workers, second.worker, w.system.pass.value.now, w.system.startedAt, cfg.heartbeatTimeout) == Lost
    ensures Commit(second.id, WORKER_LOST) in LossRun(w, 2, [LossAnswer([], Unmoved, [], []), answer], cfg).log
  {
    hide LossRun, ActedAll, LossVisit;
    var fails, goes := [LossAnswer([], Fails, [], []), answer], [LossAnswer([], Unmoved, [], []), answer];
    FirstIsLost(w, fails, cfg);
    FirstIsLost(w, goes, cfg);
    assert Aborts(w, 0, fails, cfg);
    GoesOnExactly(w, 1, fails, cfg);
    GoesOnExactly(w, 2, fails, cfg);
    GoesOnExactly(w, 1, goes, cfg);
    PutForwardExactly(w, 2, fails, cfg, 0);
    PutForwardExactly(w, 2, fails, cfg, 1);
    PutForwardExactly(w, 2, goes, cfg, 1);
    ActsNone(LossRun(w, 1, goes, cfg).world, cfg.heartbeatTimeout);
    assert FoundLost(w, 1, goes, cfg);
    StopsHere(w, 1, 2, fails, cfg);
  }

  // ---- what follows a finalisation -----------------------------------------------------------------------------

  /** The cleanup of a lost task; it is announced as an error if nothing raises before. */
  predicate LossBelongs(e: Effect, task: Task, announced: bool) {
    match e
    case RemoveTelemetry(id) => id == task.id
    case FreeWorker(worker, id) => id == task.id && task.worker == Some(worker)
    case ReleaseWait(id) => id == task.id
    case Publish(id, status) => id == task.id && status == ERROR && announced
    case _ => false
  }

  /** A visit cleans up exactly if the worker is found lost and PostgreSQL finalises the task. */
  lemma LossCleanupExactly(w: World, answer: LossAnswer, cfg: Config, e: Effect)
    requires AtVisit(w) && IsCleanup(e)
    ensures e in LossVisit(w, answer, cfg).log <==>
      && VerdictAt(w, cfg.heartbeatTimeout) == Lost
      && answer.outcome.Finished? && LossBelongs(e, Visited(w), answer.outcome.announced)
  {
    hide ActedAll, Next, Dropped, Judge;
    if VerdictAt(w, cfg.heartbeatTimeout) == Lost && answer.outcome.Finished? {
      var log, task := LossVisit(w, answer, cfg).log, Visited(w);
      assert log[1] == RemoveTelemetry(task.id) && log[2] == FreeWorker(task.worker.value, task.id);
      assert log[3] == ReleaseWait(task.id);
      assert answer.outcome.announced ==> log[4] == Publish(task.id, ERROR);
    }
  }

  /** The same for every listed task of a pass: it is cleaned up exactly if its own visit takes place, finds the worker
      lost and is answered by a finalisation. */
  lemma {:induction false} PassLossCleanup(w: World, n: nat, answers: seq<LossAnswer>, cfg: Config, i: nat, e: Effect)
    requires Answered(w, answers) && i < |answers| && n <= |answers| && DistinctTasks(w.system.pass.value.todo)
    requires IsCleanup(e) && e.task == w.system.pass.value.todo[i].id
    ensures e in LossRun(w, n, answers, cfg).log <==>
      && i < n && FoundLost(w, i, answers, cfg)
      && answers[i].outcome.Finished? && LossBelongs(e, w.system.pass.value.todo[i], answers[i].outcome.announced)
  {
    hide ActedAll, Judge, LossVisit, LossRun, LossBelongs;
    if n == 0 {
      RunStarts(w, answers, cfg);
    } else {
      PassLossCleanup(w, n - 1, answers, cfg, i, e);
      if LossRun(w, n - 1, answers, cfg).ok {
        RunStep(w, n - 1, answers, cfg);
        VisitLog(ReadAt(w, n - 1, answers, cfg), answers[n - 1], cfg);
        LossCleanupExactly(ReadAt(w, n - 1, answers, cfg), answers[n - 1], cfg, e);
      } else {
        StopsHere(w, n - 1, n, answers, cfg);
      }
    }
  }

  /** The registries after a visit. A live worker is marked busy with its task. A lost one changes nothing, the others
      do, until PostgreSQL finalises the task: then its record is gone, the worker is freed, and the others go on. */
  lemma LossWorldExactly(w: World, answer: LossAnswer, cfg: Config)
    requires AtVisit(w)
    ensures var r, task, verdict := LossVisit(w, answer, cfg).world, Visited(w), VerdictAt(w, cfg.heartbeatTimeout);
      && (verdict != Lost ==> r.executions == w.executions)
      && (verdict == StillAlive ==> Taken(w.system.workers, r.system.workers, task.worker.value, task.id))
      && (verdict == Unassigned || verdict == StartupGrace ==> r.system.workers == w.system.workers)
      && (verdict == Lost ==>
            var w1 := w.(system := Next(w.system, PassVisitsTask, cfg.heartbeatTimeout));
            var w2 := ActedAll(w1, answer.during, cfg.heartbeatTimeout);
            && w1.system.workers == w.system.workers
            && (!answer.outcome.Finished? ==> r == w2)
            && (answer.outcome.Finished? ==>
                  exists w3 :: IsCleared(w2, w3, task) && r == ActedAll(w3, answer.after, cfg.heartbeatTimeout)))
  {
    hide ActedAll, LossEffects, Next, Taken, Dropped, IsCleared, Judge;
    var timeout := cfg.heartbeatTimeout;
    VisitRegistry(w, timeout);
    if VerdictAt(w, timeout) == Lost {
      var w1 := w.(system := Next(w.system, PassVisitsTask, timeout));
      DroppedIsCleared(ActedAll(w1, answer.during, timeout), Visited(w));
    }
  }

  /** The record of the task is gone and its worker is freed; nothing else changes. */
  ghost predicate IsCleared(w: World, r: World, task: Task)
    requires task.worker.Some?
  {
    && r.executions == w.executions - {task.id}
    && r.system == w.system.(workers := r.system.workers)
    && Freed(w.system.workers, r.system.workers, task.worker.value, task.id)
  }

  lemma DroppedIsCleared(w: World, task: Task)
    requires task.worker.Some?
    ensures IsCleared(w, Dropped(w, task.id, task.worker.value), task)
  {
    hide MarkIdle, Freed;
    IdleIsFreed(w.system.workers, task.worker.value, task.id);
  }

  lemma VisitRegistry(w: World, timeout: real)
    requires AtVisit(w)
    ensures var task, verdict, s := Visited(w), VerdictAt(w, timeout), Next(w.system, PassVisitsTask, timeout);
      && (verdict == StillAlive ==> task.worker.Some? && Taken(w.system.workers, s.workers, task.worker.value, task.id))
      && (verdict != StillAlive ==> s.workers == w.system.workers)
  {
  }

  // ---- the pass is a stretch of a run ------------------------------------------------------------------------

  lemma {:induction false} ActsReachable(w: World, acts: seq<Act>, timeout: real)
    requires Reachable(w.system, timeout)
    ensures Reachable(ActedAll(w, acts, timeout).system, timeout)
  {
    hide Reachable, Next, Enabled;
    if acts != [] {
      ActsReachable(w, acts[..|acts| - 1], timeout);
      var w1, act := ActedAll(w, acts[..|acts| - 1], timeout), acts[|acts| - 1];
      if act.Happens? && IsOutside(act.step) && Enabled(w1.system, act.step) {
        ReachableNext(w1.system, act.step, timeout);
      }
    }
  }

  lemma VisitReachable(w: World, answer: LossAnswer, cfg: Config)
    requires AtVisit(w) && Reachable(w.system, cfg.heartbeatTimeout)
    ensures Reachable(LossVisit(w, answer, cfg).world.system, cfg.heartbeatTimeout)
  {
    hide Reachable;
    var timeout := cfg.heartbeatTimeout;
    var w1 := w.(system := Next(w.system, PassVisitsTask, timeout));
    ReachableNext(w.system, PassVisitsTask, timeout);
    ActsReachable(w1, answer.during, timeout);
    var w2 := ActedAll(w1, answer.during, timeout);
    if VerdictAt(w, timeout) == Lost {
      var task := Visited(w);
      ReachableNext(w2.system, WorkerFreed(task.worker.value, Some(task.id)), timeout);
      ActsReachable(Dropped(w2, task.id, task.worker.value), answer.after, timeout);
    }
  }

  /** Whatever others do and PostgreSQL answers, every state of the pass is a state of a run. */
  lemma {:induction false} RunReachable(w: World, n: nat, answers: seq<LossAnswer>, cfg: Config)
    requires Answered(w, answers) && n <= |answers| && Reachable(w.system, cfg.heartbeatTimeout)
    ensures Reachable(LossRun(w, n, answers, cfg).world.system, cfg.heartbeatTimeout)
  {
    hide Reachable, LossVisit;
    if n > 0 {
      RunReachable(w, n - 1, answers, cfg);
      if LossRun(w, n - 1, answers, cfg).ok {
        ActsReachable(LossRun(w, n - 1, answers, cfg).world, answers[n - 1].before, cfg.heartbeatTimeout);
        VisitReachable(ReadAt(w, n - 1, answers, cfg), answers[n - 1], cfg);
      }
    }
  }

  /** Whoever is put forward as lost has been silent for a whole timeout at that moment. */
  lemma LossIsSafe(w: World, answers: seq<LossAnswer>, cfg: Config, i: nat)
    requires Answered(w, answers) && i < |answers| && Reachable(w.system, cfg.heartbeatTimeout)
    requires FoundLost(w, i, answers, cfg)
    ensures var s := ReadAt(w, i, answers, cfg).system; var worker := w.system.pass.value.todo[i].worker;
      worker.Some? && Silent(s.received, |s.received|, worker.value, s.clock, cfg.heartbeatTimeout)
  {
    hide Reachable, LossRun, Silent;
    RunReachable(w, i, answers, cfg);
    var timeout, r := cfg.heartbeatTimeout, ReadAt(w, i, answers, cfg);
    ActsReachable(LossRun(w, i, answers, cfg).world, answers[i].before, timeout);
    ReachableInvariant(r.system, timeout);
    LostIsSilent(r.system, Visited(r).worker.value, timeout);
  }

  /** So does what follows: the clean-up of orphans, and the end of the pass. */
  lemma {:induction false} OrphansReachable(w: World, orphans: seq<Record>, n: nat, acts: seq<seq<Act>>, cfg: Config)
    requires n <= |orphans| && |acts| == |orphans| && Reachable(w.system, cfg.heartbeatTimeout)
    ensures Reachable(OrphanRun(w, orphans, n, acts, cfg).system, cfg.heartbeatTimeout)
  {
    hide Reachable, ActedAll;
    if n > 0 {
      OrphansReachable(w, orphans, n - 1, acts, cfg);
      var w1, orphan := OrphanRun(w, orphans, n - 1, acts, cfg), orphans[n - 1];
      ReachableNext(w1.system, WorkerFreed(orphan.workerId, Some(orphan.taskId)), cfg.heartbeatTimeout);
      ActsReachable(Dropped(w1, orphan.taskId, orphan.workerId), acts[n - 1], cfg.heartbeatTimeout);
    }
  }

  // ---- without heartbeats and reaping meanwhile -----------------------------------------------------------------

  /** What liveness is judged by. */
  predicate SameLiveness(a: Workers, b: Workers) {
    && a.Keys == b.Keys
    && forall id :: id in a ==> a[id].online == b[id].online && a[id].lastReceivedAt == b[id].lastReceivedAt
  }

  lemma SameItself(a: Workers)
    ensures SameLiveness(a, a)
  {
  }

  lemma SameTrans(a: Workers, b: Workers, c: Workers)
    requires SameLiveness(a, b) && SameLiveness(b, c)
    ensures SameLiveness(a, c)
  {
  }

  /** Nobody is heard from and nobody is reaped. */
  ghost predicate IsQuiet(acts: seq<Act>) {
    forall i :: 0 <= i < |acts| && acts[i].Happens? ==> !acts[i].step.HeartbeatArrives? && !acts[i].step.SchedulerReaps?
  }

  lemma {:induction false} QuietActs(w: World, acts: seq<Act>, timeout: real)
    requires IsQuiet(acts)
    ensures SameLiveness(ActedAll(w, acts, timeout).system.workers, w.system.workers)
  {
    if acts != [] {
      QuietActs(w, acts[..|acts| - 1], timeout);
    }
  }

  lemma QuietStep(w: World, timeout: real)
    requires AtVisit(w)
    ensures SameLiveness(Next(w.system, PassVisitsTask, timeout).workers, w.system.workers)
  {
    hide Judge;
  }

  lemma QuietDrop(w: World, id: string, worker: string)
    ensures SameLiveness(Dropped(w, id, worker).system.workers, w.system.workers)
  {
  }

  lemma QuietVisit(w: World, answer: LossAnswer, cfg: Config)
    requires AtVisit(w) && IsQuiet(answer.during) && IsQuiet(answer.after)
    ensures SameLiveness(LossVisit(w, answer, cfg).world.system.workers, w.system.workers)
  {
    hide ActedAll, IsQuiet, Judge, Next, Dropped, LossEffects, SameLiveness;
    var timeout := cfg.heartbeatTimeout;
    var w1 := w.(system := Next(w.system, PassVisitsTask, timeout));
    var w2, task := ActedAll(w1, answer.during, timeout), Visited(w);
    QuietStep(w, timeout);
    QuietActs(w1, answer.during, timeout);
    SameTrans(w2.system.workers, w1.system.workers, w.system.workers);
    if VerdictAt(w, timeout) == Lost {
      var w3 := Dropped(w2, task.id, task.worker.value);
      QuietDrop(w2, task.id, task.worker.value);
      QuietActs(w3, answer.after, timeout);
      SameTrans(ActedAll(w3, answer.after, timeout).system.workers, w3.system.workers, w2.system.workers);
      SameTrans(ActedAll(w3, answer.after, timeout).system.workers, w2.system.workers, w.system.workers);
    }
  }

  ghost predicate AreQuiet(answers: seq<LossAnswer>) {
    forall j :: 0 <= j < |answers| ==> IsQuiet(answers[j].before) && IsQuiet(answers[j].during) && IsQuiet(answers[j].after)
  }

  lemma {:induction false} QuietRun(w: World, n: nat, answers: seq<LossAnswer>, cfg: Config)
    requires Answered(w, answers) && n <= |answers|
    requires AreQuiet(answers)
    ensures SameLiveness(LossRun(w, n, answers, cfg).world.system.workers, w.system.workers)
  {
    hide ActedAll, IsQuiet, LossVisit, LossRun, SameLiveness;
    if n == 0 {
      RunStarts(w, answers, cfg);
      SameItself(w.system.workers);
    } else {
      QuietRun(w, n - 1, answers, cfg);
      var before := LossRun(w, n - 1, answers, cfg);
      if before.ok {
        var w1 := ActedAll(before.world, answers[n - 1].before, cfg.heartbeatTimeout);
        QuietActs(before.world, answers[n - 1].before, cfg.heartbeatTimeout);
        RunStep(w, n - 1, answers, cfg);
        QuietVisit(w1, answers[n - 1], cfg);
        SameTrans(w1.system.workers, before.world.system.workers, w.system.workers);
        SameTrans(LossVisit(w1, answers[n - 1], cfg).world.system.workers, w1.system.workers, w.system.workers);
      } else {
        StopsHere(w, n - 1, n, answers, cfg);
      }
    }
  }

  /** If nobody is heard from or reaped while the pass waits, each verdict is the one right after the pass reaped,
      although its own clean-ups change the registry. */
  lemma QuietVerdicts(w: World, answers: seq<LossAnswer>, cfg: Config, i: nat)
    requires Answered(w, answers) && i < |answers| && LossRun(w, i, answers, cfg).ok
    requires AreQuiet(answers)
    ensures VerdictAt(ReadAt(w, i, answers, cfg), cfg.heartbeatTimeout)
         == Judge(w.system.workers, w.system.pass.value.todo[i].worker, w.system.pass.value.now, w.system.startedAt, cfg.heartbeatTimeout)
  {
    hide ActedAll, IsQuiet, LossRun;
    QuietRun(w, i, answers, cfg);
    QuietActs(LossRun(w, i, answers, cfg).world, answers[i].before, cfg.heartbeatTimeout);
  }

  // ---- orphaned telemetry ----------------------------------------------------------------------------------------

  /** The stale records of executions that were not listed, in some order. */
  ghost predicate ListsOrphans(orphans: seq<Record>, w: World, active: set<string>, now: real, cfg: Config) {
    && (forall r :: r in orphans <==>
          r.taskId in w.executions && w.executions[r.taskId] == r && r.Stale(now, cfg.staleTimeout) && r.taskId !in active)
    && forall i, j :: 0 <= i < j < |orphans| ==> orphans[i].taskId != orphans[j].taskId
  }

  /** The world after the first `n` orphans are cleaned up; others act after each, while a wait is released. */
  function OrphanRun(w: World, orphans: seq<Record>, n: nat, acts: seq<seq<Act>>, cfg: Config): (r: World)
    requires n <= |orphans| && |acts| == |orphans|
    ensures r.system.pass == w.system.pass
  {
    if n == 0 then w
    else
      ActedAll(Dropped(OrphanRun(w, orphans, n - 1, acts, cfg), orphans[n - 1].taskId, orphans[n - 1].workerId),
               acts[n - 1], cfg.heartbeatTimeout)
  }

  /** What the others did from clean-up `k` on, up to clean-up `n`. */
  function Since(acts: seq<seq<Act>>, k: nat, n: nat): seq<Act>
    requires n <= |acts|
  {
    if n <= k then [] else Since(acts, k, n - 1) + acts[n - 1]
  }

  /** Between two clean-ups without `id`, its record is what the others make of it. */
  lemma {:induction false} OthersStay(w: World, orphans: seq<Record>, k: nat, n: nat, acts: seq<seq<Act>>, cfg: Config,
                                      v: World, id: string)
    requires k <= n <= |orphans| && |acts| == |orphans| && forall j :: k <= j < n ==> orphans[j].taskId != id
    requires Telemetry(OrphanRun(w, orphans, k, acts, cfg), id) == Telemetry(v, id)
    ensures Telemetry(OrphanRun(w, orphans, n, acts, cfg), id)
         == Telemetry(ActedAll(v, Since(acts, k, n), cfg.heartbeatTimeout), id)
    decreases n
  {
    hide ActedAll;
    var timeout := cfg.heartbeatTimeout;
    if n > k {
      OthersStay(w, orphans, k, n - 1, acts, cfg, v, id);
      var w1 := OrphanRun(w, orphans, n - 1, acts, cfg);
      SameTelemetry(Dropped(w1, orphans[n - 1].taskId, orphans[n - 1].workerId), ActedAll(v, Since(acts, k, n - 1), timeout),
                    acts[n - 1], timeout, id);
      ActsCompose(v, Since(acts, k, n - 1), acts[n - 1], timeout);
    } else {
      ActsNone(v, timeout);
    }
  }

  /** The clean-up of an orphan removes whatever record is stored then, also one that was renewed since it was
      found stale; only what the others do from then on counts. */
  lemma OrphanIsGone(w: World, orphans: seq<Record>, k: nat, acts: seq<seq<Act>>, cfg: Config)
    requires k < |orphans| && |acts| == |orphans|
    ensures var id := orphans[k].taskId;
      Telemetry(OrphanRun(w, orphans, k + 1, acts, cfg), id)
      == Telemetry(ActedAll(Without(w, id), acts[k], cfg.heartbeatTimeout), id)
  {
    hide ActedAll;
    var id := orphans[k].taskId;
    SameTelemetry(Dropped(OrphanRun(w, orphans, k, acts, cfg), id, orphans[k].workerId), Without(w, id),
                  acts[k], cfg.heartbeatTimeout, id);
  }

  /** Every record is stored under the id of its execution. */
  ghost predicate Keyed(executions: Executions) {
    forall id :: id in executions ==> executions[id].taskId == id
  }

  /** An execution is cleaned up when it has a stale record and was not listed. */
  predicate IsOrphan(w: World, active: set<string>, now: real, cfg: Config, id: string) {
    id in w.executions && w.executions[id].Stale(now, cfg.staleTimeout) && id !in active
  }

  /** Clean-up `k` is the one of `id`, or none is and `k` is the end. */
  predicate IsTurn(orphans: seq<Record>, k: nat, id: string) {
    k <= |orphans| && if k < |orphans| then orphans[k].taskId == id else forall r :: r in orphans ==> r.taskId != id
  }

  /** An execution has a turn exactly when it is an orphan. */
  lemma TurnsAreOrphans(w: World, orphans: seq<Record>, active: set<string>, now: real, cfg: Config, id: string) returns (k: nat)
    requires Keyed(w.executions) && ListsOrphans(orphans, w, active, now, cfg)
    ensures IsTurn(orphans, k, id) && (k < |orphans| <==> IsOrphan(w, active, now, cfg, id))
  {
    if IsOrphan(w, active, now, cfg, id) {
      assert w.executions[id] in orphans;
      k :| 0 <= k < |orphans| && orphans[k] == w.executions[id];
    } else {
      k := |orphans|;
    }
  }

  /** What the clean-up leaves of any execution, whatever the others store or drop meanwhile: an orphan has what
      the acts from its turn on make of nothing; anything else has what all acts make of its record. */
  lemma OrphansExactly(w: World, orphans: seq<Record>, active: set<string>, now: real, acts: seq<seq<Act>>, cfg: Config,
                       id: string, k: nat)
    requires Keyed(w.executions) && ListsOrphans(orphans, w, active, now, cfg) && |acts| == |orphans|
    requires IsTurn(orphans, k, id)
    ensures k < |orphans| <==> IsOrphan(w, active, now, cfg, id)
    ensures Telemetry(OrphanRun(w, orphans, |orphans|, acts, cfg), id)
         == if IsOrphan(w, active, now, cfg, id)
            then Telemetry(ActedAll(Without(w, id), Since(acts, k, |acts|), cfg.heartbeatTimeout), id)
            else Telemetry(ActedAll(w, Since(acts, 0, |acts|), cfg.heartbeatTimeout), id)
  {
    hide OrphanRun, Since, ActedAll;
    var turn := TurnsAreOrphans(w, orphans, active, now, cfg, id);
    if turn < |orphans| {
      assert orphans[turn] in orphans;
      AfterTurn(w, orphans, k, acts, cfg);
    } else {
      StartsHere(w, orphans, acts, cfg);
      OthersStay(w, orphans, 0, |orphans|, acts, cfg, w, id);
    }
  }

  lemma StartsHere(w: World, orphans: seq<Record>, acts: seq<seq<Act>>, cfg: Config)
    requires |acts| == |orphans|
    ensures OrphanRun(w, orphans, 0, acts, cfg) == w
  {
  }

  lemma AfterTurn(w: World, orphans: seq<Record>, k: nat, acts: seq<seq<Act>>, cfg: Config)
    requires k < |orphans| && |acts| == |orphans|
    requires forall i, j :: 0 <= i < j < |orphans| ==> orphans[i].taskId != orphans[j].taskId
    ensures var id := orphans[k].taskId;
      Telemetry(OrphanRun(w, orphans, |orphans|, acts, cfg), id)
      == Telemetry(ActedAll(Without(w, id), Since(acts, k, |acts|), cfg.heartbeatTimeout), id)
  {
    hide OrphanRun, ActedAll, Telemetry, Without;
    var id, timeout := orphans[k].taskId, cfg.heartbeatTimeout;
    OrphanIsGone(w, orphans, k, acts, cfg);
    var v := ActedAll(Without(w, id), acts[k], timeout);
    OthersStay(w, orphans, k + 1, |orphans|, acts, cfg, v, id);
    SinceSplits(acts, k, |acts|);
    ActsCompose(Without(w, id), acts[k], Since(acts, k + 1, |acts|), timeout);
  }

  lemma {:induction false} SinceSplits(acts: seq<seq<Act>>, k: nat, n: nat)
    requires k < n <= |acts|
    ensures Since(acts, k, n) == acts[k] + Since(acts, k + 1, n)
  {
    if n > k + 1 {
      SinceSplits(acts, k, n - 1);
    }
  }

  // ---- which records remain ----------------------------------------------------------------------------------

  /** The others leave `id` alone from clean-up `j` on. */
  ghost predicate LeavesFrom(acts: seq<seq<Act>>, j: nat, id: string) {
    forall i :: j <= i < |acts| ==> Leaves(acts[i], id)
  }

  lemma {:induction false} SinceLeaves(acts: seq<seq<Act>>, k: nat, n: nat, id: string)
    requires n <= |acts| && LeavesFrom(acts, k, id)
    ensures Leaves(Since(acts, k, n), id)
  {
    if n > k {
      SinceLeaves(acts, k, n - 1, id);
    }
  }

  /** Where the others leave a record alone, it remains exactly if its execution is no orphan. */
  lemma UntouchedExactly(w: World, orphans: seq<Record>, active: set<string>, now: real, acts: seq<seq<Act>>, cfg: Config, id: string)
    requires Keyed(w.executions) && ListsOrphans(orphans, w, active, now, cfg) && |acts| == |orphans|
    requires LeavesFrom(acts, 0, id)
    ensures Telemetry(OrphanRun(w, orphans, |orphans|, acts, cfg), id)
         == if id in w.executions && (id in active || !w.executions[id].Stale(now, cfg.staleTimeout))
            then Some(w.executions[id]) else None
  {
    hide OrphanRun, Since, ActedAll, Leaves, ListsOrphans;
    var k := TurnsAreOrphans(w, orphans, active, now, cfg, id);
    OrphansExactly(w, orphans, active, now, acts, cfg, id, k);
    SinceLeaves(acts, 0, |acts|, id);
    SinceLeaves(acts, k, |acts|, id);
    LeavesTelemetry(w, Since(acts, 0, |acts|), cfg.heartbeatTimeout, id);
    LeavesTelemetry(Without(w, id), Since(acts, k, |acts|), cfg.heartbeatTimeout, id);
  }

  /** The last thing that the others do with `id` is to store `record`, after clean-up `j`. */
  ghost predicate StoredLast(acts: seq<seq<Act>>, j: nat, m: nat, record: Record) {
    && j < |acts| && m < |acts[j]| && acts[j][m] == Upserts(record)
    && Leaves(acts[j][m + 1..], record.taskId)
    && LeavesFrom(acts, j + 1, record.taskId)
  }

  lemma StoredStays(w: World, acts: seq<Act>, m: nat, timeout: real, record: Record)
    requires m < |acts| && acts[m] == Upserts(record) && Leaves(acts[m + 1..], record.taskId)
    ensures Telemetry(ActedAll(w, acts, timeout), record.taskId) == Some(record)
  {
    hide Leaves;
    ActsCompose(w, acts[..m + 1], acts[m + 1..], timeout);
    assert acts[..m + 1] + acts[m + 1..] == acts && acts[..m + 1][..m] == acts[..m];
    assert Telemetry(ActedAll(w, acts[..m + 1], timeout), record.taskId) == Some(record);
    hide ActedAll;
    LeavesTelemetry(ActedAll(w, acts[..m + 1], timeout), acts[m + 1..], timeout, record.taskId);
  }

  lemma {:induction false} StoredSince(w: World, acts: seq<seq<Act>>, k: nat, n: nat, j: nat, m: nat, timeout: real, record: Record)
    requires k <= j < n <= |acts| && StoredLast(acts, j, m, record)
    ensures Telemetry(ActedAll(w, Since(acts, k, n), timeout), record.taskId) == Some(record)
  {
    hide ActedAll, Leaves;
    ActsCompose(w, Since(acts, k, n - 1), acts[n - 1], timeout);
    var w1 := ActedAll(w, Since(acts, k, n - 1), timeout);
    if n == j + 1 {
      StoredStays(w1, acts[j], m, timeout, record);
    } else {
      StoredSince(w, acts, k, n - 1, j, m, timeout, record);
      LeavesTelemetry(w1, acts[n - 1], timeout, record.taskId);
    }
  }

  /** A record that the others store meanwhile and then leave alone remains exactly if its execution is no orphan,
      or it was stored after that orphan's turn. */
  lemma StoredExactly(w: World, orphans: seq<Record>, active: set<string>, now: real, acts: seq<seq<Act>>, cfg: Config,
                      j: nat, m: nat, record: Record, k: nat)
    requires Keyed(w.executions) && ListsOrphans(orphans, w, active, now, cfg) && |acts| == |orphans|
    requires StoredLast(acts, j, m, record) && IsTurn(orphans, k, record.taskId)
    ensures Telemetry(OrphanRun(w, orphans, |orphans|, acts, cfg), record.taskId)
         == if !IsOrphan(w, active, now, cfg, record.taskId) || k <= j then Some(record) else None
  {
    hide OrphanRun, Since, ActedAll, Leaves, ListsOrphans, IsOrphan;
    var id, timeout, n := record.taskId, cfg.heartbeatTimeout, |acts|;
    OrphansExactly(w, orphans, active, now, acts, cfg, id, k);
    StoredSince(w, acts, 0, n, j, m, timeout, record);
    if k <= j {
      StoredSince(Without(w, id), acts, k, n, j, m, timeout, record);
    } else {
      SinceLeaves(acts, k, n, id);
      LeavesTelemetry(Without(w, id), Since(acts, k, n), timeout, id);
    }
  }

  /** Such an exception: two orphans are found, a fresh record of the second arrives while the wait of the first is
      released, and it is dropped. */
  lemma FreshRecordIsDropped(w: World, first: Record, stale: Record, renewed: Record, now: real, cfg: Config)
    requires first.taskId != stale.taskId && w.executions == map[first.taskId := first, stale.taskId := stale]
    requires first.Stale(now, cfg.staleTimeout) && stale.Stale(now, cfg.staleTimeout)
    requires renewed.taskId == stale.taskId && !renewed.Stale(now, cfg.staleTimeout)
    ensures ListsOrphans([first, stale], w, {}, now, cfg)
    ensures Telemetry(OrphanRun(w, [first, stale], 1, [[Upserts(renewed)], []], cfg), renewed.taskId) == Some(renewed)
    ensures Telemetry(OrphanRun(w, [first, stale], 2, [[Upserts(renewed)], []], cfg), renewed.taskId) == None
  {
    var orphans, acts := [first, stale], [[Upserts(renewed)], []];
    ListsBoth(w, first, stale, now, cfg);
    assert [Upserts(renewed)][..0] == [];
    hide ListsOrphans, IsOrphan;
    assert IsOrphan(w, {}, now, cfg, stale.taskId) by { assert w.executions[stale.taskId] == stale; StaleOrphan(w, now, cfg, stale.taskId); }
    StoredExactly(w, orphans, {}, now, acts, cfg, 0, 0, renewed, 1);
  }

  lemma StaleOrphan(w: World, now: real, cfg: Config, id: string)
    requires id in w.executions && w.executions[id].Stale(now, cfg.staleTimeout)
    ensures IsOrphan(w, {}, now, cfg, id)
  {
  }

  lemma ListsBoth(w: World, first: Record, stale: Record, now: real, cfg: Config)
    requires first.taskId != stale.taskId && w.executions == map[first.taskId := first, stale.taskId := stale]
    requires first.Stale(now, cfg.staleTimeout) && stale.Stale(now, cfg.staleTimeout)
    ensures ListsOrphans([first, stale], w, {}, now, cfg)
  {
    assert forall r :: r in [first, stale] <==> r == first || r == stale;
  }
}
