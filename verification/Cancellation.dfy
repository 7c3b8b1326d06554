/** Execution telemetry, the pass over CANCEL_REQUESTED tasks and the finaliser it calls, as functions of
    the world at each visit (services/orchestrator: execution_registry.py, execution_supervisor.py,
    task_finalizer.py). The class that computes them is in ExecutionSupervisor.dfy. */
module Cancellation {
  import opened Liveness
  import opened Options

  // ---- telemetry -------------------------------------------------------------------------

  datatype Record = Record(
    taskId: string,
    workerId: string,
    hostname: string,
    rssBytes: int,
    memoryLimitBytes: Option<int>,
    systemRamUsedPercent: real,
    timestamp: real)
  {
    predicate Stale(now: real, timeout: real) {
      now - timestamp >= timeout
    }
  }

  type Executions = map<string, Record>

  class ExecutionRegistry {
    var executions: Executions

    constructor ()
      ensures executions == map[]
    {
      executions := map[];
    }

    method Upsert(record: Record)
      modifies this
      ensures executions == old(executions)[record.taskId := record]
    {
      executions := executions[record.taskId := record];
    }

    function Get(taskId: string): Option<Record>
      reads this
    {
      if taskId in executions then Some(executions[taskId]) else None
    }

    method Remove(taskId: string)
      modifies this
      ensures executions == old(executions) - {taskId}
    {
      executions := executions - {taskId};
    }

    /** `get_stale`: the records that are stale now, each once. */
    method GetStale(now: real, timeout: real) returns (stale: seq<Record>)
      requires forall id :: id in executions ==> executions[id].taskId == id
      ensures forall r :: r in stale <==> r.taskId in executions && executions[r.taskId] == r && r.Stale(now, timeout)
      ensures forall i, j :: 0 <= i < j < |stale| ==> stale[i].taskId != stale[j].taskId
    {
      stale := [];
      var rest := executions.Keys;
      while rest != {}
        invariant rest <= executions.Keys
        invariant forall r :: r in stale <==>
          r.taskId in executions && r.taskId !in rest && executions[r.taskId] == r && r.Stale(now, timeout)
        invariant forall i, j :: 0 <= i < j < |stale| ==> stale[i].taskId != stale[j].taskId
        decreases rest
      {
        var id :| id in rest;
        if executions[id].Stale(now, timeout) {
          assert forall i :: 0 <= i < |stale| ==> stale[i] in stale;
          stale := stale + [executions[id]];
        }
        rest := rest - {id};
      }
    }
  }

  // ---- termination reasons (task_execution/domain/types.py, policies.py) ----------------------

  datatype Reason =
    | USER_STOP
    | USER_HARD_STOP
    | OOM_GUARD
    | WORKER_LOST
    | NESTED_WAIT_CAPACITY_LOST
    | SUPERSEDED_BY_NEWER_EXECUTION
    | Legacy(text: string)

  datatype Status = ERROR | CANCELLED

  function TerminalStatus(reason: Option<Reason>): Status {
    if reason.Some? && reason.value in {OOM_GUARD, WORKER_LOST, NESTED_WAIT_CAPACITY_LOST} then ERROR else CANCELLED
  }

  /** RECONCILIATION_TERMINATION_REASONS: the reasons that the use case passes on to the repository. */
  predicate Reconcilable(reason: Option<Reason>) {
    reason.Some? && reason.value in {USER_STOP, USER_HARD_STOP, OOM_GUARD, WORKER_LOST, NESTED_WAIT_CAPACITY_LOST}
  }

  // ---- the world, and what others do to it at an await ------------------------------------------

  datatype World = World(executions: Executions, system: System)

  /** What another coroutine does while a pass waits: a step of the worker registry or of the clock,
      telemetry that arrives, or telemetry that is dropped because its execution ended. */
  datatype Act = Happens(step: Step) | Upserts(record: Record) | Removes(id: string)

  /** The steps that are not taken by the pass itself. */
  predicate IsOutside(step: Step) {
    step.Tick? || step.HeartbeatArrives? || step.SchedulerReaps? || step.TelemetryArrives? || step.WorkerFreed?
  }

  function Acted(w: World, act: Act, timeout: real): (r: World)
    ensures r.system.pass == w.system.pass && r.system.startedAt == w.system.startedAt
  {
    match act
    case Happens(step) =>
      if IsOutside(step) && Enabled(w.system, step) then w.(system := Next(w.system, step, timeout)) else w
    case Upserts(record) => w.(executions := w.executions[record.taskId := record])
    case Removes(id) => w.(executions := w.executions - {id})
  }

  function ActedAll(w: World, acts: seq<Act>, timeout: real): (r: World)
    ensures r.system.pass == w.system.pass && r.system.startedAt == w.system.startedAt
  {
    if acts == [] then w else Acted(ActedAll(w, acts[..|acts| - 1], timeout), acts[|acts| - 1], timeout)
  }

  // ---- effects and environment ----------------------------------------------------------------

  datatype Request = Request(id: string, worker: Option<string>, reason: Option<Reason>, updatedAt: Option<real>,
                             modeKnown: bool)

  datatype Config = Config(grace: real, staleTimeout: real, heartbeatTimeout: real)

  datatype Effect =
    | Terminate(task: string)
    | PutForward(task: string)
    | Commit(task: string, reason: Reason)
    | RemoveTelemetry(task: string)
    | FreeWorker(worker: string, task: string)
    | ReleaseWait(task: string)
    | Publish(task: string, status: Status)

  datatype CommitAnswer = Raises | Unchanged | Finalized(status: Status)

  /** One visit, seen from outside: what others do before the telemetry is read and while PostgreSQL is
      asked, whether terminating raises, what PostgreSQL says, and which cleanup steps raise. */
  datatype Answer = Answer(before: seq<Act>, terminateRaises: bool, commit: CommitAnswer, during: seq<Act>,
                           removeRaises: bool, freeRaises: bool)

  // ---- one task ---------------------------------------------------------------------------------

  predicate StaleOrAbsent(record: Option<Record>, now: real, cfg: Config) {
    record.None? || record.value.Stale(now, cfg.staleTimeout)
  }

  function Age(task: Request, now: real): real {
    if task.updatedAt.Some? then now - task.updatedAt.value else 0.0
  }

  function Delay(task: Request, cfg: Config): real {
    if task.reason == Some(USER_STOP) then cfg.grace else cfg.staleTimeout
  }

  datatype Decision = Skip | TerminateOnly | Finalise(terminateFirst: bool)

  /** The branches of the loop body, in their order. */
  function Decide(task: Request, record: Option<Record>, now: real, cfg: Config): Decision {
    var userStop := task.reason == Some(USER_STOP);
    var stale := record.Some? && record.value.Stale(now, cfg.staleTimeout);
    var age := Age(task, now);
    var escalate := userStop && record.Some? && age >= cfg.grace;
    if escalate && !stale then TerminateOnly
    else if record.Some? && !stale then Skip
    else if age < Delay(task, cfg) then Skip
    else Finalise(escalate || (userStop && record.None?))
  }

  /** Telemetry is absent or stale, and the request has aged past the delay for its reason. */
  predicate Due(task: Request, record: Option<Record>, now: real, cfg: Config) {
    StaleOrAbsent(record, now, cfg) && Age(task, now) >= Delay(task, cfg)
  }

  /** Nothing stops the visit of a due request before it reaches the finaliser. */
  predicate Unhindered(task: Request, answer: Answer) {
    task.modeKnown && !(task.reason == Some(USER_STOP) && answer.terminateRaises)
  }

  /** A request is decided on exactly when it is due; a user stop is terminated first. */
  lemma DecideExactly(task: Request, record: Option<Record>, now: real, cfg: Config)
    ensures Decide(task, record, now, cfg).Finalise? <==> Due(task, record, now, cfg)
    ensures Decide(task, record, now, cfg) == Finalise(true) <==>
      Decide(task, record, now, cfg).Finalise? && task.reason == Some(USER_STOP)
    ensures Decide(task, record, now, cfg) == TerminateOnly <==>
      !StaleOrAbsent(record, now, cfg) && task.reason == Some(USER_STOP) && Age(task, now) >= cfg.grace
  {
  }

  // ---- the finaliser (task_finalizer.py:45-125) ------------------------------------------------------

  /** Commit first; only a commit that reports the expected status is followed by cleanup. */
  function FinaliserEffects(task: Request, answer: Answer): seq<Effect> {
    [PutForward(task.id)] + if !Reconcilable(task.reason) then [] else CommitEffects(task, answer)
  }

  function CommitEffects(task: Request, answer: Answer): seq<Effect>
    requires Reconcilable(task.reason)
  {
    var status := TerminalStatus(task.reason);
    [Commit(task.id, task.reason.value)]
    + if answer.commit != Finalized(status) then []
      else [RemoveTelemetry(task.id)]
           + (if task.worker.Some? then [FreeWorker(task.worker.value, task.id)] else [])
           + [ReleaseWait(task.id), Publish(task.id, status)]
  }

  predicate Succeeds(task: Request, answer: Answer) {
    Reconcilable(task.reason) && answer.commit == Finalized(TerminalStatus(task.reason))
  }

  /** Each cleanup step is tried on its own; one that raises leaves things as they are. */
  function Cleaned(w: World, task: Request, answer: Answer): World {
    World(if answer.removeRaises then w.executions else w.executions - {task.id},
          if task.worker.None? || answer.freeRaises then w.system
          else w.system.(workers := MarkIdle(w.system.workers, task.worker.value, Some(task.id))))
  }

  /** The world when the finaliser returns: others act while PostgreSQL is asked. */
  function FinaliserWorld(w: World, task: Request, answer: Answer, cfg: Config): World {
    if !Reconcilable(task.reason) then w
    else
      var w1 := ActedAll(w, answer.during, cfg.heartbeatTimeout);
      if Succeeds(task, answer) then Cleaned(w1, task, answer) else w1
  }

  // ---- one visit ------------------------------------------------------------------------------------------

  function Telemetry(w: World, id: string): Option<Record> {
    if id in w.executions then Some(w.executions[id]) else None
  }

  /** Whether the visit reaches the finaliser. */
  predicate Reaches(w: World, task: Request, now: real, cfg: Config, answer: Answer) {
    Due(task, Telemetry(w, task.id), now, cfg) && Unhindered(task, answer)
  }

  /** The effects of a visit that reads the telemetry in world `w`. */
  function VisitEffects(w: World, task: Request, now: real, cfg: Config, answer: Answer): seq<Effect> {
    match Decide(task, Telemetry(w, task.id), now, cfg)
    case Skip => []
    case TerminateOnly => [Terminate(task.id)]
    case Finalise(terminateFirst) =>
      (if terminateFirst then [Terminate(task.id)] else [])
      + if Unhindered(task, answer) then FinaliserEffects(task, answer) else []
  }

  function VisitWorld(w: World, task: Request, now: real, cfg: Config, answer: Answer): World {
    if Reaches(w, task, now, cfg, answer) then FinaliserWorld(w, task, answer, cfg) else w
  }

  /** What a visit does: it puts the request forward exactly when the request is due and nothing hinders it,
      and PostgreSQL is asked exactly when moreover the reason is one that reconciliation may write. */
  lemma VisitExactly(w: World, task: Request, now: real, cfg: Config, answer: Answer)
    ensures PutForward(task.id) in VisitEffects(w, task, now, cfg, answer) <==> Reaches(w, task, now, cfg, answer)
    ensures (exists r :: Commit(task.id, r) in VisitEffects(w, task, now, cfg, answer)) <==>
      Reaches(w, task, now, cfg, answer) && Reconcilable(task.reason)
    ensures Terminate(task.id) in VisitEffects(w, task, now, cfg, answer) <==>
      task.reason == Some(USER_STOP) && Age(task, now) >= cfg.grace
    ensures forall e :: e in VisitEffects(w, task, now, cfg, answer) ==> e.task == task.id
  {
    DecideExactly(task, Telemetry(w, task.id), now, cfg);
    FinaliserFacts(task, answer);
    hide FinaliserEffects, Decide;
    var log := VisitEffects(w, task, now, cfg, answer);
    if Reaches(w, task, now, cfg, answer) && Reconcilable(task.reason) {
      assert Commit(task.id, task.reason.value) in log;
    }
  }

  lemma FinaliserFacts(task: Request, answer: Answer)
    ensures PutForward(task.id) in FinaliserEffects(task, answer)
    ensures forall e :: e in FinaliserEffects(task, answer) ==> e.task == task.id && !e.Terminate?
    ensures Reconcilable(task.reason) ==> Commit(task.id, task.reason.value) in FinaliserEffects(task, answer)
    ensures !Reconcilable(task.reason) ==> FinaliserEffects(task, answer) == [PutForward(task.id)]
  {
    var log := FinaliserEffects(task, answer);
    assert log[0] == PutForward(task.id);
    if Reconcilable(task.reason) {
      assert log[1] == Commit(task.id, task.reason.value);
    }
  }

  /** A request whose reason reconciliation may not write, such as a legacy text, a superseded execution or none
      at all, never reaches PostgreSQL, and yet every visit of it that is due puts it forward again. */
  lemma UnreconcilableNeverCommits(w: World, task: Request, now: real, cfg: Config, answer: Answer)
    requires !Reconcilable(task.reason)
    ensures forall e :: e in VisitEffects(w, task, now, cfg, answer) ==> e == PutForward(task.id)
    ensures PutForward(task.id) in VisitEffects(w, task, now, cfg, answer) <==>
      Due(task, Telemetry(w, task.id), now, cfg) && task.modeKnown
    ensures VisitWorld(w, task, now, cfg, answer) == w
  {
    VisitExactly(w, task, now, cfg, answer);
    FinaliserFacts(task, answer);
    hide FinaliserEffects, Due;
  }

  // ---- a whole pass -----------------------------------------------------------------------------------

  /** The world after the first `n` visits. */
  function PassWorld(w: World, tasks: seq<Request>, n: nat, now: real, cfg: Config, answers: seq<Answer>): World
    requires n <= |tasks| && |answers| == |tasks|
    decreases n, 0
  {
    if n == 0 then w
    else VisitWorld(ReadWorld(w, tasks, n - 1, now, cfg, answers), tasks[n - 1], now, cfg, answers[n - 1])
  }

  /** The world in which visit `i` reads the telemetry. */
  function ReadWorld(w: World, tasks: seq<Request>, i: nat, now: real, cfg: Config, answers: seq<Answer>): World
    requires i < |tasks| && |answers| == |tasks|
    decreases i, 1
  {
    ActedAll(PassWorld(w, tasks, i, now, cfg, answers), answers[i].before, cfg.heartbeatTimeout)
  }

  function PassEffects(w: World, tasks: seq<Request>, n: nat, now: real, cfg: Config, answers: seq<Answer>): seq<Effect>
    requires n <= |tasks| && |answers| == |tasks|
  {
    if n == 0 then []
    else PassEffects(w, tasks, n - 1, now, cfg, answers)
         + VisitEffects(ReadWorld(w, tasks, n - 1, now, cfg, answers), tasks[n - 1], now, cfg, answers[n - 1])
  }

  // ---- the order of effects ---------------------------------------------------------------------------

  /** A commit for a user stop comes after a terminate of the same task. */
  ghost predicate TerminatedFirst(log: seq<Effect>) {
    forall i :: 0 <= i < |log| && log[i].Commit? && log[i].reason == USER_STOP ==>
      exists j :: 0 <= j < i && log[j] == Terminate(log[i].task)
  }

  predicate IsCleanup(e: Effect) {
    e.RemoveTelemetry? || e.FreeWorker? || e.ReleaseWait? || e.Publish?
  }

  /** Cleanup and notification of a task come after a commit for it. */
  ghost predicate CommittedFirst(log: seq<Effect>) {
    forall i :: 0 <= i < |log| && IsCleanup(log[i]) ==>
      exists j :: 0 <= j < i && log[j].Commit? && log[j].task == log[i].task
  }

  lemma VisitOrdered(w: World, task: Request, now: real, cfg: Config, answer: Answer)
    ensures TerminatedFirst(VisitEffects(w, task, now, cfg, answer))
    ensures CommittedFirst(VisitEffects(w, task, now, cfg, answer))
  {
    DecideExactly(task, Telemetry(w, task.id), now, cfg);
    FinaliserOrdered(task, answer);
    hide FinaliserEffects, Decide, Due;
    var log := VisitEffects(w, task, now, cfg, answer);
    var at := if task.reason == Some(USER_STOP) then 1 else 0;
    if Reaches(w, task, now, cfg, answer) {
      var own := FinaliserEffects(task, answer);
      assert forall i :: at <= i < |log| ==> log[i] == own[i - at];
      assert at == 1 ==> log[0] == Terminate(task.id);
      forall i | 0 <= i < |log| && IsCleanup(log[i]) ensures exists j :: 0 <= j < i && log[j].Commit? && log[j].task == log[i].task {
        assert log[at + 1] == own[1];
      }
    }
  }

  /** The finaliser asks PostgreSQL second, if at all, and cleans up after that. */
  lemma FinaliserOrdered(task: Request, answer: Answer)
    ensures var log := FinaliserEffects(task, answer);
      && (forall i :: 0 <= i < |log| && IsCleanup(log[i]) ==> i > 1)
      && (forall i :: 0 <= i < |log| && log[i].Commit? ==> log[i] == Commit(task.id, task.reason.value))
      && (|log| > 1 ==> log[1] == Commit(task.id, task.reason.value))
      && (forall i :: 0 <= i < |log| ==> log[i].task == task.id)
      && (|log| > 1 || log == [PutForward(task.id)])
      && (|log| > 1 ==> task.reason.Some?)
  {
  }

  lemma AppendOrdered(a: seq<Effect>, b: seq<Effect>)
    requires TerminatedFirst(a) && CommittedFirst(a) && TerminatedFirst(b) && CommittedFirst(b)
    ensures TerminatedFirst(a + b) && CommittedFirst(a + b)
  {
    var log := a + b;
    forall i | 0 <= i < |log| && log[i].Commit? && log[i].reason == USER_STOP
      ensures exists j :: 0 <= j < i && log[j] == Terminate(log[i].task)
    {
      if i < |a| {
        var j :| 0 <= j < i && a[j] == Terminate(a[i].task);
        assert log[j] == a[j];
      } else {
        var j :| 0 <= j < i - |a| && b[j] == Terminate(b[i - |a|].task);
        assert log[j + |a|] == b[j];
      }
    }
    forall i | 0 <= i < |log| && IsCleanup(log[i])
      ensures exists j :: 0 <= j < i && log[j].Commit? && log[j].task == log[i].task
    {
      if i < |a| {
        var j :| 0 <= j < i && a[j].Commit? && a[j].task == a[i].task;
        assert log[j] == a[j];
      } else {
        var j :| 0 <= j < i - |a| && b[j].Commit? && b[j].task == b[i - |a|].task;
        assert log[j + |a|] == b[j];
      }
    }
  }

  /** Whatever is listed, and whatever the clock, the answers and the others do: in the effects of a pass every
      user stop is terminated before its commit, and nothing is cleaned up or announced before a commit. */
  lemma {:induction false} PassOrdered(w: World, tasks: seq<Request>, n: nat, now: real, cfg: Config, answers: seq<Answer>)
    requires n <= |tasks| && |answers| == |tasks|
    ensures TerminatedFirst(PassEffects(w, tasks, n, now, cfg, answers))
    ensures CommittedFirst(PassEffects(w, tasks, n, now, cfg, answers))
  {
    hide VisitEffects, ReadWorld, TerminatedFirst, CommittedFirst;
    if n > 0 {
      PassOrdered(w, tasks, n - 1, now, cfg, answers);
      var w1 := ReadWorld(w, tasks, n - 1, now, cfg, answers);
      VisitOrdered(w1, tasks[n - 1], now, cfg, answers[n - 1]);
      AppendOrdered(PassEffects(w, tasks, n - 1, now, cfg, answers),
                    VisitEffects(w1, tasks[n - 1], now, cfg, answers[n - 1]));
    } else {
      NothingOrdered();
    }
  }

  lemma NothingOrdered()
    ensures TerminatedFirst([]) && CommittedFirst([])
  {
  }

  // ---- what a pass does with a listed request ----------------------------------------------------------

  ghost predicate DistinctIds(tasks: seq<Request>) {
    forall i, j :: 0 <= i < j < |tasks| ==> tasks[i].id != tasks[j].id
  }

  /** In a listing without repetitions, the effects for a request are those of its own visit. */
  lemma {:induction false} EffectsAreLocal(w: World, tasks: seq<Request>, n: nat, now: real, cfg: Config,
                                           answers: seq<Answer>, i: nat, e: Effect)
    requires n <= |tasks| && |answers| == |tasks| && DistinctIds(tasks) && i < |tasks| && e.task == tasks[i].id
    ensures e in PassEffects(w, tasks, n, now, cfg, answers) <==>
      i < n && e in VisitEffects(ReadWorld(w, tasks, i, now, cfg, answers), tasks[i], now, cfg, answers[i])
  {
    hide VisitEffects, ReadWorld;
    if n > 0 {
      EffectsAreLocal(w, tasks, n - 1, now, cfg, answers, i, e);
      VisitExactly(ReadWorld(w, tasks, n - 1, now, cfg, answers), tasks[n - 1], now, cfg, answers[n - 1]);
    }
  }

  /** Nobody else stores or drops telemetry of `id`. */
  ghost predicate Leaves(acts: seq<Act>, id: string) {
    forall i :: 0 <= i < |acts| ==> !(acts[i].Upserts? && acts[i].record.taskId == id) && acts[i] != Removes(id)
  }

  lemma {:induction false} LeavesTelemetry(w: World, acts: seq<Act>, timeout: real, id: string)
    requires Leaves(acts, id)
    ensures Telemetry(ActedAll(w, acts, timeout), id) == Telemetry(w, id)
  {
    hide Next;
    if acts != [] {
      LeavesTelemetry(w, acts[..|acts| - 1], timeout, id);
    }
  }

  /** The world without the record of `id`. */
  function Without(w: World, id: string): World {
    w.(executions := w.executions - {id})
  }

  lemma {:induction false} ActsCompose(w: World, a: seq<Act>, b: seq<Act>, timeout: real)
    ensures ActedAll(w, a + b, timeout) == ActedAll(ActedAll(w, a, timeout), b, timeout)
  {
    hide Acted;
    if b == [] {
      assert a + b == a;
    } else {
      ActsCompose(w, a, b[..|b| - 1], timeout);
      assert (a + b)[..|a + b| - 1] == a + b[..|b| - 1];
    }
  }

  /** Telemetry depends only on telemetry. */
  lemma {:induction false} SameTelemetry(w: World, v: World, acts: seq<Act>, timeout: real, id: string)
    requires Telemetry(w, id) == Telemetry(v, id)
    ensures Telemetry(ActedAll(w, acts, timeout), id) == Telemetry(ActedAll(v, acts, timeout), id)
  {
    hide Next;
    if acts != [] {
      SameTelemetry(w, v, acts[..|acts| - 1], timeout, id);
    }
  }

  lemma ActsNone(w: World, timeout: real)
    ensures ActedAll(w, [], timeout) == w
  {
  }

  /** Visits of other requests do not touch the telemetry of `id`. */
  lemma {:induction false} TelemetryWaits(w: World, tasks: seq<Request>, n: nat, now: real, cfg: Config,
                                          answers: seq<Answer>, id: string)
    requires n <= |tasks| && |answers| == |tasks|
    requires forall j :: 0 <= j < n ==> tasks[j].id != id && Leaves(answers[j].before, id) && Leaves(answers[j].during, id)
    ensures Telemetry(PassWorld(w, tasks, n, now, cfg, answers), id) == Telemetry(w, id)
  {
    hide Decide, ActedAll;
    if n > 0 {
      TelemetryWaits(w, tasks, n - 1, now, cfg, answers, id);
      var w1 := PassWorld(w, tasks, n - 1, now, cfg, answers);
      LeavesTelemetry(w1, answers[n - 1].before, cfg.heartbeatTimeout, id);
      var w2 := ReadWorld(w, tasks, n - 1, now, cfg, answers);
      LeavesTelemetry(w2, answers[n - 1].during, cfg.heartbeatTimeout, id);
    }
  }

  /** What a pass does with a listed request, in terms of the world in which its telemetry is read. */
  lemma PassVisitsExactly(w: World, tasks: seq<Request>, now: real, cfg: Config, answers: seq<Answer>, i: nat)
    requires |answers| == |tasks| && DistinctIds(tasks) && i < |tasks|
    ensures var log := PassEffects(w, tasks, |tasks|, now, cfg, answers);
      var reached := Reaches(ReadWorld(w, tasks, i, now, cfg, answers), tasks[i], now, cfg, answers[i]);
      && (PutForward(tasks[i].id) in log <==> reached)
      && ((exists r :: Commit(tasks[i].id, r) in log) <==> reached && Reconcilable(tasks[i].reason))
  {
    hide VisitEffects, ReadWorld, Reaches, PassEffects;
    var w1 := ReadWorld(w, tasks, i, now, cfg, answers);
    VisitExactly(w1, tasks[i], now, cfg, answers[i]);
    EffectsAreLocal(w, tasks, |tasks|, now, cfg, answers, i, PutForward(tasks[i].id));
    forall r ensures Commit(tasks[i].id, r) in PassEffects(w, tasks, |tasks|, now, cfg, answers)
                <==> Commit(tasks[i].id, r) in VisitEffects(w1, tasks[i], now, cfg, answers[i]) {
      EffectsAreLocal(w, tasks, |tasks|, now, cfg, answers, i, Commit(tasks[i].id, r));
    }
  }

  /** A pass puts a listed request forward exactly when, in the world in which the pass began, its telemetry was
      absent or stale and its age had reached the delay for its reason, unless terminating it raises; this
      holds although earlier visits clean up, as long as nobody else touches its own telemetry meanwhile. */
  lemma PassAttemptsExactly(w: World, tasks: seq<Request>, now: real, cfg: Config, answers: seq<Answer>, i: nat)
    requires |answers| == |tasks| && DistinctIds(tasks) && i < |tasks|
    requires forall j :: 0 <= j <= i ==> Leaves(answers[j].before, tasks[i].id)
    requires forall j :: 0 <= j < i ==> Leaves(answers[j].during, tasks[i].id)
    ensures var log := PassEffects(w, tasks, |tasks|, now, cfg, answers);
      var attempted := Due(tasks[i], Telemetry(w, tasks[i].id), now, cfg) && Unhindered(tasks[i], answers[i]);
      && (PutForward(tasks[i].id) in log <==> attempted)
      && ((exists r :: Commit(tasks[i].id, r) in log) <==> attempted && Reconcilable(tasks[i].reason))
  {
    hide PassEffects, PassWorld, Due;
    TelemetryWaits(w, tasks, i, now, cfg, answers, tasks[i].id);
    LeavesTelemetry(PassWorld(w, tasks, i, now, cfg, answers), answers[i].before, cfg.heartbeatTimeout, tasks[i].id);
    PassVisitsExactly(w, tasks, now, cfg, answers, i);
  }

  // ---- passes and telemetry over time ------------------------------------------------------------------

  datatype Event =
    | Meanwhile(acts: seq<Act>)
    | CancelPass(now: real, tasks: seq<Request>, answers: seq<Answer>)

  ghost predicate WellFormed(events: seq<Event>) {
    forall k :: 0 <= k < |events| && events[k].CancelPass? ==> |events[k].answers| == |events[k].tasks|
  }

  /** The world before event `k`. */
  function Before(w: World, events: seq<Event>, k: nat, cfg: Config): World
    requires k <= |events|
  {
    if k == 0 then w
    else
      var w1 := Before(w, events, k - 1, cfg);
      match events[k - 1]
      case Meanwhile(acts) => ActedAll(w1, acts, cfg.heartbeatTimeout)
      case CancelPass(now, tasks, answers) =>
        if |answers| == |tasks| then PassWorld(w1, tasks, |tasks|, now, cfg, answers) else w1
  }

  /** No telemetry of `id` that is stored carries a time after `last`. */
  ghost predicate NoneLater(acts: seq<Act>, id: string, last: real) {
    forall i :: 0 <= i < |acts| && acts[i].Upserts? && acts[i].record.taskId == id ==> acts[i].record.timestamp <= last
  }

  ghost predicate Bounded(w: World, id: string, last: real) {
    id in w.executions ==> w.executions[id].timestamp <= last
  }

  ghost predicate NoneLaterDuring(answers: seq<Answer>, n: nat, id: string, last: real)
    requires n <= |answers|
  {
    forall j :: 0 <= j < n ==> NoneLater(answers[j].before, id, last) && NoneLater(answers[j].during, id, last)
  }

  ghost predicate NoneLaterIn(e: Event, id: string, last: real) {
    match e
    case Meanwhile(acts) => NoneLater(acts, id, last)
    case CancelPass(_, _, answers) => NoneLaterDuring(answers, |answers|, id, last)
  }

  lemma {:induction false} ActsBounded(w: World, acts: seq<Act>, timeout: real, id: string, last: real)
    requires Bounded(w, id, last) && NoneLater(acts, id, last)
    ensures Bounded(ActedAll(w, acts, timeout), id, last)
  {
    hide Next;
    if acts != [] {
      ActsBounded(w, acts[..|acts| - 1], timeout, id, last);
    }
  }

  lemma {:induction false} PassBounded(w: World, tasks: seq<Request>, n: nat, now: real, cfg: Config,
                                       answers: seq<Answer>, id: string, last: real)
    requires n <= |tasks| && |answers| == |tasks| && Bounded(w, id, last) && NoneLaterDuring(answers, n, id, last)
    ensures Bounded(PassWorld(w, tasks, n, now, cfg, answers), id, last)
  {
    hide ActedAll, Due;
    if n > 0 {
      PassBounded(w, tasks, n - 1, now, cfg, answers, id, last);
      var timeout := cfg.heartbeatTimeout;
      ActsBounded(PassWorld(w, tasks, n - 1, now, cfg, answers), answers[n - 1].before, timeout, id, last);
      ActsBounded(ReadWorld(w, tasks, n - 1, now, cfg, answers), answers[n - 1].during, timeout, id, last);
    }
  }

  lemma {:induction false} HistoryBounded(w: World, events: seq<Event>, k: nat, cfg: Config, id: string, last: real)
    requires WellFormed(events) && k <= |events| && Bounded(w, id, last)
    requires forall j :: 0 <= j < k ==> NoneLaterIn(events[j], id, last)
    ensures Bounded(Before(w, events, k, cfg), id, last)
  {
    hide PassWorld, ActedAll, Bounded, NoneLater;
    if k > 0 {
      HistoryBounded(w, events, k - 1, cfg, id, last);
      var w1, e := Before(w, events, k - 1, cfg), events[k - 1];
      if e.Meanwhile? {
        ActsBounded(w1, e.acts, cfg.heartbeatTimeout, id, last);
      } else {
        PassBounded(w1, e.tasks, |e.tasks|, e.now, cfg, e.answers, id, last);
      }
    }
  }

  /** Over any sequence of passes, telemetry and other activity: a pass at or after both the request time plus the
      delay for its reason and the time of its last telemetry plus the stale timeout puts the request forward,
      unless terminating it raises. So the first such pass does. */
  lemma DuePassAttempts(w: World, events: seq<Event>, k: nat, cfg: Config, i: nat, last: real)
    requires WellFormed(events) && k < |events| && events[k].CancelPass? && i < |events[k].tasks|
    requires var task := events[k].tasks[i];
      && Bounded(w, task.id, last)
      && (forall j :: 0 <= j < k ==> NoneLaterIn(events[j], task.id, last))
      && NoneLaterDuring(events[k].answers, i, task.id, last)
      && NoneLater(events[k].answers[i].before, task.id, last)
      && Unhindered(task, events[k].answers[i])
      && task.updatedAt.Some? && events[k].now >= task.updatedAt.value + Delay(task, cfg)
      && events[k].now >= last + cfg.staleTimeout
    ensures var p := events[k];
      PutForward(p.tasks[i].id) in PassEffects(Before(w, events, k, cfg), p.tasks, |p.tasks|, p.now, cfg, p.answers)
  {
    hide Before, PassWorld, ActedAll, VisitEffects, Reaches;
    var p, w1 := events[k], Before(w, events, k, cfg);
    var task := p.tasks[i];
    HistoryBounded(w, events, k, cfg, task.id, last);
    PassBounded(w1, p.tasks, i, p.now, cfg, p.answers, task.id, last);
    ActsBounded(PassWorld(w1, p.tasks, i, p.now, cfg, p.answers), p.answers[i].before, cfg.heartbeatTimeout, task.id, last);
    var w2 := ReadWorld(w1, p.tasks, i, p.now, cfg, p.answers);
    assert Reaches(w2, task, p.now, cfg, p.answers[i]) by { BoundedIsDue(w2, task, p.now, cfg, p.answers[i], last); }
    VisitExactly(w2, task, p.now, cfg, p.answers[i]);
    VisitIsLogged(w1, p.tasks, |p.tasks|, p.now, cfg, p.answers, i, PutForward(task.id));
  }

  lemma BoundedIsDue(w: World, task: Request, now: real, cfg: Config, answer: Answer, last: real)
    requires Bounded(w, task.id, last) && Unhindered(task, answer)
    requires task.updatedAt.Some? && now >= task.updatedAt.value + Delay(task, cfg) && now >= last + cfg.staleTimeout
    ensures Reaches(w, task, now, cfg, answer)
  {
  }

  lemma {:induction false} VisitIsLogged(w: World, tasks: seq<Request>, n: nat, now: real, cfg: Config,
                                         answers: seq<Answer>, i: nat, e: Effect)
    requires i < n <= |tasks| && |answers| == |tasks|
    requires e in VisitEffects(ReadWorld(w, tasks, i, now, cfg, answers), tasks[i], now, cfg, answers[i])
    ensures e in PassEffects(w, tasks, n, now, cfg, answers)
  {
    hide VisitEffects, ReadWorld;
    if i < n - 1 {
      VisitIsLogged(w, tasks, n - 1, now, cfg, answers, i, e);
    }
  }
}
