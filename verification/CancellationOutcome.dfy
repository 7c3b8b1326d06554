/** What follows a commit, and that nothing follows anything else: the finaliser cleans up and announces exactly after
    a commit that reports the status its reason calls for (services/orchestrator/task_finalizer.py:65-125). */
module CancellationOutcome {
  import opened Cancellation
  import opened Liveness
  import opened Options

  /** The status that a termination reason calls for. */
  function StatusFor(reason: Reason): Status {
    match reason
    case USER_STOP => CANCELLED
    case USER_HARD_STOP => CANCELLED
    case OOM_GUARD => ERROR
    case WORKER_LOST => ERROR
    case NESTED_WAIT_CAPACITY_LOST => ERROR
    case SUPERSEDED_BY_NEWER_EXECUTION => CANCELLED
    case Legacy(_) => CANCELLED
  }

  /** PostgreSQL is asked about the request. */
  predicate Asked(w: World, task: Request, now: real, cfg: Config, answer: Answer) {
    Reaches(w, task, now, cfg, answer) && Reconcilable(task.reason)
  }

  /** PostgreSQL is asked, and finalises the task with the status that its reason calls for. */
  predicate Committed(w: World, task: Request, now: real, cfg: Config, answer: Answer) {
    Asked(w, task, now, cfg, answer) && answer.commit == Finalized(StatusFor(task.reason.value))
  }

  /** The cleanup and the announcement that belong to a task. */
  predicate Belongs(e: Effect, task: Request) {
    match e
    case RemoveTelemetry(id) => id == task.id
    case FreeWorker(worker, id) => id == task.id && task.worker == Some(worker)
    case ReleaseWait(id) => id == task.id
    case Publish(id, status) => id == task.id && task.reason.Some? && status == StatusFor(task.reason.value)
    case _ => false
  }

  lemma FinaliserExactly(task: Request, answer: Answer, e: Effect)
    requires Reconcilable(task.reason) && IsCleanup(e)
    ensures e in FinaliserEffects(task, answer) <==>
      answer.commit == Finalized(StatusFor(task.reason.value)) && Belongs(e, task)
  {
    var log := FinaliserEffects(task, answer);
    assert TerminalStatus(task.reason) == StatusFor(task.reason.value);
    hide TerminalStatus, StatusFor;
    if answer.commit == Finalized(StatusFor(task.reason.value)) {
      var n := |log|;
      assert log[2] == RemoveTelemetry(task.id) && log[n - 2] == ReleaseWait(task.id);
      assert log[n - 1] == Publish(task.id, StatusFor(task.reason.value));
      assert task.worker.Some? ==> log[3] == FreeWorker(task.worker.value, task.id);
    }
  }

  /** A visit cleans up and announces exactly if its commit reported the status that the reason calls for: then all of
      it, with that status, and otherwise nothing. */
  lemma CleanupExactly(w: World, task: Request, now: real, cfg: Config, answer: Answer, e: Effect)
    requires IsCleanup(e)
    ensures e in VisitEffects(w, task, now, cfg, answer) <==> Committed(w, task, now, cfg, answer) && Belongs(e, task)
  {
    DecideExactly(task, Telemetry(w, task.id), now, cfg);
    FinaliserFacts(task, answer);
    if Reconcilable(task.reason) {
      FinaliserExactly(task, answer, e);
    }
    hide FinaliserEffects, Decide, Due, Belongs;
  }

  /** The same for every listed request of a pass. */
  lemma PassCleanupExactly(w: World, tasks: seq<Request>, now: real, cfg: Config, answers: seq<Answer>, i: nat, e: Effect)
    requires |answers| == |tasks| && DistinctIds(tasks) && i < |tasks| && IsCleanup(e) && e.task == tasks[i].id
    ensures e in PassEffects(w, tasks, |tasks|, now, cfg, answers) <==>
      Committed(ReadWorld(w, tasks, i, now, cfg, answers), tasks[i], now, cfg, answers[i]) && Belongs(e, tasks[i])
  {
    hide VisitEffects, ReadWorld, Committed, Belongs, PassEffects;
    EffectsAreLocal(w, tasks, |tasks|, now, cfg, answers, i, e);
    CleanupExactly(ReadWorld(w, tasks, i, now, cfg, answers), tasks[i], now, cfg, answers[i], e);
  }

  // ---- the registries --------------------------------------------------------------------------------------

  /** What the others do during a visit after its telemetry was read. */
  function During(w: World, task: Request, now: real, cfg: Config, answer: Answer): seq<Act> {
    if Asked(w, task, now, cfg, answer) then answer.during else []
  }

  /** After a visit, the registries are what the others make of them, unless the commit succeeded: then the record is
      gone unless removing it raised, and the worker is freed unless freeing it raised. Nothing else changes. */
  lemma VisitWorldExactly(w: World, task: Request, now: real, cfg: Config, answer: Answer)
    ensures var others := ActedAll(w, During(w, task, now, cfg, answer), cfg.heartbeatTimeout);
      var r := VisitWorld(w, task, now, cfg, answer);
      if !Committed(w, task, now, cfg, answer) then r == others
      else
        && r.executions == (if answer.removeRaises then others.executions else others.executions - {task.id})
        && r.system == others.system.(workers := r.system.workers)
        && (if task.worker.None? || answer.freeRaises then r.system.workers == others.system.workers
            else Freed(others.system.workers, r.system.workers, task.worker.value, task.id))
  {
    hide ActedAll, MarkIdle, Due;
    ActsNone(w, cfg.heartbeatTimeout);
    if Committed(w, task, now, cfg, answer) && task.worker.Some? {
      IdleIsFreed(ActedAll(w, answer.during, cfg.heartbeatTimeout).system.workers, task.worker.value, task.id);
    }
  }

  // ---- a whole pass -----------------------------------------------------------------------------------------

  /** What the others do in visits `i` to `n - 1` of a pass. */
  function ActsIn(w: World, tasks: seq<Request>, i: nat, n: nat, now: real, cfg: Config, answers: seq<Answer>): seq<Act>
    requires n <= |tasks| && |answers| == |tasks|
  {
    if n <= i then []
    else
      ActsIn(w, tasks, i, n - 1, now, cfg, answers) + answers[n - 1].before
      + During(ReadWorld(w, tasks, n - 1, now, cfg, answers), tasks[n - 1], now, cfg, answers[n - 1])
  }

  /** Visit `j` commits and its telemetry is removed. */
  predicate Drops(w: World, tasks: seq<Request>, j: nat, now: real, cfg: Config, answers: seq<Answer>)
    requires j < |tasks| && |answers| == |tasks|
  {
    Committed(ReadWorld(w, tasks, j, now, cfg, answers), tasks[j], now, cfg, answers[j]) && !answers[j].removeRaises
  }

  lemma VisitTelemetry(w: World, task: Request, now: real, cfg: Config, answer: Answer, id: string)
    ensures Telemetry(VisitWorld(w, task, now, cfg, answer), id)
         == if id == task.id && Committed(w, task, now, cfg, answer) && !answer.removeRaises then None
            else Telemetry(ActedAll(w, During(w, task, now, cfg, answer), cfg.heartbeatTimeout), id)
  {
    hide ActedAll, Committed, VisitWorld, During, Freed;
    VisitWorldExactly(w, task, now, cfg, answer);
  }

  /** As long as no visit drops it, the record of an execution is what the others make of it. */
  lemma {:induction false} OnlyOthers(w: World, tasks: seq<Request>, i: nat, n: nat, now: real, cfg: Config,
                                      answers: seq<Answer>, v: World, id: string)
    requires i <= n <= |tasks| && |answers| == |tasks|
    requires forall j :: i <= j < n ==> tasks[j].id != id || !Drops(w, tasks, j, now, cfg, answers)
    requires Telemetry(PassWorld(w, tasks, i, now, cfg, answers), id) == Telemetry(v, id)
    ensures Telemetry(PassWorld(w, tasks, n, now, cfg, answers), id)
         == Telemetry(ActedAll(v, ActsIn(w, tasks, i, n, now, cfg, answers), cfg.heartbeatTimeout), id)
    decreases n
  {
    hide ActedAll, Committed, VisitWorld, During, Telemetry;
    var timeout := cfg.heartbeatTimeout;
    if n == i {
      ActsNone(v, timeout);
    } else {
      var m := n - 1;
      OnlyOthers(w, tasks, i, m, now, cfg, answers, v, id);
      var acts, before := ActsIn(w, tasks, i, m, now, cfg, answers), answers[m].before;
      var read := ReadWorld(w, tasks, m, now, cfg, answers);
      var during := During(read, tasks[m], now, cfg, answers[m]);
      SameTelemetry(PassWorld(w, tasks, m, now, cfg, answers), ActedAll(v, acts, timeout), before, timeout, id);
      ActsCompose(v, acts, before, timeout);
      SameTelemetry(read, ActedAll(v, acts + before, timeout), during, timeout, id);
      ActsCompose(v, acts + before, during, timeout);
      VisitTelemetry(read, tasks[m], now, cfg, answers[m], id);
    }
  }

  /** What a pass leaves of the telemetry of a listed request, whatever others do: what they make of it, except that a
      commit of its own visit with the right status drops what was stored until then. */
  lemma PassTelemetryExactly(w: World, tasks: seq<Request>, now: real, cfg: Config, answers: seq<Answer>, i: nat)
    requires |answers| == |tasks| && DistinctIds(tasks) && i < |tasks|
    ensures var id, n := tasks[i].id, |tasks|;
      Telemetry(PassWorld(w, tasks, n, now, cfg, answers), id)
      == if Drops(w, tasks, i, now, cfg, answers)
         then Telemetry(ActedAll(Without(w, id), ActsIn(w, tasks, i + 1, n, now, cfg, answers), cfg.heartbeatTimeout), id)
         else Telemetry(ActedAll(w, ActsIn(w, tasks, 0, n, now, cfg, answers), cfg.heartbeatTimeout), id)
  {
    hide ActedAll, Committed, VisitWorld, ActsIn;
    var id, n := tasks[i].id, |tasks|;
    if Drops(w, tasks, i, now, cfg, answers) {
      VisitTelemetry(ReadWorld(w, tasks, i, now, cfg, answers), tasks[i], now, cfg, answers[i], id);
      OnlyOthers(w, tasks, i + 1, n, now, cfg, answers, Without(w, id), id);
    } else {
      OnlyOthers(w, tasks, 0, n, now, cfg, answers, w, id);
    }
  }

  /** The registry of workers depends only on itself. */
  lemma {:induction false} SameSystem(w: World, v: World, acts: seq<Act>, timeout: real)
    requires w.system == v.system
    ensures ActedAll(w, acts, timeout).system == ActedAll(v, acts, timeout).system
  {
    hide Next, Enabled;
    if acts != [] {
      SameSystem(w, v, acts[..|acts| - 1], timeout);
    }
  }

  /** Visit `j` commits and frees a worker. */
  predicate Frees(w: World, tasks: seq<Request>, j: nat, now: real, cfg: Config, answers: seq<Answer>)
    requires j < |tasks| && |answers| == |tasks|
  {
    && Committed(ReadWorld(w, tasks, j, now, cfg, answers), tasks[j], now, cfg, answers[j])
    && tasks[j].worker.Some? && !answers[j].freeRaises
  }

  /** As long as no visit commits and frees a worker, the workers are what the others make of them. */
  lemma {:induction false} WorkersUntouched(w: World, tasks: seq<Request>, n: nat, now: real, cfg: Config, answers: seq<Answer>)
    requires n <= |tasks| && |answers| == |tasks|
    requires forall j :: 0 <= j < n ==> !Frees(w, tasks, j, now, cfg, answers)
    ensures PassWorld(w, tasks, n, now, cfg, answers).system
         == ActedAll(w, ActsIn(w, tasks, 0, n, now, cfg, answers), cfg.heartbeatTimeout).system
  {
    hide ActedAll, Committed, VisitWorld, During, Freed;
    var timeout := cfg.heartbeatTimeout;
    if n == 0 {
      ActsNone(w, timeout);
    } else {
      var m := n - 1;
      WorkersUntouched(w, tasks, m, now, cfg, answers);
      var acts, before := ActsIn(w, tasks, 0, m, now, cfg, answers), answers[m].before;
      var read := ReadWorld(w, tasks, m, now, cfg, answers);
      var during := During(read, tasks[m], now, cfg, answers[m]);
      SameSystem(PassWorld(w, tasks, m, now, cfg, answers), ActedAll(w, acts, timeout), before, timeout);
      ActsCompose(w, acts, before, timeout);
      SameSystem(read, ActedAll(w, acts + before, timeout), during, timeout);
      ActsCompose(w, acts + before, during, timeout);
      VisitWorldExactly(read, tasks[m], now, cfg, answers[m]);
      assert !Frees(w, tasks, m, now, cfg, answers);
    }
  }
}
