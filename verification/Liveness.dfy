/** The worker registry as a value, and the orchestrator as a transition system over it:
    heartbeats, scheduler reaping, telemetry and supervisor passes interleave at every
    `await`, under a clock that never goes back (services/orchestrator). */
module Liveness {
  import opened Options

  // ---- the worker registry (worker_state.py, worker_registry.py) ------------------------

  datatype Worker = Worker(
    timestamp: real,
    firstSeenAt: real,
    lastReceivedAt: real,
    lastStatusChangeAt: real,
    maxConcurrent: int,
    online: bool,
    offlineSince: Option<real>,
    activeTask: Option<string>,
    isBusy: bool,
    availableSlots: int,
    availabilityReported: bool,
    capabilities: set<string>,
    systemInfo: Option<string>)
  {
    /** `WorkerState.is_alive`. */
    predicate Alive(now: real, timeout: real) {
      online && now - lastReceivedAt < timeout
    }
  }

  type Workers = map<string, Worker>

  datatype Heartbeat = Heartbeat(
    timestamp: real,
    receivedAt: real,
    maxConcurrent: int,
    activeTask: Option<string>,
    isBusy: Option<bool>,
    availableSlots: Option<int>,
    capabilities: set<string>,
    systemInfo: Option<string>)

  function NonNegative(n: int): nat {
    if n < 0 then 0 else n
  }

  function Busy(w: Worker, task: string): Worker {
    w.(activeTask := Some(task), isBusy := true, availableSlots := 0)
  }

  function Idle(w: Worker, task: Option<string>): Worker {
    if task.Some? && w.activeTask.Some? && w.activeTask != task then w
    else w.(activeTask := None, isBusy := false,
            availableSlots := if w.online then NonNegative(w.maxConcurrent) else 0)
  }

  /** `update_from_heartbeat` for a worker seen for the first time. */
  function Joined(hb: Heartbeat): Worker {
    var reported := hb.isBusy.Some? || hb.availableSlots.Some?;
    Worker(hb.timestamp, hb.receivedAt, hb.receivedAt, hb.receivedAt, hb.maxConcurrent, true, None,
           if reported then hb.activeTask else None,
           reported && ReportedBusy(hb),
           if reported then ReportedSlots(hb) else NonNegative(hb.maxConcurrent),
           reported, hb.capabilities, hb.systemInfo)
  }

  /** `update_from_heartbeat` for a known worker. */
  function Refreshed(w: Worker, hb: Heartbeat): Worker {
    var reported := hb.isBusy.Some? || hb.availableSlots.Some?;
    w.(timestamp := hb.timestamp,
       lastReceivedAt := hb.receivedAt,
       lastStatusChangeAt := if w.online then w.lastStatusChangeAt else hb.receivedAt,
       maxConcurrent := hb.maxConcurrent,
       online := true,
       offlineSince := None,
       activeTask := if reported then hb.activeTask else w.activeTask,
       isBusy := if reported then ReportedBusy(hb) else w.isBusy,
       availableSlots :=
         if reported then ReportedSlots(hb) else if w.isBusy then 0 else NonNegative(hb.maxConcurrent),
       availabilityReported := w.availabilityReported || reported,
       capabilities := hb.capabilities,
       systemInfo := hb.systemInfo)
  }

  predicate ReportedBusy(hb: Heartbeat) {
    hb.isBusy.Some? && hb.isBusy.value
  }

  function ReportedSlots(hb: Heartbeat): nat {
    if hb.availableSlots.Some? then NonNegative(hb.availableSlots.value)
    else if ReportedBusy(hb) then 0 else NonNegative(hb.maxConcurrent)
  }

  function Reaped(w: Worker, now: real, timeout: real): Worker {
    if !w.Alive(now, timeout) && w.online
    then w.(online := false, activeTask := None, isBusy := false, availableSlots := 0,
            offlineSince := Some(now), lastStatusChangeAt := now)
    else w
  }

  function MarkBusy(ws: Workers, id: string, task: string): Workers {
    if id in ws then ws[id := Busy(ws[id], task)] else ws
  }

  function MarkIdle(ws: Workers, id: string, task: Option<string>): Workers {
    if id in ws then ws[id := Idle(ws[id], task)] else ws
  }

  function Beat(ws: Workers, id: string, hb: Heartbeat): Workers {
    ws[id := if id in ws then Refreshed(ws[id], hb) else Joined(hb)]
  }

  function Reap(ws: Workers, now: real, timeout: real): Workers {
    map id | id in ws :: Reaped(ws[id], now, timeout)
  }

  /** What a worker offers after a heartbeat, by what it reported. A heartbeat that says nothing about availability leaves
      the task of a known worker alone: a busy worker offers nothing, any other what it can run. One that does is believed:
      its task, its busy flag, and its slots, or else what follows from the flag. Every heartbeat brings the worker online. */
  lemma OfferExactly(ws: Workers, id: string, hb: Heartbeat)
    ensures Beat(ws, id, hb).Keys == ws.Keys + {id}
    ensures forall other :: other in ws && other != id ==> Beat(ws, id, hb)[other] == ws[other]
    ensures var w := Beat(ws, id, hb)[id]; var silent := hb.isBusy.None? && hb.availableSlots.None?;
      var capacity := if hb.maxConcurrent > 0 then hb.maxConcurrent else 0;
      && w.online && w.offlineSince == None && w.lastReceivedAt == hb.receivedAt
      && w.maxConcurrent == hb.maxConcurrent && w.capabilities == hb.capabilities && w.systemInfo == hb.systemInfo
      && (silent ==>
            && w.activeTask == (if id in ws then ws[id].activeTask else None)
            && w.isBusy == (id in ws && ws[id].isBusy)
            && w.availableSlots == if w.isBusy then 0 else capacity)
      && (!silent ==>
            && w.activeTask == hb.activeTask && (w.isBusy <==> hb.isBusy == Some(true)) && w.availabilityReported
            && (hb.availableSlots.Some? && hb.availableSlots.value >= 0 ==> w.availableSlots == hb.availableSlots.value)
            && (hb.availableSlots.Some? && hb.availableSlots.value < 0 ==> w.availableSlots == 0)
            && (hb.availableSlots.None? ==> w.availableSlots == if w.isBusy then 0 else capacity))
      && w.firstSeenAt == (if id in ws then ws[id].firstSeenAt else hb.receivedAt)
      && w.lastStatusChangeAt == (if id in ws && ws[id].online then ws[id].lastStatusChangeAt else hb.receivedAt)
  {
  }

  /** A worker takes a task: it is busy with it and offers nothing; others stay as they are. */
  ghost predicate Taken(before: Workers, after: Workers, worker: string, task: string) {
    && before.Keys == after.Keys
    && (forall id :: id in before && id != worker ==> after[id] == before[id])
    && (worker in before ==> after[worker] == before[worker].(activeTask := Some(task), isBusy := true, availableSlots := 0))
  }

  /** A worker that runs no other task is idle again and offers all its slots; others stay as they are. */
  ghost predicate Freed(before: Workers, after: Workers, worker: string, task: string) {
    && before.Keys == after.Keys
    && (forall id :: id in before && (id != worker || before[id].activeTask !in {None, Some(task)}) ==> after[id] == before[id])
    && (worker in before && before[worker].activeTask in {None, Some(task)} ==>
          after[worker] == before[worker].(activeTask := None, isBusy := false,
            availableSlots := if before[worker].online && before[worker].maxConcurrent > 0 then before[worker].maxConcurrent else 0))
  }

  /** Reaping takes exactly the workers offline that are online and not heard of in time: they lose their task and their
      slots, and the time is noted. */
  lemma ReapExactly(ws: Workers, now: real, timeout: real, id: string)
    requires id in ws
    ensures Reap(ws, now, timeout).Keys == ws.Keys
    ensures var w, w' := ws[id], Reap(ws, now, timeout)[id];
      if w.online && now - w.lastReceivedAt >= timeout
      then w' == w.(online := false, activeTask := None, isBusy := false, availableSlots := 0, offlineSince := Some(now), lastStatusChangeAt := now)
      else w' == w
  {
  }

  lemma BusyIsTaken(ws: Workers, worker: string, task: string)
    ensures Taken(ws, MarkBusy(ws, worker, task), worker, task)
  {
  }

  lemma IdleIsFreed(ws: Workers, worker: string, task: string)
    ensures Freed(ws, MarkIdle(ws, worker, Some(task)), worker, task)
  {
  }

  // ---- one task of a reconciliation pass (execution_supervisor.py:132-151) ----------------

  datatype Verdict = Unassigned | StillAlive | StartupGrace | Lost

  function Judge(ws: Workers, owner: Option<string>, now: real, startedAt: real, timeout: real): Verdict {
    if owner.None? then Unassigned
    else if owner.value in ws && ws[owner.value].Alive(now, timeout) then StillAlive
    else if owner.value !in ws && now - startedAt < timeout then StartupGrace
    else Lost
  }

  // ---- the transition system ---------------------------------------------------------------

  datatype Task = Task(id: string, worker: Option<string>)

  /** A pass over what is listed by PostgreSQL; `now` was read when it began. */
  datatype Pass = Pass(now: real, todo: seq<Task>)

  datatype Received = Received(worker: string, at: real)

  /** A WORKER_LOST finalisation: at clock `at`, during the pass that began at `passNow`, when
      `heard` heartbeats had been received. */
  datatype Attempt = Attempt(task: string, worker: string, passNow: real, at: real, heard: nat)

  datatype System = System(
    clock: real,
    startedAt: real,
    workers: Workers,
    pass: Option<Pass>,
    received: seq<Received>,
    attempts: seq<Attempt>)

  datatype Step =
    | Tick(elapsed: real)
    | HeartbeatArrives(worker: string, hb: Heartbeat)
    | SchedulerReaps
    | TelemetryArrives(worker: string, task: string)
    | WorkerFreed(worker: string, finished: Option<string>)
    | PassBegins(listed: seq<Task>)
    | PassVisitsTask
    | PassEnds  // all is visited, or a visit has raised
    | Restart

  predicate Enabled(s: System, step: Step) {
    match step
    case Tick(elapsed) => elapsed >= 0.0
    case HeartbeatArrives(_, hb) => hb.receivedAt == s.clock
    case PassBegins(_) => s.pass.None?
    case PassVisitsTask => s.pass.Some? && s.pass.value.todo != []
    case PassEnds => s.pass.Some?
    case _ => true
  }

  function Next(s: System, step: Step, timeout: real): System
    requires Enabled(s, step)
  {
    match step
    case Tick(elapsed) => s.(clock := s.clock + elapsed)
    case HeartbeatArrives(id, hb) =>
      s.(workers := Beat(s.workers, id, hb), received := s.received + [Received(id, s.clock)])
    case SchedulerReaps => s.(workers := Reap(s.workers, s.clock, timeout))
    case TelemetryArrives(id, task) => s.(workers := MarkBusy(s.workers, id, task))
    case WorkerFreed(id, task) => s.(workers := MarkIdle(s.workers, id, task))
    case PassBegins(listed) =>
      s.(workers := Reap(s.workers, s.clock, timeout), pass := Some(Pass(s.clock, listed)))
    case PassVisitsTask => Visit(s, timeout)
    case PassEnds => s.(pass := None)
    case Restart => s.(startedAt := s.clock, workers := map[], pass := None)
  }

  function Visit(s: System, timeout: real): System
    requires Enabled(s, PassVisitsTask)
  {
    var pass := s.pass.value;
    var task := pass.todo[0];
    var s1 := s.(pass := Some(pass.(todo := pass.todo[1..])));
    match Judge(s.workers, task.worker, pass.now, s.startedAt, timeout)
    case StillAlive => s1.(workers := MarkBusy(s.workers, task.worker.value, task.id))
    case Lost =>
      s1.(attempts := s.attempts + [Attempt(task.id, task.worker.value, pass.now, s.clock, |s.received|)])
    case _ => s1
  }

  predicate Started(s: System) {
    s.workers == map[] && s.pass.None? && s.received == [] && s.attempts == [] && s.startedAt == s.clock
  }

  /** The states of a run: it starts afresh and takes enabled steps only. */
  ghost predicate IsRun(run: seq<System>, steps: seq<Step>, timeout: real) {
    && |run| == |steps| + 1
    && Started(run[0])
    && forall i :: 0 <= i < |steps| ==>
         Enabled(run[i], steps[i]) && run[i + 1] == Next(run[i], steps[i], timeout)
  }

  // ---- invariants ---------------------------------------------------------------------------

  /** No heartbeat of the worker arrived after `latest`. */
  ghost predicate NoneAfter(received: seq<Received>, id: string, latest: real) {
    forall i :: 0 <= i < |received| && received[i].worker == id ==> received[i].at <= latest
  }

  /** What the registry knows about worker `id` agrees with what was received: its last reception
      did arrive and is the latest; a worker it does not know was not heard since the restart. */
  ghost predicate Remembered(s: System, id: string) {
    if id in s.workers then
      && Received(id, s.workers[id].lastReceivedAt) in s.received
      && NoneAfter(s.received, id, s.workers[id].lastReceivedAt)
    else NoneAfter(s.received, id, s.startedAt)
  }

  /** OFFLINE means silent for a whole timeout, and nothing to offer. */
  ghost predicate Settled(w: Worker, clock: real, timeout: real) {
    && w.lastReceivedAt <= clock
    && w.availableSlots >= 0
    && (w.online <==> w.offlineSince.None?)
    && (!w.online ==>
          && w.availableSlots == 0
          && w.offlineSince.value <= clock
          && w.lastReceivedAt <= w.offlineSince.value - timeout)
  }

  /** During a pass, a worker that went silent before it began is already OFFLINE. */
  ghost predicate Current(w: Worker, now: real, timeout: real) {
    w.online || (w.offlineSince.Some? && w.offlineSince.value > now) ==> w.lastReceivedAt > now - timeout
  }

  /** No heartbeat of the worker in the timeout before `t`, among those heard so far. */
  ghost predicate Silent(received: seq<Received>, heard: nat, worker: string, t: real, timeout: real)
    requires heard <= |received|
  {
    forall i :: 0 <= i < heard && received[i].worker == worker ==> received[i].at <= t - timeout
  }

  ghost predicate Justified(received: seq<Received>, a: Attempt, timeout: real) {
    a.heard <= |received| && Silent(received, a.heard, a.worker, a.at, timeout)
  }

  ghost predicate Invariant(s: System, timeout: real) {
    && s.startedAt <= s.clock
    && (forall id :: Remembered(s, id))
    && (forall id :: id in s.workers ==> Settled(s.workers[id], s.clock, timeout))
    && (forall i :: 0 <= i < |s.received| ==> s.received[i].at <= s.clock)
    && (s.pass.Some? ==> s.startedAt <= s.pass.value.now <= s.clock)
    && (s.pass.Some? && timeout > 0.0 ==>
          forall id :: id in s.workers ==> Current(s.workers[id], s.pass.value.now, timeout))
    && forall a :: a in s.attempts ==> Justified(s.received, a, timeout)
  }

  lemma StartedInvariant(s: System, timeout: real)
    requires Started(s)
    ensures Invariant(s, timeout)
  {
  }

  lemma HeartbeatKeeps(s: System, id: string, hb: Heartbeat, timeout: real)
    requires Invariant(s, timeout) && hb.receivedAt == s.clock
    ensures Invariant(Next(s, HeartbeatArrives(id, hb), timeout), timeout)
  {
    var s' := Next(s, HeartbeatArrives(id, hb), timeout);
    forall x ensures Remembered(s', x) {
      assert Remembered(s, x);
      assert s'.received[|s.received|] == Received(id, s.clock);
    }
    forall a | a in s'.attempts ensures Justified(s'.received, a, timeout) {
      assert Justified(s.received, a, timeout);
    }
  }

  /** A step that receives nothing and changes no liveness field except by reaping. */
  lemma QuietKeeps(s: System, s': System, timeout: real)
    requires Invariant(s, timeout)
    requires s'.received == s.received && s'.attempts == s.attempts && s'.startedAt == s.startedAt
    requires s'.clock >= s.clock && s'.workers.Keys == s.workers.Keys
    requires forall id :: id in s.workers ==>
      && s'.workers[id].lastReceivedAt == s.workers[id].lastReceivedAt
      && Settled(s'.workers[id], s'.clock, timeout)
    requires s'.pass.Some? ==>
      && s'.startedAt <= s'.pass.value.now <= s'.clock
      && (timeout > 0.0 ==> forall id :: id in s'.workers ==> Current(s'.workers[id], s'.pass.value.now, timeout))
    ensures Invariant(s', timeout)
  {
    forall id ensures Remembered(s', id) {
      assert Remembered(s, id);
    }
  }

  /** A worker judged lost has been silent for a whole timeout at this very moment. */
  lemma LostIsSilent(s: System, id: string, timeout: real)
    requires Invariant(s, timeout) && s.pass.Some?
    requires Judge(s.workers, Some(id), s.pass.value.now, s.startedAt, timeout) == Lost
    ensures Silent(s.received, |s.received|, id, s.clock, timeout)
  {
    assert Remembered(s, id);
  }

  lemma VisitKeeps(s: System, timeout: real)
    requires Invariant(s, timeout) && Enabled(s, PassVisitsTask)
    ensures Invariant(Visit(s, timeout), timeout)
  {
    var s' := Visit(s, timeout);
    QuietKeeps(s, s'.(attempts := s.attempts), timeout);
    var task := s.pass.value.todo[0];
    if Judge(s.workers, task.worker, s.pass.value.now, s.startedAt, timeout) == Lost {
      LostIsSilent(s, task.worker.value, timeout);
      forall id ensures Remembered(s', id) {
        assert Remembered(s, id);
      }
    }
  }

  lemma RestartKeeps(s: System, timeout: real)
    requires Invariant(s, timeout)
    ensures Invariant(Next(s, Restart, timeout), timeout)
  {
  }

  lemma QuietStepKeeps(s: System, step: Step, timeout: real)
    requires Invariant(s, timeout) && Enabled(s, step)
    requires !step.HeartbeatArrives? && !step.PassVisitsTask? && !step.Restart?
    ensures Invariant(Next(s, step, timeout), timeout)
  {
    hide Remembered;
    QuietKeeps(s, Next(s, step, timeout), timeout);
  }

  lemma NextKeeps(s: System, step: Step, timeout: real)
    requires Invariant(s, timeout) && Enabled(s, step)
    ensures Invariant(Next(s, step, timeout), timeout)
  {
    hide Invariant;
    match step
    case HeartbeatArrives(id, hb) => HeartbeatKeeps(s, id, hb, timeout);
    case PassVisitsTask => VisitKeeps(s, timeout);
    case Restart => RestartKeeps(s, timeout);
    case _ => QuietStepKeeps(s, step, timeout);
  }

  lemma {:induction false} RunInvariant(run: seq<System>, steps: seq<Step>, timeout: real, n: nat)
    requires IsRun(run, steps, timeout) && n < |run|
    ensures Invariant(run[n], timeout)
  {
    if n == 0 {
      StartedInvariant(run[0], timeout);
    } else {
      RunInvariant(run, steps, timeout, n - 1);
      NextKeeps(run[n - 1], steps[n - 1], timeout);
    }
  }

  /** A state that some run leads to. */
  ghost predicate Reachable(s: System, timeout: real) {
    exists run: seq<System>, steps: seq<Step> :: IsRun(run, steps, timeout) && run[|steps|] == s
  }

  lemma RunSnoc(run: seq<System>, steps: seq<Step>, step: Step, timeout: real)
    requires IsRun(run, steps, timeout) && Enabled(run[|steps|], step)
    ensures IsRun(run + [Next(run[|steps|], step, timeout)], steps + [step], timeout)
  {
    hide Next, Enabled;
    var run', steps' := run + [Next(run[|steps|], step, timeout)], steps + [step];
    forall i | 0 <= i < |steps'| ensures Enabled(run'[i], steps'[i]) && run'[i + 1] == Next(run'[i], steps'[i], timeout) {
      if i < |steps| {
        assert run'[i] == run[i] && run'[i + 1] == run[i + 1] && steps'[i] == steps[i];
      }
    }
  }

  lemma ReachableNext(s: System, step: Step, timeout: real)
    requires Reachable(s, timeout) && Enabled(s, step)
    ensures Reachable(Next(s, step, timeout), timeout)
  {
    hide Next, Enabled;
    var run: seq<System>, steps: seq<Step> :| IsRun(run, steps, timeout) && run[|steps|] == s;
    RunSnoc(run, steps, step, timeout);
    assert (run + [Next(s, step, timeout)])[|steps + [step]|] == Next(s, step, timeout);
  }

  lemma ReachableInvariant(s: System, timeout: real)
    requires Reachable(s, timeout)
    ensures Invariant(s, timeout)
  {
    hide Invariant;
    var run: seq<System>, steps: seq<Step> :| IsRun(run, steps, timeout) && run[|steps|] == s;
    RunInvariant(run, steps, timeout, |steps|);
  }

  // ---- theorems ---------------------------------------------------------------------------

  /** In every run, with any interleaving and any restarts, a task is finalised as WORKER_LOST
      only when its worker has been silent for a whole heartbeat timeout. */
  lemma WorkerLostIsSafe(run: seq<System>, steps: seq<Step>, timeout: real, n: nat, a: Attempt)
    requires IsRun(run, steps, timeout) && n < |run| && a in run[n].attempts
    ensures a.heard <= |run[n].received|
    ensures Silent(run[n].received, a.heard, a.worker, a.at, timeout)
  {
    RunInvariant(run, steps, timeout, n);
    assert Justified(run[n].received, a, timeout);
  }

  /** OFFLINE in any reachable state: nothing heard for a timeout, and no slots offered. */
  lemma OfflineIsSilent(run: seq<System>, steps: seq<Step>, timeout: real, n: nat, id: string)
    requires IsRun(run, steps, timeout) && n < |run|
    requires id in run[n].workers && !run[n].workers[id].online
    ensures Silent(run[n].received, |run[n].received|, id, run[n].clock, timeout)
    ensures run[n].workers[id].availableSlots == 0
  {
    RunInvariant(run, steps, timeout, n);
    assert Remembered(run[n], id);
  }

  /** The scheduler took the worker offline after the current pass had begun. */
  predicate ReapedSince(s: System, id: string)
    requires s.pass.Some?
  {
    id in s.workers && s.workers[id].offlineSince.Some? && s.workers[id].offlineSince.value > s.pass.value.now
  }

  /** What a pass decides about a worker, in terms of what was received: it is judged lost exactly
      when the scheduler reaped it since the pass began, or it was silent for the timeout before
      the pass and is either known or overdue after a restart. */
  lemma LostExactly(run: seq<System>, steps: seq<Step>, timeout: real, n: nat, id: string)
    requires IsRun(run, steps, timeout) && n < |run| && run[n].pass.Some? && timeout > 0.0
    ensures var s := run[n]; var now := s.pass.value.now;
      Judge(s.workers, Some(id), now, s.startedAt, timeout) == Lost
      <==> || ReapedSince(s, id)
           || (Silent(s.received, |s.received|, id, now, timeout)
               && (id in s.workers || now - s.startedAt >= timeout))
  {
    RunInvariant(run, steps, timeout, n);
    var s := run[n];
    assert Remembered(s, id);
    if id in s.workers {
      assert Settled(s.workers[id], s.clock, timeout) && Current(s.workers[id], s.pass.value.now, timeout);
    }
  }

  /** For a worker judged lost, the window before the pass itself was silent too, except exactly
      when the scheduler reaped the worker while the pass was waiting. */
  lemma PassWindowExactly(run: seq<System>, steps: seq<Step>, timeout: real, n: nat, id: string)
    requires IsRun(run, steps, timeout) && n < |run| && run[n].pass.Some? && timeout > 0.0
    requires Judge(run[n].workers, Some(id), run[n].pass.value.now, run[n].startedAt, timeout) == Lost
    ensures Silent(run[n].received, |run[n].received|, id, run[n].pass.value.now, timeout)
       <==> !ReapedSince(run[n], id)
  {
    RunInvariant(run, steps, timeout, n);
    var s := run[n];
    assert Remembered(s, id);
    if id in s.workers {
      assert Settled(s.workers[id], s.clock, timeout) && Current(s.workers[id], s.pass.value.now, timeout);
    }
  }

  lemma SoleReap(w: Worker, now: real, timeout: real)
    ensures Reap(map["worker" := w], now, timeout) == map["worker" := Reaped(w, now, timeout)]
  {
  }

  lemma SoleVisit(s: System, dead: Worker)
    requires s.workers == map["worker" := dead] && !dead.online
    requires s.pass == Some(Pass(35.0, [Task("task", Some("worker"))]))
    ensures Next(s, PassVisitsTask, 30.0)
         == s.(pass := Some(Pass(35.0, [])), attempts := s.attempts + [Attempt("task", "worker", 35.0, s.clock, |s.received|)])
  {
    assert s.pass.value.todo[1..] == [];
  }

  /** A worker heard at 10 is alive when a pass begins at 35. */
  lemma WindowBegins(w: Worker, hb: Heartbeat, todo: seq<Task>) returns (run: seq<System>, steps: seq<Step>)
    requires hb == Heartbeat(10.0, 10.0, 1, None, None, None, {}, None) && w == Joined(hb)
    ensures IsRun(run, steps, 30.0)
    ensures run[|steps|] == System(35.0, 0.0, map["worker" := w], Some(Pass(35.0, todo)), [Received("worker", 10.0)], [])
  {
    var s0 := System(0.0, 0.0, map[], None, [], []);
    var s1 := s0.(clock := 10.0);
    var s2 := s1.(workers := map["worker" := w], received := [Received("worker", 10.0)]);
    var s3 := s2.(clock := 35.0);
    var s4 := s3.(pass := Some(Pass(35.0, todo)));
    run := [s0, s1, s2, s3, s4];
    steps := [Tick(10.0), HeartbeatArrives("worker", hb), Tick(25.0), PassBegins(todo)];
    assert Next(s1, steps[1], 30.0) == s2;
    assert Next(s3, steps[3], 30.0) == s4 by { SoleReap(w, 35.0, 30.0); }
  }

  /** The scheduler reaps it at 45, and the pass then finds it lost. */
  lemma WindowRun() returns (run: seq<System>, steps: seq<Step>)
    ensures IsRun(run, steps, 30.0)
    ensures run[|steps|].attempts == [Attempt("task", "worker", 35.0, 45.0, 1)]
    ensures run[|steps|].received == [Received("worker", 10.0)]
  {
    var hb, todo := Heartbeat(10.0, 10.0, 1, None, None, None, {}, None), [Task("task", Some("worker"))];
    var w := Joined(hb);
    var run0, steps0 := WindowBegins(w, hb, todo);
    var s4 := run0[|steps0|];
    var s5 := s4.(clock := 45.0);
    var s6 := s5.(workers := map["worker" := Reaped(w, 45.0, 30.0)]);
    assert Next(s5, SchedulerReaps, 30.0) == s6 by { SoleReap(w, 45.0, 30.0); }
    SoleVisit(s6, Reaped(w, 45.0, 30.0));
    RunSnoc(run0, steps0, Tick(10.0), 30.0);
    RunSnoc(run0 + [s5], steps0 + [Tick(10.0)], SchedulerReaps, 30.0);
    RunSnoc(run0 + [s5] + [s6], steps0 + [Tick(10.0)] + [SchedulerReaps], PassVisitsTask, 30.0);
    run := run0 + [s5] + [s6] + [Next(s6, PassVisitsTask, 30.0)];
    steps := steps0 + [Tick(10.0)] + [SchedulerReaps] + [PassVisitsTask];
  }

  /** The exception does happen: the worker's heartbeat at 10 is younger than the timeout of 30
      when the pass begins at 35; the scheduler reaps at 45; the pass then reports it lost. */
  lemma PassWindowCanFail() returns (run: seq<System>, steps: seq<Step>, a: Attempt)
    ensures IsRun(run, steps, 30.0)
    ensures a in run[|steps|].attempts && a.heard <= |run[|steps|].received|
    ensures !Silent(run[|steps|].received, a.heard, a.worker, a.passNow, 30.0)
  {
    hide Next, Enabled;
    run, steps := WindowRun();
    var s := run[|steps|];
    a := s.attempts[0];
    assert s.received[0].worker == "worker" && s.received[0].at > 35.0 - 30.0;
  }
}
