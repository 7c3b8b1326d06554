/** The orchestrator's registry of workers: mutable `WorkerState` objects in a dictionary,
    computing the value operations of Liveness (services/orchestrator/worker_registry.py). */
module WorkerRegistry {
  import opened Liveness
  import opened Options

  class WorkerState {
    const workerId: string
    var timestamp: real
    var firstSeenAt: real
    var lastReceivedAt: real
    var lastStatusChangeAt: real
    var maxConcurrent: int
    var online: bool
    var offlineSince: Option<real>
    var activeTaskId: Option<string>
    var isBusy: bool
    var availableSlots: int
    var availabilityReported: bool
    var capabilities: set<string>
    var systemInfo: Option<string>

    constructor (workerId: string, hb: Heartbeat)
      ensures Value() == Joined(hb) && this.workerId == workerId
    {
      var reported := hb.isBusy.Some? || hb.availableSlots.Some?;
      this.workerId := workerId;
      timestamp, firstSeenAt, lastReceivedAt, lastStatusChangeAt :=
        hb.timestamp, hb.receivedAt, hb.receivedAt, hb.receivedAt;
      maxConcurrent, online, offlineSince := hb.maxConcurrent, true, None;
      activeTaskId := if reported then hb.activeTask else None;
      isBusy := reported && ReportedBusy(hb);
      availableSlots := if reported then ReportedSlots(hb) else NonNegative(hb.maxConcurrent);
      availabilityReported := reported;
      capabilities, systemInfo := hb.capabilities, hb.systemInfo;
    }

    function Value(): Worker
      reads this
    {
      Worker(timestamp, firstSeenAt, lastReceivedAt, lastStatusChangeAt, maxConcurrent, online,
             offlineSince, activeTaskId, isBusy, availableSlots, availabilityReported, capabilities, systemInfo)
    }

    predicate IsAlive(now: real, timeout: real)
      reads this
    {
      online && now - lastReceivedAt < timeout
    }

    method TakeAvailability(hb: Heartbeat, reported: bool)
      modifies this`activeTaskId, this`isBusy, this`availableSlots, this`availabilityReported
      ensures activeTaskId == if reported then hb.activeTask else old(activeTaskId)
      ensures isBusy == if reported then ReportedBusy(hb) else old(isBusy)
      ensures availableSlots == if reported then ReportedSlots(hb) else if old(isBusy) then 0 else NonNegative(hb.maxConcurrent)
      ensures availabilityReported == (old(availabilityReported) || reported)
    {
      if reported {
        activeTaskId := hb.activeTask;
        isBusy := ReportedBusy(hb);
        availableSlots := ReportedSlots(hb);
        availabilityReported := true;
      } else {
        availableSlots := if isBusy then 0 else NonNegative(hb.maxConcurrent);
      }
    }

    method Refresh(hb: Heartbeat)
      modifies this
      ensures Value() == Refreshed(old(Value()), hb)
    {
      var wasOnline := online;
      var reported := hb.isBusy.Some? || hb.availableSlots.Some?;
      timestamp := hb.timestamp;
      lastReceivedAt := hb.receivedAt;
      capabilities := hb.capabilities;
      maxConcurrent := hb.maxConcurrent;
      online := true;
      TakeAvailability(hb, reported);
      systemInfo := hb.systemInfo;
      if !wasOnline {
        lastStatusChangeAt := hb.receivedAt;
      }
      offlineSince := None;
    }

    /** What `mark_idle` does to the worker it found. */
    method Release(taskId: Option<string>)
      modifies this
      ensures Value() == Idle(old(Value()), taskId)
    {
      if taskId.Some? && activeTaskId.Some? && activeTaskId != taskId {
        return;
      }
      activeTaskId := None;
      isBusy := false;
      availableSlots := if online then NonNegative(maxConcurrent) else 0;
    }

    /** The body of the reaping loop; tells whether the worker went offline. */
    method Reap(now: real, timeout: real) returns (died: bool)
      modifies this
      ensures Value() == Reaped(old(Value()), now, timeout)
      ensures died <==> old(Value()).online && !old(Value()).Alive(now, timeout)
    {
      died := !IsAlive(now, timeout) && online;
      if died {
        online, activeTaskId, isBusy, availableSlots := false, None, false, 0;
        offlineSince, lastStatusChangeAt := Some(now), now;
      }
    }
  }

  class Registry {
    var workers: map<string, WorkerState>

    /** No two ids share a state object. */
    ghost predicate Valid()
      reads this
    {
      forall a, b :: a in workers && b in workers && a != b ==> workers[a] != workers[b]
    }

    function View(): Workers
      reads this, workers.Values
    {
      map id | id in workers :: workers[id].Value()
    }

    constructor ()
      ensures Valid() && View() == map[] && workers == map[]
    {
      workers := map[];
    }

    method MarkBusy(workerId: string, taskId: string)
      requires Valid()
      modifies workers.Values
      ensures Valid() && View() == Liveness.MarkBusy(old(View()), workerId, taskId)
    {
      if workerId !in workers {
        return;
      }
      var worker := workers[workerId];
      worker.activeTaskId := Some(taskId);
      worker.isBusy := true;
      worker.availableSlots := 0;
    }

    method MarkIdle(workerId: string, taskId: Option<string>)
      requires Valid()
      modifies workers.Values
      ensures Valid() && View() == Liveness.MarkIdle(old(View()), workerId, taskId)
    {
      if workerId !in workers {
        return;
      }
      hide Idle;
      workers[workerId].Release(taskId);
    }

    method UpdateFromHeartbeat(workerId: string, hb: Heartbeat) returns (worker: WorkerState)
      requires Valid()
      modifies this, workers.Values
      ensures Valid() && View() == Beat(old(View()), workerId, hb)
      ensures workerId in workers && workers[workerId] == worker && fresh(workers.Values - old(workers.Values))
    {
      hide Refreshed, Joined;
      if workerId in workers {
        worker := workers[workerId];
        worker.Refresh(hb);
        assert View() == old(View())[workerId := worker.Value()];
      } else {
        worker := new WorkerState(workerId, hb);
        workers := workers[workerId := worker];
        assert View() == old(View())[workerId := worker.Value()];
      }
    }

    /** The workers whose heartbeat is recent enough, by id. */
    method GetAliveWorkers(now: real, timeout: real) returns (alive: set<string>)
      ensures forall id :: id in alive <==> id in View() && View()[id].Alive(now, timeout)
    {
      alive := {};
      var rest := workers.Keys;
      while rest != {}
        invariant rest <= workers.Keys
        invariant forall id :: id in alive <==> id in workers && id !in rest && View()[id].Alive(now, timeout)
        decreases rest
      {
        var id :| id in rest;
        if workers[id].IsAlive(now, timeout) {
          alive := alive + {id};
        }
        rest := rest - {id};
      }
    }

    /** `reap_dead_workers`: marks stale workers OFFLINE in place and reports the new ones. */
    method ReapDeadWorkers(now: real, timeout: real) returns (dead: set<string>)
      requires Valid()
      modifies workers.Values
      ensures Valid() && View() == Liveness.Reap(old(View()), now, timeout)
      ensures forall id :: id in dead <==>
        id in old(View()) && old(View())[id].online && !old(View())[id].Alive(now, timeout)
    {
      hide Reaped;
      dead := {};
      ghost var before := View();
      var rest := workers.Keys;
      while rest != {}
        invariant rest <= workers.Keys && workers == old(workers)
        invariant forall id :: id in workers ==>
          workers[id].Value() == if id in rest then before[id] else Reaped(before[id], now, timeout)
        invariant forall id :: id in dead <==>
          id in workers && id !in rest && before[id].online && !before[id].Alive(now, timeout)
        decreases rest
      {
        var id :| id in rest;
        var died := workers[id].Reap(now, timeout);
        if died {
          dead := dead + {id};
        }
        rest := rest - {id};
      }
    }
  }
}
