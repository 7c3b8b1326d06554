/** The out-of-memory guard: which task is asked to stop, and how often a host may lose one
    (services/orchestrator/execution_supervisor.py:365-487). */
module OomGuard {
  import opened Cancellation
  import opened Options

  /** `max(items, key=...)`: the first index of a largest key. */
  function ArgMax(keys: seq<real>): (k: nat)
    requires keys != []
    ensures k < |keys|
    ensures forall j :: 0 <= j < |keys| ==> keys[j] <= keys[k]
    ensures forall j :: 0 <= j < k ==> keys[j] < keys[k]
  {
    if |keys| == 1 then 0
    else
      var k := ArgMax(keys[..|keys| - 1]);
      if keys[|keys| - 1] > keys[k] then |keys| - 1 else k
  }

  // ---- settings and log --------------------------------------------------------------------

  datatype ThresholdType = PERCENT | ABSOLUTE_MB

  datatype Mode =
    | DISABLED
    | HOST_PRESSURE(hostPercent: Option<real>)
    | WORKER_THRESHOLD(thresholdType: Option<ThresholdType>, percent: Option<real>, megabytes: Option<int>)

  /** A kill request that the execution facade accepted: the time of its pass, and when it was accepted. */
  datatype Kill = Kill(host: string, task: string, at: real, accepted: real)

  /** What the execution facade answers to a kill request: it is accepted some time later, refused, or raises. */
  datatype KillAnswer = Accepts(at: real) | Refuses | Fails

  /** `failed` tells that a request of the current pass has raised. */
  datatype Guard = Guard(lastKillAt: map<string, real>, log: seq<Kill>, failed: bool)

  /** One pass of the guard, from `now` until it ends: settings, telemetry and answers may differ each time. */
  datatype Pass = Pass(mode: Mode, records: seq<Record>, now: real, answers: string -> KillAnswer, until: real)

  predicate Cooling(lastKillAt: map<string, real>, host: string, now: real, cooldown: real) {
    now - (if host in lastKillAt then lastKillAt[host] else 0.0) < cooldown
  }

  function Strike(g: Guard, victim: Record, now: real, answers: string -> KillAnswer): Guard {
    match answers(victim.taskId)
    case Accepts(at) =>
      g.(lastKillAt := g.lastKillAt[victim.hostname := now], log := g.log + [Kill(victim.hostname, victim.taskId, now, at)])
    case Refuses => g
    case Fails => g.(failed := true)
  }

  // ---- host pressure -------------------------------------------------------------------------

  function OnHost(records: seq<Record>, host: string): (rs: seq<Record>)
    ensures forall r :: r in rs <==> r in records && r.hostname == host
  {
    if records == [] then []
    else
      var last := records[|records| - 1];
      OnHost(records[..|records| - 1], host) + if last.hostname == host then [last] else []
  }

  /** The keys of the `by_host` grouping, in order of first appearance. */
  function Hosts(records: seq<Record>): (hosts: seq<string>)
    ensures forall h :: h in hosts <==> exists r :: r in records && r.hostname == h
    ensures forall i, j :: 0 <= i < j < |hosts| ==> hosts[i] != hosts[j]
  {
    if records == [] then []
    else
      var hosts := Hosts(records[..|records| - 1]);
      var host := records[|records| - 1].hostname;
      assert forall r :: r in records <==> r in records[..|records| - 1] || r == records[|records| - 1];
      if host in hosts then hosts else hosts + [host]
  }

  lemma HostOccupied(records: seq<Record>, host: string)
    requires host in Hosts(records)
    ensures OnHost(records, host) != []
  {
    var r :| r in records && r.hostname == host;
    assert r in OnHost(records, host);
  }

  function Rss(rs: seq<Record>): (keys: seq<real>)
    ensures |keys| == |rs| && forall i :: 0 <= i < |rs| ==> keys[i] == rs[i].rssBytes as real
  {
    seq(|rs|, i requires 0 <= i < |rs| => rs[i].rssBytes as real)
  }

  function Ram(rs: seq<Record>): (keys: seq<real>)
    ensures |keys| == |rs| && forall i :: 0 <= i < |rs| ==> keys[i] == rs[i].systemRamUsedPercent
  {
    seq(|rs|, i requires 0 <= i < |rs| => rs[i].systemRamUsedPercent)
  }

  predicate UnderPressure(rs: seq<Record>, threshold: real)
    requires rs != []
  {
    Ram(rs)[ArgMax(Ram(rs))] >= threshold
  }

  function HostVisit(g: Guard, rs: seq<Record>, host: string, threshold: real, now: real, cooldown: real,
                     answers: string -> KillAnswer): Guard
    requires rs != []
  {
    if g.failed || !UnderPressure(rs, threshold) || Cooling(g.lastKillAt, host, now, cooldown) then g
    else Strike(g, rs[ArgMax(Rss(rs))], now, answers)
  }

  function HostPass(g: Guard, records: seq<Record>, n: nat, threshold: real, now: real, cooldown: real,
                    answers: string -> KillAnswer): Guard
    requires n <= |Hosts(records)|
  {
    if n == 0 then g
    else
      var host := Hosts(records)[n - 1];
      HostOccupied(records, host);
      HostVisit(HostPass(g, records, n - 1, threshold, now, cooldown, answers),
                OnHost(records, host), host, threshold, now, cooldown, answers)
  }

  // ---- worker threshold --------------------------------------------------------------------------

  function MemoryUsedPercent(r: Record): Option<real> {
    if r.memoryLimitBytes.None? || r.memoryLimitBytes.value <= 0 then None
    else Some(r.rssBytes as real / r.memoryLimitBytes.value as real * 100.0)
  }

  /** The ranking key of a record that meets the configured threshold. */
  function Offence(r: Record, mode: Mode): Option<real>
    requires mode.WORKER_THRESHOLD?
  {
    match mode.thresholdType
    case None => None
    case Some(PERCENT) =>
      var used := MemoryUsedPercent(r);
      if used.None? || mode.percent.None? || used.value < mode.percent.value then None else used
    case Some(ABSOLUTE_MB) =>
      if mode.megabytes.None? || r.rssBytes < mode.megabytes.value * 1024 * 1024 then None
      else Some(r.rssBytes as real)
  }

  predicate Candidate(g: Guard, r: Record, mode: Mode, now: real, cooldown: real)
    requires mode.WORKER_THRESHOLD?
  {
    !Cooling(g.lastKillAt, r.hostname, now, cooldown) && Offence(r, mode).Some?
  }

  function Candidates(g: Guard, records: seq<Record>, mode: Mode, now: real, cooldown: real): (rs: seq<Record>)
    requires mode.WORKER_THRESHOLD?
    ensures forall r :: r in rs <==> r in records && Candidate(g, r, mode, now, cooldown)
  {
    if records == [] then []
    else
      var last := records[|records| - 1];
      Candidates(g, records[..|records| - 1], mode, now, cooldown)
      + if Candidate(g, last, mode, now, cooldown) then [last] else []
  }

  function Offences(rs: seq<Record>, mode: Mode): (keys: seq<real>)
    requires mode.WORKER_THRESHOLD? && forall r :: r in rs ==> Offence(r, mode).Some?
    ensures |keys| == |rs| && forall i :: 0 <= i < |rs| ==> keys[i] == Offence(rs[i], mode).value
  {
    seq(|rs|, i requires 0 <= i < |rs| => Offence(rs[i], mode).value)
  }

  function WorkerPass(g: Guard, records: seq<Record>, mode: Mode, now: real, cooldown: real,
                      answers: string -> KillAnswer): Guard
    requires mode.WORKER_THRESHOLD?
  {
    var rs := Candidates(g, records, mode, now, cooldown);
    if rs == [] then g else Strike(g, rs[ArgMax(Offences(rs, mode))], now, answers)
  }

  // ---- a pass and a run -----------------------------------------------------------------------------

  function GuardPass(before: Guard, p: Pass, cooldown: real): Guard {
    var g := before.(failed := false);
    match p.mode
    case DISABLED => g
    case HOST_PRESSURE(None) => g
    case HOST_PRESSURE(Some(threshold)) =>
      HostPass(g, p.records, |Hosts(p.records)|, threshold, p.now, cooldown, p.answers)
    case WORKER_THRESHOLD(_, _, _) => WorkerPass(g, p.records, p.mode, p.now, cooldown, p.answers)
  }

  /** The life of one supervisor: it starts without kills, and the clock never goes back. */
  function GuardRun(passes: seq<Pass>, cooldown: real): Guard {
    if passes == [] then Guard(map[], [], false)
    else GuardPass(GuardRun(passes[..|passes| - 1], cooldown), passes[|passes| - 1], cooldown)
  }

  /** Passes follow one another, and answers come while their pass waits for them. */
  ghost predicate ClockAdvances(passes: seq<Pass>) {
    && (forall i, j :: 0 <= i < j < |passes| ==> passes[i].until <= passes[j].now)
    && forall i :: 0 <= i < |passes| ==> Timely(passes[i])
  }

  ghost predicate Timely(p: Pass) {
    p.now <= p.until && forall task :: p.answers(task).Accepts? ==> p.now <= p.answers(task).at <= p.until
  }

  /** Kills on the same host are at least a cooldown apart. */
  predicate Spaced(log: seq<Kill>, cooldown: real) {
    forall i, j :: 0 <= i < j < |log| && log[i].host == log[j].host ==> log[j].at - log[i].at >= cooldown
  }

  /** `lastKillAt` remembers the pass of the latest kill of every host that had one, none after `now`;
      no kill was accepted before its pass began. */
  predicate Remembers(g: Guard, now: real) {
    forall i :: 0 <= i < |g.log| ==>
      && g.log[i].host in g.lastKillAt && g.log[i].at <= g.lastKillAt[g.log[i].host] <= now
      && g.log[i].at <= g.log[i].accepted
  }

  predicate Safe(g: Guard, now: real, cooldown: real) {
    Remembers(g, now) && Spaced(g.log, cooldown)
  }

  lemma StrikeSafe(g: Guard, victim: Record, now: real, cooldown: real, answers: string -> KillAnswer)
    requires Safe(g, now, cooldown) && !Cooling(g.lastKillAt, victim.hostname, now, cooldown)
    requires answers(victim.taskId).Accepts? ==> now <= answers(victim.taskId).at
    ensures Safe(Strike(g, victim, now, answers), now, cooldown)
  {
  }

  lemma HostVisitSafe(g: Guard, rs: seq<Record>, host: string, threshold: real, now: real, cooldown: real,
                      answers: string -> KillAnswer)
    requires rs != [] && (forall r :: r in rs ==> r.hostname == host) && Safe(g, now, cooldown)
    requires forall task :: answers(task).Accepts? ==> now <= answers(task).at
    ensures Safe(HostVisit(g, rs, host, threshold, now, cooldown, answers), now, cooldown)
  {
    var victim := rs[ArgMax(Rss(rs))];
    assert victim in rs;
    if !Cooling(g.lastKillAt, host, now, cooldown) { StrikeSafe(g, victim, now, cooldown, answers); }
  }

  lemma {:induction false} HostPassSafe(g: Guard, records: seq<Record>, n: nat, threshold: real, now: real,
                                        cooldown: real, answers: string -> KillAnswer)
    requires n <= |Hosts(records)| && Safe(g, now, cooldown)
    requires forall task :: answers(task).Accepts? ==> now <= answers(task).at
    ensures Safe(HostPass(g, records, n, threshold, now, cooldown, answers), now, cooldown)
  {
    hide Safe, HostVisit, Hosts, OnHost;
    if n > 0 {
      HostPassSafe(g, records, n - 1, threshold, now, cooldown, answers);
      var host := Hosts(records)[n - 1];
      HostOccupied(records, host);
      HostVisitSafe(HostPass(g, records, n - 1, threshold, now, cooldown, answers),
                    OnHost(records, host), host, threshold, now, cooldown, answers);
    }
  }

  lemma GuardPassSafe(before: Guard, p: Pass, cooldown: real)
    requires Safe(before, p.now, cooldown) && Timely(p)
    ensures Safe(GuardPass(before, p, cooldown), p.now, cooldown)
  {
    var g := before.(failed := false);
    match p.mode
    case HOST_PRESSURE(Some(threshold)) =>
      HostPassSafe(g, p.records, |Hosts(p.records)|, threshold, p.now, cooldown, p.answers);
    case WORKER_THRESHOLD(_, _, _) =>
      var rs := Candidates(g, p.records, p.mode, p.now, cooldown);
      if rs != [] {
        var victim := rs[ArgMax(Offences(rs, p.mode))];
        assert victim in rs;
        StrikeSafe(g, victim, p.now, cooldown, p.answers);
      }
    case _ =>
  }

  // ---- who is chosen ------------------------------------------------------------------------------------

  /** The kills a pass adds. */
  function Added(g: Guard, g': Guard): seq<Kill>
    requires |g.log| <= |g'.log|
  {
    g'.log[|g.log|..]
  }

  /** A host-pressure kill hits a heaviest task of a host whose fullest report reaches the threshold. */
  ghost predicate HostOffender(records: seq<Record>, host: string, task: string, threshold: real) {
    exists v :: v in records && v.taskId == task && v.hostname == host
      && (forall r :: r in records && r.hostname == v.hostname ==> r.rssBytes <= v.rssBytes)
      && (exists r :: r in records && r.hostname == v.hostname && r.systemRamUsedPercent >= threshold)
  }

  /** A worker-threshold kill hits a worst offender among the hosts that are not cooling down. */
  ghost predicate WorkerOffender(g: Guard, records: seq<Record>, kill: Kill, mode: Mode, now: real, cooldown: real)
    requires mode.WORKER_THRESHOLD?
  {
    exists v :: v in records && v.taskId == kill.task && v.hostname == kill.host
      && Candidate(g, v, mode, now, cooldown)
      && forall r :: r in records && Candidate(g, r, mode, now, cooldown) ==>
           Offence(r, mode).value <= Offence(v, mode).value
  }

  ghost predicate Deserved(g: Guard, p: Pass, kill: Kill, cooldown: real) {
    match p.mode
    case DISABLED => false
    case HOST_PRESSURE(threshold) => threshold.Some? && HostOffender(p.records, kill.host, kill.task, threshold.value)
    case WORKER_THRESHOLD(_, _, _) => WorkerOffender(g, p.records, kill, p.mode, p.now, cooldown)
  }

  lemma HostVictim(records: seq<Record>, host: string, threshold: real)
    requires host in Hosts(records) && OnHost(records, host) != []
    requires UnderPressure(OnHost(records, host), threshold)
    ensures var rs := OnHost(records, host);
      HostOffender(records, host, rs[ArgMax(Rss(rs))].taskId, threshold)
  {
    var rs := OnHost(records, host);
    var v, fullest := rs[ArgMax(Rss(rs))], rs[ArgMax(Ram(rs))];
    assert v in rs && fullest in rs;
    forall r | r in records && r.hostname == v.hostname ensures r.rssBytes <= v.rssBytes {
      assert r in rs;
      var i :| 0 <= i < |rs| && rs[i] == r;
      assert Rss(rs)[i] <= Rss(rs)[ArgMax(Rss(rs))];
    }
  }

  /** The kill is of the pass at `now`, and the facade accepted it. */
  predicate Granted(k: Kill, now: real, answers: string -> KillAnswer) {
    k.at == now && answers(k.task) == Accepts(k.accepted)
  }

  /** A pass over hosts `earlier` added kills of its own, deserved, at most one per host. */
  ghost predicate HostKills(g: Guard, g': Guard, records: seq<Record>, earlier: seq<string>, threshold: real, now: real,
                            answers: string -> KillAnswer) {
    && g.log <= g'.log
    && (forall k :: k in Added(g, g') ==>
          Granted(k, now, answers) && HostOffender(records, k.host, k.task, threshold) && k.host in earlier)
    && forall i, j :: |g.log| <= i < j < |g'.log| ==> g'.log[i].host != g'.log[j].host
  }

  lemma HostKillsSnoc(g: Guard, g': Guard, records: seq<Record>, earlier: seq<string>, threshold: real, now: real,
                      host: string, victim: Record, answers: string -> KillAnswer)
    requires HostKills(g, g', records, earlier, threshold, now, answers) && host !in earlier
    requires victim.hostname == host && HostOffender(records, host, victim.taskId, threshold)
    ensures HostKills(g, Strike(g', victim, now, answers), records, earlier + [host], threshold, now, answers)
  {
    hide HostOffender;
    var g2 := Strike(g', victim, now, answers);
    if answers(victim.taskId).Accepts? {
      assert Added(g, g2) == Added(g, g') + [Kill(host, victim.taskId, now, answers(victim.taskId).at)];
    } else {
      assert g2.log == g'.log;
    }
    forall i | |g.log| <= i < |g'.log| ensures g'.log[i].host in earlier {
      assert g'.log[i] == Added(g, g')[i - |g.log|];
    }
  }

  lemma HostKillsWiden(g: Guard, g': Guard, records: seq<Record>, earlier: seq<string>, threshold: real, now: real,
                       answers: string -> KillAnswer, host: string)
    requires HostKills(g, g', records, earlier, threshold, now, answers)
    ensures HostKills(g, g', records, earlier + [host], threshold, now, answers)
  {
    hide HostOffender;
  }

  lemma {:induction false} HostPassVictims(g: Guard, records: seq<Record>, n: nat, threshold: real, now: real,
                                           cooldown: real, answers: string -> KillAnswer)
    requires n <= |Hosts(records)|
    ensures HostKills(g, HostPass(g, records, n, threshold, now, cooldown, answers), records,
                      Hosts(records)[..n], threshold, now, answers)
  {
    hide HostKills, Strike, Rss, HostOffender, OnHost, Hosts, UnderPressure;
    if n == 0 {
      NoKills(g, records, threshold, now, answers);
    } else {
      HostPassVictims(g, records, n - 1, threshold, now, cooldown, answers);
      var g1 := HostPass(g, records, n - 1, threshold, now, cooldown, answers);
      var host := Hosts(records)[n - 1];
      HostOccupied(records, host);
      var rs := OnHost(records, host);
      assert Hosts(records)[..n] == Hosts(records)[..n - 1] + [host];
      if g1.failed || !UnderPressure(rs, threshold) || Cooling(g1.lastKillAt, host, now, cooldown) {
        HostKillsWiden(g, g1, records, Hosts(records)[..n - 1], threshold, now, answers, host);
      } else {
        HostVictim(records, host, threshold);
        assert rs[ArgMax(Rss(rs))] in rs;
        HostKillsSnoc(g, g1, records, Hosts(records)[..n - 1], threshold, now, host, rs[ArgMax(Rss(rs))], answers);
      }
    }
  }

  lemma NoKills(g: Guard, records: seq<Record>, threshold: real, now: real, answers: string -> KillAnswer)
    ensures HostKills(g, g, records, [], threshold, now, answers)
  {
  }

  /** Every kill a pass adds is justified by that pass's own telemetry and settings, carries its time and
      that of its acceptance, and no pass takes two tasks of one host. */
  lemma VictimsAreOffenders(before: Guard, p: Pass, cooldown: real)
    ensures var g, g' := before.(failed := false), GuardPass(before, p, cooldown);
      && g.log <= g'.log
      && (forall k :: k in Added(g, g') ==> Granted(k, p.now, p.answers) && Deserved(g, p, k, cooldown))
      && forall i, j :: |g.log| <= i < j < |g'.log| ==> g'.log[i].host != g'.log[j].host
  {
    var g := before.(failed := false);
    match p.mode
    case HOST_PRESSURE(Some(threshold)) =>
      HostPassVictims(g, p.records, |Hosts(p.records)|, threshold, p.now, cooldown, p.answers);
    case WORKER_THRESHOLD(_, _, _) =>
      var rs := Candidates(g, p.records, p.mode, p.now, cooldown);
      if rs != [] {
        var v := rs[ArgMax(Offences(rs, p.mode))];
        assert v in rs;
        forall r | r in p.records && Candidate(g, r, p.mode, p.now, cooldown)
          ensures Offence(r, p.mode).value <= Offence(v, p.mode).value
        {
          assert r in rs;
          var i :| 0 <= i < |rs| && rs[i] == r;
          assert Offences(rs, p.mode)[i] <= Offences(rs, p.mode)[ArgMax(Offences(rs, p.mode))];
        }
      }
    case _ =>
  }

  // ---- who must be killed ----------------------------------------------------------------------------------

  /** A request to kill `victim`, by its answer: it is logged and its host cools down, or nothing happens, or the pass
      ends. */
  ghost predicate IsRequested(g: Guard, g': Guard, victim: Record, now: real, answers: string -> KillAnswer) {
    match answers(victim.taskId)
    case Accepts(at) =>
      && g'.log == g.log + [Kill(victim.hostname, victim.taskId, now, at)]
      && g'.lastKillAt == g.lastKillAt[victim.hostname := now] && g'.failed == g.failed
    case Refuses => g' == g
    case Fails => g' == g.(failed := true)
  }

  /** A record is a candidate exactly if its host does not cool down and it reaches the threshold of the configured type:
      its share of the memory limit in percent, or its size in megabytes. Records are compared by that figure. */
  lemma CandidateExactly(g: Guard, r: Record, mode: Mode, now: real, cooldown: real)
    requires mode.WORKER_THRESHOLD?
    ensures Candidate(g, r, mode, now, cooldown) <==>
      && (r.hostname in g.lastKillAt ==> now - g.lastKillAt[r.hostname] >= cooldown)
      && (r.hostname !in g.lastKillAt ==> now >= cooldown)
      && mode.thresholdType.Some?
      && match mode.thresholdType.value
         case PERCENT =>
           && r.memoryLimitBytes.Some? && r.memoryLimitBytes.value > 0 && mode.percent.Some?
           && r.rssBytes as real * 100.0 >= mode.percent.value * r.memoryLimitBytes.value as real
         case ABSOLUTE_MB => mode.megabytes.Some? && r.rssBytes >= mode.megabytes.value * 1048576
    ensures Candidate(g, r, mode, now, cooldown) && mode.thresholdType == Some(PERCENT) ==>
      Offence(r, mode).value * r.memoryLimitBytes.value as real == r.rssBytes as real * 100.0
    ensures Candidate(g, r, mode, now, cooldown) && mode.thresholdType == Some(ABSOLUTE_MB) ==>
      Offence(r, mode).value == r.rssBytes as real
  {
    if r.memoryLimitBytes.Some? && r.memoryLimitBytes.value > 0 {
      var x, y := r.rssBytes as real, r.memoryLimitBytes.value as real;
      ShareIs(x, y);
      if mode.percent.Some? {
        ShareReaches(x / y * 100.0, y, mode.percent.value);
      }
    }
  }

  lemma ShareIs(x: real, y: real)
    requires y > 0.0
    ensures x / y * 100.0 * y == x * 100.0
  {
    assert x / y * y == x;
  }

  lemma ShareReaches(used: real, y: real, percent: real)
    requires y > 0.0
    ensures used >= percent <==> used * y >= percent * y
  {
    assert (used - percent) * y == used * y - percent * y;
  }

  /** In worker-threshold mode a pass requests exactly one kill if some record is a candidate, of a worst one, and
      otherwise none. */
  lemma WorkerPassExactly(g: Guard, records: seq<Record>, mode: Mode, now: real, cooldown: real, answers: string -> KillAnswer)
    requires mode.WORKER_THRESHOLD?
    ensures var g' := WorkerPass(g, records, mode, now, cooldown, answers);
      if forall r :: r in records ==> !Candidate(g, r, mode, now, cooldown) then g' == g
      else exists v ::
        && v in records && Candidate(g, v, mode, now, cooldown)
        && (forall r :: r in records && Candidate(g, r, mode, now, cooldown) ==> Offence(r, mode).value <= Offence(v, mode).value)
        && IsRequested(g, g', v, now, answers)
  {
    hide Offence;
    var rs := Candidates(g, records, mode, now, cooldown);
    if r :| r in records && Candidate(g, r, mode, now, cooldown) {
      assert r in rs;
      var v := rs[ArgMax(Offences(rs, mode))];
      assert v in rs;
      forall r | r in records && Candidate(g, r, mode, now, cooldown) ensures Offence(r, mode).value <= Offence(v, mode).value {
        assert r in rs;
        var i :| 0 <= i < |rs| && rs[i] == r;
        assert Offences(rs, mode)[i] <= Offences(rs, mode)[ArgMax(Offences(rs, mode))];
      }
      assert IsRequested(g, WorkerPass(g, records, mode, now, cooldown, answers), v, now, answers);
    } else {
      if rs != [] {
        assert rs[0] in rs;
      }
    }
  }

  /** The host reports enough pressure and does not cool down when the pass begins. */
  ghost predicate Pressing(g: Guard, records: seq<Record>, host: string, threshold: real, now: real, cooldown: real) {
    && (exists r :: r in records && r.hostname == host && r.systemRamUsedPercent >= threshold)
    && !Cooling(g.lastKillAt, host, now, cooldown)
  }

  /** The first heaviest task of a host. */
  function VictimOn(records: seq<Record>, host: string): (v: Record)
    requires host in Hosts(records)
    ensures v in records && v.hostname == host
    ensures forall r :: r in records && r.hostname == host ==> r.rssBytes <= v.rssBytes
  {
    HostOccupied(records, host);
    var rs := OnHost(records, host);
    var v := rs[ArgMax(Rss(rs))];
    HeaviestOf(records, host);
    v
  }

  lemma HeaviestOf(records: seq<Record>, host: string)
    requires host in Hosts(records) && OnHost(records, host) != []
    ensures var rs := OnHost(records, host); var v := rs[ArgMax(Rss(rs))];
      v in records && v.hostname == host && forall r :: r in records && r.hostname == host ==> r.rssBytes <= v.rssBytes
  {
    var rs := OnHost(records, host);
    var v := rs[ArgMax(Rss(rs))];
    assert v in rs;
    forall r | r in records && r.hostname == host ensures r.rssBytes <= v.rssBytes {
      assert r in rs;
      var i :| 0 <= i < |rs| && rs[i] == r;
      assert Rss(rs)[i] <= Rss(rs)[ArgMax(Rss(rs))];
    }
  }

  lemma PressureExactly(records: seq<Record>, host: string, threshold: real)
    requires host in Hosts(records) && OnHost(records, host) != []
    ensures UnderPressure(OnHost(records, host), threshold) <==>
      exists r :: r in records && r.hostname == host && r.systemRamUsedPercent >= threshold
  {
    var rs := OnHost(records, host);
    var keys := Ram(rs);
    assert rs[ArgMax(keys)] in rs;
    if r :| r in records && r.hostname == host && r.systemRamUsedPercent >= threshold {
      assert r in rs;
      var i :| 0 <= i < |rs| && rs[i] == r;
      assert keys[i] <= keys[ArgMax(keys)];
    }
  }

  /** The request for host number `j` raises. */
  ghost predicate RaisesAt(g: Guard, records: seq<Record>, j: int, threshold: real, now: real, cooldown: real,
                           answers: string -> KillAnswer)
  {
    && 0 <= j < |Hosts(records)|
    && Pressing(g, records, Hosts(records)[j], threshold, now, cooldown)
    && answers(VictimOn(records, Hosts(records)[j]).taskId).Fails?
  }

  /** After `n` hosts: the pass has failed exactly if a request raised, and a host still to come cools down as it did. */
  ghost predicate HostsDone(g: Guard, g': Guard, records: seq<Record>, n: nat, threshold: real, now: real, cooldown: real,
                            answers: string -> KillAnswer)
    requires n <= |Hosts(records)|
  {
    && (g'.failed <==> exists j :: 0 <= j < n && RaisesAt(g, records, j, threshold, now, cooldown, answers))
    && forall k :: n <= k < |Hosts(records)| ==>
         (Cooling(g'.lastKillAt, Hosts(records)[k], now, cooldown) <==> Cooling(g.lastKillAt, Hosts(records)[k], now, cooldown))
  }

  /** Host `n` is struck exactly if it presses and nothing raised before. */
  lemma HostStep(g: Guard, g': Guard, records: seq<Record>, n: nat, threshold: real, now: real, cooldown: real,
                 answers: string -> KillAnswer)
    requires n < |Hosts(records)| && HostsDone(g, g', records, n, threshold, now, cooldown, answers)
    ensures var host := Hosts(records)[n];
      OnHost(records, host) != []
      && var g2 := HostVisit(g', OnHost(records, host), host, threshold, now, cooldown, answers);
      && (if !g'.failed && Pressing(g, records, host, threshold, now, cooldown)
          then IsRequested(g', g2, VictimOn(records, host), now, answers) else g2 == g')
      && HostsDone(g, g2, records, n + 1, threshold, now, cooldown, answers)
  {
    hide Hosts, OnHost, UnderPressure, Rss;
    var host := Hosts(records)[n];
    HostOccupied(records, host);
    PressureExactly(records, host, threshold);
    HeaviestOf(records, host);
    var g2 := HostVisit(g', OnHost(records, host), host, threshold, now, cooldown, answers);
    assert RaisesAt(g, records, n, threshold, now, cooldown, answers) <==>
      Pressing(g, records, host, threshold, now, cooldown) && answers(VictimOn(records, host).taskId).Fails?;
  }

  lemma NoneDone(g: Guard, records: seq<Record>, threshold: real, now: real, cooldown: real, answers: string -> KillAnswer)
    requires !g.failed
    ensures HostsDone(g, g, records, 0, threshold, now, cooldown, answers)
  {
  }

  lemma {:induction false} HostPassDone(g: Guard, records: seq<Record>, n: nat, threshold: real, now: real, cooldown: real,
                                        answers: string -> KillAnswer)
    requires n <= |Hosts(records)| && !g.failed
    ensures HostsDone(g, HostPass(g, records, n, threshold, now, cooldown, answers), records, n, threshold, now, cooldown, answers)
  {
    hide Hosts, OnHost, HostVisit, HostsDone;
    if n == 0 {
      NoneDone(g, records, threshold, now, cooldown, answers);
    } else {
      HostPassDone(g, records, n - 1, threshold, now, cooldown, answers);
      HostStep(g, HostPass(g, records, n - 1, threshold, now, cooldown, answers), records, n - 1, threshold, now, cooldown, answers);
    }
  }

  /** In host-pressure mode a pass asks, host by host, for a kill of a heaviest task on every host that presses, until a
      request raises; and for no other. */
  lemma HostPassExactly(g: Guard, records: seq<Record>, i: nat, threshold: real, now: real, cooldown: real,
                        answers: string -> KillAnswer)
    requires i < |Hosts(records)| && !g.failed
    ensures var host := Hosts(records)[i];
      var g1 := HostPass(g, records, i, threshold, now, cooldown, answers);
      var g2 := HostPass(g, records, i + 1, threshold, now, cooldown, answers);
      if Pressing(g, records, host, threshold, now, cooldown)
         && forall j :: 0 <= j < i ==> !RaisesAt(g, records, j, threshold, now, cooldown, answers)
      then IsRequested(g1, g2, VictimOn(records, host), now, answers) else g2 == g1
  {
    hide Hosts, OnHost, HostVisit, IsRequested, Pressing, RaisesAt;
    HostPassDone(g, records, i, threshold, now, cooldown, answers);
    HostStep(g, HostPass(g, records, i, threshold, now, cooldown, answers), records, i, threshold, now, cooldown, answers);
    HostOccupied(records, Hosts(records)[i]);
  }

  /** Host number `i` presses, and no request before it raised. */
  ghost predicate IsAsked(g: Guard, records: seq<Record>, i: nat, threshold: real, now: real, cooldown: real,
                          answers: string -> KillAnswer)
    requires i < |Hosts(records)|
  {
    && Pressing(g, records, Hosts(records)[i], threshold, now, cooldown)
    && forall j :: 0 <= j < i ==> !RaisesAt(g, records, j, threshold, now, cooldown, answers)
  }

  /** The kill that a pass makes on a host. */
  ghost predicate IsKill(g: Guard, g': Guard, k: Kill) {
    |g.log| <= |g'.log| && k in Added(g, g')
  }

  lemma {:induction false} HostKillsExactly(g: Guard, records: seq<Record>, n: nat, threshold: real, now: real, cooldown: real,
                                            answers: string -> KillAnswer, k: Kill)
    requires n <= |Hosts(records)| && !g.failed
    ensures var g' := HostPass(g, records, n, threshold, now, cooldown, answers);
      && g.log <= g'.log
      && (IsKill(g, g', k) <==> exists i :: 0 <= i < n && KillsAt(g, records, i, threshold, now, cooldown, answers, k))
  {
    hide Hosts, HostPass, IsKill, KillsAt;
    if n == 0 {
      NoKill(g, k);
      PassStarts(g, records, threshold, now, cooldown, answers);
    } else {
      HostKillsExactly(g, records, n - 1, threshold, now, cooldown, answers, k);
      HostKillStep(g, records, n - 1, threshold, now, cooldown, answers, k);
    }
  }

  lemma PassStarts(g: Guard, records: seq<Record>, threshold: real, now: real, cooldown: real, answers: string -> KillAnswer)
    ensures HostPass(g, records, 0, threshold, now, cooldown, answers) == g
  {
  }

  lemma HostKillStep(g: Guard, records: seq<Record>, i: nat, threshold: real, now: real, cooldown: real,
                     answers: string -> KillAnswer, k: Kill)
    requires i < |Hosts(records)| && !g.failed && g.log <= HostPass(g, records, i, threshold, now, cooldown, answers).log
    ensures var g1 := HostPass(g, records, i, threshold, now, cooldown, answers);
      var g2 := HostPass(g, records, i + 1, threshold, now, cooldown, answers);
      g.log <= g2.log
      && (IsKill(g, g2, k) <==> IsKill(g, g1, k) || KillsAt(g, records, i, threshold, now, cooldown, answers, k))
  {
    hide Hosts, HostPass, IsKill, IsAsked, IsAccepted, IsRequested, Pressing, RaisesAt;
    HostPassExactly(g, records, i, threshold, now, cooldown, answers);
    AskedIs(g, records, i, threshold, now, cooldown, answers);
    if IsAsked(g, records, i, threshold, now, cooldown, answers) {
      RequestAdds(g, HostPass(g, records, i, threshold, now, cooldown, answers), HostPass(g, records, i + 1, threshold, now, cooldown, answers),
                  VictimOn(records, Hosts(records)[i]), now, answers, k);
    }
  }

  lemma NoKill(g: Guard, k: Kill)
    ensures !IsKill(g, g, k)
  {
  }

  /** The kill is the accepted one of host number `i`. */
  ghost predicate KillsAt(g: Guard, records: seq<Record>, i: int, threshold: real, now: real, cooldown: real,
                          answers: string -> KillAnswer, k: Kill)
  {
    && 0 <= i < |Hosts(records)| && IsAsked(g, records, i, threshold, now, cooldown, answers)
    && IsAccepted(VictimOn(records, Hosts(records)[i]), k, now, answers)
  }

  lemma AskedIs(g: Guard, records: seq<Record>, i: nat, threshold: real, now: real, cooldown: real, answers: string -> KillAnswer)
    requires i < |Hosts(records)|
    ensures IsAsked(g, records, i, threshold, now, cooldown, answers) <==>
      && Pressing(g, records, Hosts(records)[i], threshold, now, cooldown)
      && forall j :: 0 <= j < i ==> !RaisesAt(g, records, j, threshold, now, cooldown, answers)
  {
  }

  predicate IsAccepted(victim: Record, k: Kill, now: real, answers: string -> KillAnswer) {
    answers(victim.taskId).Accepts? && k == Kill(victim.hostname, victim.taskId, now, answers(victim.taskId).at)
  }

  lemma RequestAdds(g: Guard, g1: Guard, g2: Guard, victim: Record, now: real, answers: string -> KillAnswer, k: Kill)
    requires g.log <= g1.log && IsRequested(g1, g2, victim, now, answers)
    ensures g.log <= g2.log && (IsKill(g, g2, k) <==> IsKill(g, g1, k) || IsAccepted(victim, k, now, answers))
  {
    if answers(victim.taskId).Accepts? {
      assert Added(g, g2) == Added(g, g1) + [Kill(victim.hostname, victim.taskId, now, answers(victim.taskId).at)];
    }
  }

  /** What a pass of the guard adds to the log: nothing when it is disabled or has no threshold; under host pressure exactly
      the accepted kills of the hosts that are asked; under a worker threshold what one request for a worst candidate gives. */
  lemma GuardPassExactly(before: Guard, p: Pass, cooldown: real, k: Kill)
    ensures var g, g' := before.(failed := false), GuardPass(before, p, cooldown);
      match p.mode
      case DISABLED => g' == g
      case HOST_PRESSURE(None) => g' == g
      case HOST_PRESSURE(Some(threshold)) =>
        IsKill(g, g', k) <==> exists i :: KillsAt(g, p.records, i, threshold, p.now, cooldown, p.answers, k)
      case WORKER_THRESHOLD(_, _, _) =>
        if forall r :: r in p.records ==> !Candidate(g, r, p.mode, p.now, cooldown) then g' == g
        else exists v :: IsWorst(g, p, v, cooldown) && IsRequested(g, g', v, p.now, p.answers)
  {
    hide Hosts, HostPass, WorkerPass, IsAsked, IsKill, IsRequested, Candidate;
    var g := before.(failed := false);
    match p.mode
    case HOST_PRESSURE(Some(threshold)) =>
      HostKillsExactly(g, p.records, |Hosts(p.records)|, threshold, p.now, cooldown, p.answers, k);
    case WORKER_THRESHOLD(_, _, _) => WorkerPassExactly(g, p.records, p.mode, p.now, cooldown, p.answers);
    case _ =>
  }

  /** A candidate that no other candidate exceeds. */
  ghost predicate IsWorst(g: Guard, p: Pass, v: Record, cooldown: real)
    requires p.mode.WORKER_THRESHOLD?
  {
    && v in p.records && Candidate(g, v, p.mode, p.now, cooldown)
    && forall r :: r in p.records && Candidate(g, r, p.mode, p.now, cooldown) ==> Offence(r, p.mode).value <= Offence(v, p.mode).value
  }

  // ---- how far apart kills are -------------------------------------------------------------------------------

  /** The least time between two acceptances, when the earlier one took `wait`. */
  function LeastGap(cooldown: real, wait: real): real {
    if cooldown > wait then cooldown - wait else 0.0
  }

  /** Kills on the same host are accepted in order, and a cooldown apart less the wait of the earlier one. */
  predicate AcceptedApart(log: seq<Kill>, cooldown: real) {
    forall i, j :: 0 <= i < j < |log| && log[i].host == log[j].host ==>
      log[j].accepted - log[i].accepted >= LeastGap(cooldown, log[i].accepted - log[i].at)
  }

  predicate InOrder(log: seq<Kill>) {
    forall i, j :: 0 <= i < j < |log| && log[i].host == log[j].host ==> log[i].accepted <= log[j].accepted
  }

  predicate AcceptedBy(log: seq<Kill>, t: real) {
    forall i :: 0 <= i < |log| ==> log[i].accepted <= t
  }

  predicate WaitedAtMost(log: seq<Kill>, wait: real) {
    forall i :: 0 <= i < |log| ==> log[i].accepted - log[i].at <= wait
  }

  ghost predicate AnswersWithin(p: Pass, wait: real) {
    forall task :: p.answers(task).Accepts? ==> p.answers(task).at - p.now <= wait
  }

  lemma PassInOrder(before: Guard, p: Pass, cooldown: real, wait: real)
    requires InOrder(before.log) && AcceptedBy(before.log, p.now) && Timely(p)
    requires WaitedAtMost(before.log, wait) && AnswersWithin(p, wait)
    ensures var log := GuardPass(before, p, cooldown).log;
      InOrder(log) && AcceptedBy(log, p.until) && WaitedAtMost(log, wait)
  {
    hide GuardPass, Deserved;
    VictimsAreOffenders(before, p, cooldown);
    var g, log := before.(failed := false), GuardPass(before, p, cooldown).log;
    forall i | |g.log| <= i < |log| ensures Granted(log[i], p.now, p.answers) {
      assert log[i] == Added(g, GuardPass(before, p, cooldown))[i - |g.log|];
    }
    assert forall i :: 0 <= i < |g.log| ==> log[i] == g.log[i];
  }

  lemma {:induction false} RunInOrder(passes: seq<Pass>, cooldown: real, wait: real)
    requires ClockAdvances(passes) && forall i :: 0 <= i < |passes| ==> AnswersWithin(passes[i], wait)
    ensures var log := GuardRun(passes, cooldown).log;
      && InOrder(log) && WaitedAtMost(log, wait)
      && (if passes == [] then log == [] else AcceptedBy(log, passes[|passes| - 1].until))
  {
    hide GuardPass, InOrder, WaitedAtMost, AnswersWithin;
    if passes == [] {
      NoneInOrder(wait);
    } else {
      var init, last := passes[..|passes| - 1], passes[|passes| - 1];
      RunInOrder(init, cooldown, wait);
      PassInOrder(GuardRun(init, cooldown), last, cooldown, wait);
    }
  }

  lemma NoneInOrder(wait: real)
    ensures InOrder([]) && WaitedAtMost([], wait)
  {
  }

  lemma {:induction false} RunSafe(passes: seq<Pass>, cooldown: real)
    requires ClockAdvances(passes)
    ensures var g := GuardRun(passes, cooldown);
      if passes == [] then g.log == [] else Safe(g, passes[|passes| - 1].now, cooldown)
  {
    hide GuardPass;
    if passes != [] {
      var init, last := passes[..|passes| - 1], passes[|passes| - 1];
      RunSafe(init, cooldown);
      assert Remembers(GuardRun(init, cooldown), last.now);
      GuardPassSafe(GuardRun(init, cooldown), last, cooldown);
    }
  }

  /** Over the whole life of a supervisor, whatever the settings, telemetry and answers of each pass: the passes
      of two accepted kills on one host are at least a cooldown apart; the acceptances are in order, and a cooldown
      apart less the wait of the earlier one. `LeastGapIsReached` shows that this is the best bound. */
  lemma KillsAreSpaced(passes: seq<Pass>, cooldown: real)
    requires ClockAdvances(passes)
    ensures Spaced(GuardRun(passes, cooldown).log, cooldown)
    ensures AcceptedApart(GuardRun(passes, cooldown).log, cooldown)
    ensures passes != [] ==> Safe(GuardRun(passes, cooldown), passes[|passes| - 1].now, cooldown)
  {
    hide GuardRun;
    RunSafe(passes, cooldown);
    RunOrdered(passes, cooldown);
  }

  lemma RunOrdered(passes: seq<Pass>, cooldown: real)
    requires ClockAdvances(passes)
    ensures InOrder(GuardRun(passes, cooldown).log)
  {
    hide GuardRun, AnswersWithin, Timely, InOrder;
    if passes != [] {
      var wait := passes[|passes| - 1].until - passes[0].now;
      forall i | 0 <= i < |passes| ensures AnswersWithin(passes[i], wait) {
        SpanBounds(passes, i);
      }
      RunInOrder(passes, cooldown, wait);
    } else {
      RunInOrder(passes, cooldown, 0.0);
    }
  }

  /** No answer takes longer than all passes together. */
  lemma SpanBounds(passes: seq<Pass>, i: nat)
    requires ClockAdvances(passes) && i < |passes|
    ensures AnswersWithin(passes[i], passes[|passes| - 1].until - passes[0].now)
  {
    assert Timely(passes[0]) && Timely(passes[i]) && Timely(passes[|passes| - 1]);
    assert passes[0].now <= passes[i].now;
    assert passes[i].until <= passes[|passes| - 1].until;
  }

  /** For every cooldown and wait there is a run whose two kills on one host are accepted exactly that far apart:
      the first is accepted after `wait`, the second, of the earliest pass that may follow, at once. */
  lemma LeastGapIsReached(r: Record, cooldown: real, wait: real)
    requires r.systemRamUsedPercent >= 90.0 && wait >= 0.0
    ensures exists passes :: AnsweredWithin(passes, wait) && IsLeastPair(GuardRun(passes, cooldown).log, cooldown, wait)
  {
    var mode, start := HOST_PRESSURE(Some(90.0)), if cooldown > 0.0 then cooldown else 0.0;
    var next := start + if cooldown > wait then cooldown else wait;
    var first := Pass(mode, [r], start, task => Accepts(start + wait), start + wait);
    var second := Pass(mode, [r], next, task => Accepts(next), next);
    var passes := [first, second];
    hide GuardRun;
    TwoStrikes(r, first, second, cooldown);
    assert AnsweredWithin(passes, wait) && IsLeastPair(GuardRun(passes, cooldown).log, cooldown, wait);
  }

  /** Two kills on one host, the first accepted after `wait`, the second the least time later. */
  predicate IsLeastPair(log: seq<Kill>, cooldown: real, wait: real) {
    && |log| == 2 && log[0].host == log[1].host && log[0].accepted - log[0].at == wait
    && log[1].accepted - log[0].accepted == LeastGap(cooldown, wait)
  }

  lemma TwoStrikes(r: Record, first: Pass, second: Pass, cooldown: real)
    requires Presses(r, first) && Presses(r, second)
    requires first.now >= cooldown && second.now - first.now >= cooldown
    ensures GuardRun([first, second], cooldown).log
         == [Kill(r.hostname, r.taskId, first.now, first.answers(r.taskId).at),
             Kill(r.hostname, r.taskId, second.now, second.answers(r.taskId).at)]
  {
    hide GuardPass, GuardRun;
    var g0 := Guard(map[], [], false);
    SoleStrike(g0, r, first, cooldown);
    SoleStrike(Strike(g0, r, first.now, first.answers), r, second, cooldown);
    TwoPasses(first, second, cooldown);
  }

  /** The pass finds one task, on a host under pressure, and its kill is accepted. */
  predicate Presses(r: Record, p: Pass) {
    p.mode == HOST_PRESSURE(Some(90.0)) && p.records == [r] && r.systemRamUsedPercent >= 90.0 && p.answers(r.taskId).Accepts?
  }

  lemma TwoPasses(first: Pass, second: Pass, cooldown: real)
    ensures GuardRun([first, second], cooldown) == GuardPass(GuardPass(Guard(map[], [], false), first, cooldown), second, cooldown)
  {
    hide GuardPass;
    var passes := [first, second];
    assert passes[..1] == [first] && [first][..0] == [];
    assert GuardRun([first], cooldown) == GuardPass(Guard(map[], [], false), first, cooldown);
  }

  lemma SoleHost(r: Record)
    ensures Hosts([r]) == [r.hostname] && OnHost([r], r.hostname) == [r]
  {
    assert [r][..0] == [];
  }

  lemma SoleStrike(g: Guard, r: Record, p: Pass, cooldown: real)
    requires Presses(r, p) && !Cooling(g.lastKillAt, r.hostname, p.now, cooldown)
    ensures GuardPass(g, p, cooldown) == Strike(g.(failed := false), r, p.now, p.answers)
  {
    hide Hosts, OnHost;
    SoleHost(r);
    var g1 := g.(failed := false);
    assert Ram([r])[0] == r.systemRamUsedPercent;
    assert HostPass(g1, [r], 0, 90.0, p.now, cooldown, p.answers) == g1;
    HostOccupied([r], r.hostname);
    assert HostPass(g1, [r], 1, 90.0, p.now, cooldown, p.answers)
        == HostVisit(g1, [r], r.hostname, 90.0, p.now, cooldown, p.answers);
  }

  /** Acceptances on the same host are a cooldown apart. */
  predicate CooldownApart(log: seq<Kill>, cooldown: real) {
    forall i, j :: 0 <= i < j < |log| && log[i].host == log[j].host ==> log[j].accepted - log[i].accepted >= cooldown
  }

  /** A supervisor whose requests are answered within `wait`. */
  ghost predicate AnsweredWithin(passes: seq<Pass>, wait: real) {
    ClockAdvances(passes) && forall i :: 0 <= i < |passes| ==> AnswersWithin(passes[i], wait)
  }

  /** Where requests are answered within `wait`, acceptances are a cooldown apart in every run exactly if every
      request is answered at once or there is no cooldown. */
  lemma AcceptancesExactly(cooldown: real, wait: real)
    requires wait >= 0.0
    ensures (forall passes :: AnsweredWithin(passes, wait) ==> CooldownApart(GuardRun(passes, cooldown).log, cooldown))
       <==> wait == 0.0 || cooldown <= 0.0
  {
    hide GuardRun, ClockAdvances, AnswersWithin;
    if wait == 0.0 || cooldown <= 0.0 {
      forall passes | AnsweredWithin(passes, wait) ensures CooldownApart(GuardRun(passes, cooldown).log, cooldown) {
        KillsAreSpaced(passes, cooldown);
        RunInOrder(passes, cooldown, wait);
      }
    } else {
      var r := Record("task", "worker", "host", 1, None, 95.0, 0.0);
      LeastGapIsReached(r, cooldown, wait);
      var passes :| AnsweredWithin(passes, wait) && IsLeastPair(GuardRun(passes, cooldown).log, cooldown, wait);
      assert !CooldownApart(GuardRun(passes, cooldown).log, cooldown);
    }
  }

  // ---- the guard on the supervisor's own dictionary ---------------------------------------------------------

  class OomSupervisor {
    var hostLastKillAt: map<string, real>
    ghost var log: seq<Kill>
    const cooldown: real

    constructor (cooldown: real)
      ensures this.cooldown == cooldown && Now(false) == Guard(map[], [], false)
    {
      this.cooldown := cooldown;
      hostLastKillAt, log := map[], [];
    }

    ghost function Now(failed: bool): Guard
      reads this
    {
      Guard(hostLastKillAt, log, failed)
    }

    method RequestTaskKill(victim: Record, now: real, answers: string -> KillAnswer) returns (failed: bool)
      modifies this
      ensures Now(failed) == Strike(old(Now(false)), victim, now, answers)
    {
      failed := false;
      match answers(victim.taskId)
      case Accepts(at) =>
        hostLastKillAt := hostLastKillAt[victim.hostname := now];
        log := log + [Kill(victim.hostname, victim.taskId, now, at)];
      case Refuses =>
      case Fails => failed := true;
    }

    /** The body of the loop over hosts. */
    method VisitHost(rs: seq<Record>, host: string, threshold: real, now: real, answers: string -> KillAnswer)
      returns (failed: bool)
      requires rs != []
      modifies this
      ensures Now(failed) == HostVisit(old(Now(false)), rs, host, threshold, now, cooldown, answers)
    {
      failed := false;
      var pressure := Ram(rs)[ArgMax(Ram(rs))];
      if pressure < threshold {
        return;
      }
      if Cooling(hostLastKillAt, host, now, cooldown) {
        return;
      }
      failed := RequestTaskKill(rs[ArgMax(Rss(rs))], now, answers);
    }

    /** `_apply_host_pressure_guard`; a request that raises ends the pass. */
    method ApplyHostPressureGuard(records: seq<Record>, threshold: Option<real>, now: real, answers: string -> KillAnswer,
                                  ghost until: real) returns (failed: bool)
      modifies this
      ensures Now(failed) == GuardPass(old(Now(false)), Pass(HOST_PRESSURE(threshold), records, now, answers, until), cooldown)
    {
      hide HostVisit, Hosts, OnHost;
      failed := false;
      if threshold.None? {
        return;
      }
      var hosts := Hosts(records);
      for i := 0 to |hosts|
        invariant !failed && Now(false) == HostPass(old(Now(false)), records, i, threshold.value, now, cooldown, answers)
      {
        HostOccupied(records, hosts[i]);
        failed := VisitHost(OnHost(records, hosts[i]), hosts[i], threshold.value, now, answers);
        if failed {
          FailedStays(old(Now(false)), records, i + 1, |hosts|, threshold.value, now, cooldown, answers);
          return;
        }
      }
    }

    method ApplyWorkerThresholdGuard(records: seq<Record>, mode: Mode, now: real, answers: string -> KillAnswer,
                                     ghost until: real) returns (failed: bool)
      requires mode.WORKER_THRESHOLD?
      modifies this
      ensures Now(failed) == GuardPass(old(Now(false)), Pass(mode, records, now, answers, until), cooldown)
    {
      failed := false;
      ghost var g := Now(false);
      var candidates: seq<Record> := [];
      for i := 0 to |records|
        invariant Now(false) == g
        invariant candidates == Candidates(g, records[..i], mode, now, cooldown)
      {
        assert records[..i + 1][..i] == records[..i];
        if !Cooling(hostLastKillAt, records[i].hostname, now, cooldown) && Offence(records[i], mode).Some? {
          candidates := candidates + [records[i]];
        }
      }
      assert records[..|records|] == records;
      if candidates != [] {
        failed := RequestTaskKill(candidates[ArgMax(Offences(candidates, mode))], now, answers);
      }
    }
  }

  /** Once a request has raised, the rest of the pass does nothing. */
  lemma {:induction false} FailedStays(g: Guard, records: seq<Record>, n: nat, m: nat, threshold: real, now: real,
                                       cooldown: real, answers: string -> KillAnswer)
    requires n <= m <= |Hosts(records)| && HostPass(g, records, n, threshold, now, cooldown, answers).failed
    ensures HostPass(g, records, m, threshold, now, cooldown, answers) == HostPass(g, records, n, threshold, now, cooldown, answers)
    decreases m - n
  {
    hide Hosts, OnHost;
    if n < m {
      FailedStays(g, records, n, m - 1, threshold, now, cooldown, answers);
      HostOccupied(records, Hosts(records)[m - 1]);
    }
  }
}
