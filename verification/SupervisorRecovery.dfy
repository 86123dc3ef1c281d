/**
 What the supervisor protocol guarantees across outages, between the columns of a
 row, when a heartbeat is repeated, and for the managed-program table.
 */
module SupervisorRecovery {
  import opened Wrappers
  import opened SupervisorModel
  import opened SupervisorMeaning
  import opened SupervisorRuns

  // ---------- nothing is lost across an outage ----------

  /**
   A recovery heartbeat and one stuck install: either the daemon says it is working on it
   and it is not sent, or it is sent exactly once.  The config may have become uninstalled
   only in this heartbeat, between the two resets.
   */
  lemma StuckInstallResent(s: State, b: Beat, now: int, id: int)
    requires s.TablesOk() && Recovers(s, b.host)
    requires id in s.configs.rows
    requires var c := s.configs.rows[id];
      && c.host == b.host && c.enabled && c.installing
      && !SyncConfig(b.host, Reported(b.programs), c).installed
    ensures Count(BeatCommands(s, b, now), InstallWork, id) == if Keeps(b.executing, id, true) then 0 else 1
    ensures var c' := BeatState(s, b, now).configs.rows[id];
      c'.installing && !c'.installed && c'.dispatchedAt == Some(now)
  {
    BeatHandsOut(s, b, now, InstallWork, id);
  }

  /**
   Exactly which installs recovery sends, of those that are enabled and uninstalled once the
   reported programs are compared: the ones the daemon is not executing and that were stuck or
   never handed out.  An install that was handed out and then reported as failed is neither.
   */
  lemma RecoverySendsInstallIff(s: State, b: Beat, now: int, id: int)
    requires s.TablesOk() && Recovers(s, b.host)
    requires id in s.configs.rows
    requires var c := s.configs.rows[id];
      c.host == b.host && c.enabled && !SyncConfig(b.host, Reported(b.programs), c).installed
    ensures Count(BeatCommands(s, b, now), InstallWork, id) ==
      if !Keeps(b.executing, id, true) && (s.configs.rows[id].installing || s.configs.rows[id].dispatchedAt.None?)
      then 1 else 0
  {
    BeatHandsOut(s, b, now, InstallWork, id);
  }

  /** The same for commands; a held-back command is not sent and stays pending. */
  lemma StuckCommandResent(s: State, b: Beat, now: int, id: int)
    requires s.TablesOk() && Recovers(s, b.host)
    requires id in s.commands.rows
    requires s.commands.rows[id].host == b.host && s.commands.rows[id].status == PENDING
    ensures var blocked := Blocked(s.commands.rows[id], BeatPrograms(s.programs, b, now));
      && Count(BeatCommands(s, b, now), CommandWork, id) ==
           (if Keeps(b.executing, id, false) || blocked then 0 else 1)
      && CommandPending(b.host, BeatState(s, b, now).commands.rows[id]) ==
           (blocked && !Keeps(b.executing, id, false))
  {
    BeatHandsOut(s, b, now, CommandWork, id);
    RecoveredCommand(b, now, BeatPrograms(s.programs, b, now), id, s.commands.rows[id]);
  }

  lemma RecoveredCommand(b: Beat, now: int, programs: map<(HostId, string), Program>, id: int, k: ProgramCommand)
    requires k.host == b.host && k.status == PENDING
    ensures var settled := SettledCommand(b, true, now, id, k);
      && CommandPending(b.host, settled) == !Keeps(b.executing, id, false)
      && Blocked(settled, programs) == Blocked(k, programs)
      && CommandPending(b.host, BeatCommand(b, true, now, programs, id, k)) ==
         (Blocked(k, programs) && !Keeps(b.executing, id, false))
  {
  }

  ghost predicate IsBeatOf(step: Step, h: HostId) {
    step.Heartbeat? && step.beat.host == h
  }

  /** A heartbeat of the host that the server does not refuse. */
  ghost predicate AcceptsBeatOf(e: Event, h: HostId) {
    IsBeatOf(e.step, h) && Accepts(e.pre, h)
  }

  ghost predicate Offline(s: State, h: HostId) {
    h in s.hosts && s.hosts[h].online != ONLINE
  }

  lemma OfflineStep(e: Event, h: HostId)
    requires Happens(e) && Offline(e.pre, h) && !AcceptsBeatOf(e, h)
    ensures Offline(e.post, h)
  {
  }

  lemma SweepTakesOffline(tr: seq<Event>, h: HostId, i: nat)
    requires IsRun(tr) && i < |tr|
    requires tr[i].step.TimeoutSweep? && h in tr[i].pre.hosts && TimedOut(tr[i].pre.hosts[h], tr[i].now)
    ensures Offline(tr[i].post, h)
  {
    EventHappens(tr, i);
  }

  lemma StuckInstallResentAt(tr: seq<Event>, j: nat, id: int)
    requires IsRun(tr) && j < |tr| && tr[j].step.Heartbeat? && Recovers(tr[j].pre, tr[j].step.beat.host)
    requires id in tr[j].pre.configs.rows
    requires var c, b := tr[j].pre.configs.rows[id], tr[j].step.beat;
      c.host == b.host && c.enabled && c.installing && !SyncConfig(b.host, Reported(b.programs), c).installed
    ensures tr[j].reply.Done?
    ensures Count(tr[j].reply.commands, InstallWork, id) ==
            if Keeps(tr[j].step.beat.executing, id, true) then 0 else 1
  {
    EventHappens(tr, j);
    StuckInstallResent(tr[j].pre, tr[j].step.beat, tr[j].now, id);
  }

  /**
   After a sweep has timed a host out, its next accepted heartbeat is a recovery: every
   stuck install of the host is then resent exactly once unless the daemon is executing it.
   */
  lemma OutageRecovered(tr: seq<Event>, h: HostId, i: nat, j: nat, id: int)
    requires IsRun(tr) && i < j < |tr|
    requires tr[i].step.TimeoutSweep? && h in tr[i].pre.hosts && TimedOut(tr[i].pre.hosts[h], tr[i].now)
    requires forall k :: i < k < j ==> !AcceptsBeatOf(tr[k], h)
    requires AcceptsBeatOf(tr[j], h)
    requires id in tr[j].pre.configs.rows
    requires var c := tr[j].pre.configs.rows[id];
      && c.host == h && c.enabled && c.installing
      && !SyncConfig(h, Reported(tr[j].step.beat.programs), c).installed
    ensures tr[j].reply.Done?
    ensures Count(tr[j].reply.commands, InstallWork, id) ==
            if Keeps(tr[j].step.beat.executing, id, true) then 0 else 1
  {
    SweepTakesOffline(tr, h, i);
    forall k | i < k < j && Offline(tr[k].pre, h) ensures Offline(tr[k].post, h) {
      EventHappens(tr, k);
      OfflineStep(tr[k], h);
    }
    LastsUntil(tr, s => Offline(s, h), i + 1, j);
    StuckInstallResentAt(tr, j, id);
  }

  ghost predicate InFlight(s: State, h: HostId, id: int) {
    id in s.configs.rows &&
    var c := s.configs.rows[id];
    c.host == h && c.enabled && c.installing && !c.installed
  }

  /** The steps that settle or withdraw an install that is in flight. */
  ghost predicate ConcernsInstall(e: Event, id: int) {
    match e.step
    case CommandResult(r) => (r.kind == INSTALL_CONFIG && r.id == id) || DetectsOne(e.pre, r, id)
    case SetEnabled(x, _) => x == id
    case _ => false
  }

  lemma BeatKeepsInFlight(s: State, b: Beat, now: int, h: HostId, id: int)
    requires Accepts(s, b.host) && InFlight(s, h, id)
    ensures InFlight(BeatState(s, b, now), h, id)
  {
    var c := s.configs.rows[id];
    assert BeatState(s, b, now).configs.rows[id] == BeatConfig(b, Recovers(s, b.host), now, id, c);
  }

  lemma DetectionKeepsInFlight(s: State, r: Report, h: HostId, id: int)
    requires InFlight(s, h, id) && r.detected.Some?
    requires Matches(r.host, r.detected.value, s.configs.rows, s.configs.order) != [id]
    ensures InFlight(DetectState(s, r.host, r.detected.value).0, h, id)
  {
    var ids := Matches(r.host, r.detected.value, s.configs.rows, s.configs.order);
    assert |ids| == 1 ==> ids == [ids[0]];
  }

  lemma InFlightStep(e: Event, h: HostId, id: int)
    requires Happens(e) && InFlight(e.pre, h, id) && !ConcernsInstall(e, id)
    ensures InFlight(e.post, h, id)
  {
    match e.step
    case Heartbeat(b) =>
      if Accepts(e.pre, b.host) {
        BeatKeepsInFlight(e.pre, b, e.now, h, id);
      }
    case CommandResult(r) =>
      if Accepts(e.pre, r.host) && r.kind == INSTALL_CONFIG && r.id == 0 && r.detected.Some? {
        DetectionKeepsInFlight(e.pre, r, h, id);
      }
    case _ =>
  }

  lemma HandOutPutsInFlight(tr: seq<Event>, i: nat, id: int)
    requires IsRun(tr) && i < |tr| && HandsOut(tr[i], InstallWork, id)
    ensures tr[i].step.Heartbeat? && InFlight(tr[i].post, tr[i].step.beat.host, id)
  {
    EventHappens(tr, i);
    HandsOutWhatIsOnOffer(tr[i], InstallWork, id);
  }

  /**
   However long ago an install was handed out, if nothing was reported about it since, a
   recovery heartbeat of the host sends it again exactly once or is told it is executing.
   */
  lemma LostInstallResent(tr: seq<Event>, id: int, i: nat, j: nat)
    requires IsRun(tr) && i < j < |tr|
    requires HandsOut(tr[i], InstallWork, id)
    requires forall k :: i < k < j ==> !ConcernsInstall(tr[k], id)
    requires tr[i].step.Heartbeat? && IsBeatOf(tr[j].step, tr[i].step.beat.host)
    requires Recovers(tr[j].pre, tr[j].step.beat.host)
    ensures tr[j].reply.Done?
    ensures Count(tr[j].reply.commands, InstallWork, id) ==
            if Keeps(tr[j].step.beat.executing, id, true) then 0 else 1
  {
    HandOutPutsInFlight(tr, i, id);
    var h := tr[i].step.beat.host;
    forall k | i < k < j && InFlight(tr[k].pre, h, id) ensures InFlight(tr[k].post, h, id) {
      EventHappens(tr, k);
      InFlightStep(tr[k], h, id);
    }
    LastsUntil(tr, s => InFlight(s, h, id), i + 1, j);
    StuckInstallResentAt(tr, j, id);
  }

  // ---------- the columns of a row agree ----------

  ghost predicate Coupled(s: State) {
    && (forall id :: id in s.configs.rows ==> s.configs.rows[id].installing ==> s.configs.rows[id].dispatchedAt.Some?)
    && (forall id :: id in s.commands.rows ==>
          (s.commands.rows[id].dispatched <==> s.commands.rows[id].dispatchedAt.Some?))
    && (forall id :: id in s.logs.rows ==> (s.logs.rows[id].dispatched <==> s.logs.rows[id].dispatchedAt.Some?))
  }

  lemma BeatKeepsCoupled(s: State, b: Beat, now: int)
    requires Accepts(s, b.host) && Coupled(s)
    ensures Coupled(BeatState(s, b, now))
  {
  }

  lemma ReportKeepsCoupled(s: State, r: Report)
    requires Coupled(s)
    ensures Coupled(ReportState(s, r).0)
  {
  }

  lemma CoupledStep(e: Event)
    requires Happens(e) && Coupled(e.pre)
    ensures Coupled(e.post)
  {
    match e.step
    case Heartbeat(b) =>
      if Accepts(e.pre, b.host) {
        BeatKeepsCoupled(e.pre, b, e.now);
      }
    case CommandResult(r) => ReportKeepsCoupled(e.pre, r);
    case _ =>
  }

  /** In every run from an agreeing state, such as the empty one, the columns always agree. */
  lemma {:induction false} CoupledThroughout(tr: seq<Event>)
    requires IsRun(tr) && tr != [] && Coupled(tr[0].pre)
    ensures Coupled(tr[|tr| - 1].post)
  {
    var init, e := tr[..|tr| - 1], tr[|tr| - 1];
    EventHappens(tr, |tr| - 1);
    if init != [] {
      CoupledThroughout(init);
      assert e.pre == init[|init| - 1].post;
    }
    CoupledStep(e);
  }

  // ---------- a repeated heartbeat ----------

  function Untime(t: Option<int>): Option<int> { if t.Some? then Some(0) else None }

  function UntimedHosts(hosts: map<HostId, Host>): map<HostId, Host> {
    map h | h in hosts :: hosts[h].(lastHeartbeat := Untime(hosts[h].lastHeartbeat))
  }

  function UntimedPrograms(programs: map<(HostId, string), Program>): map<(HostId, string), Program> {
    map key | key in programs :: programs[key].(lastHeartbeat := Untime(programs[key].lastHeartbeat))
  }

  function UntimedConfigs(t: Table<InstallConfig>): Table<InstallConfig> {
    Table(map id | id in t.rows :: t.rows[id].(dispatchedAt := Untime(t.rows[id].dispatchedAt)), t.order)
  }

  function UntimedCommands(t: Table<ProgramCommand>): Table<ProgramCommand> {
    Table(map id | id in t.rows :: t.rows[id].(dispatchedAt := Untime(t.rows[id].dispatchedAt)), t.order)
  }

  function UntimedLogs(t: Table<LogCommand>): Table<LogCommand> {
    Table(map id | id in t.rows :: t.rows[id].(dispatchedAt := Untime(t.rows[id].dispatchedAt)), t.order)
  }

  /** A state with every timestamp replaced by whether it is set. */
  function Untimed(s: State): State {
    State(UntimedHosts(s.hosts), UntimedPrograms(s.programs), UntimedConfigs(s.configs),
          UntimedCommands(s.commands), UntimedLogs(s.logs))
  }

  lemma {:induction false} NothingListed(order: seq<int>)
    ensures Listed(order, map[]) == []
  {
    if order != [] {
      NothingListed(order[..|order| - 1]);
    }
  }

  lemma ConfigRepeat(b: Beat, rec: bool, n1: int, n2: int, id: int, c: InstallConfig)
    ensures var c1 := BeatConfig(b, rec, n1, id, c);
      var c2 := BeatConfig(b, false, n2, id, c1);
      && !InstallPending(b.host, SettledConfig(b, false, n2, id, c1))
      && c2.(dispatchedAt := Untime(c2.dispatchedAt)) == c1.(dispatchedAt := Untime(c1.dispatchedAt))
  {
  }

  lemma CommandRepeat(b: Beat, rec: bool, n1: int, n2: int, p1: map<(HostId, string), Program>,
                      p2: map<(HostId, string), Program>, id: int, k: ProgramCommand)
    requires p2.Keys == p1.Keys
    ensures var k1 := BeatCommand(b, rec, n1, p1, id, k);
      var s1 := SettledCommand(b, false, n2, id, k1);
      var k2 := BeatCommand(b, false, n2, p2, id, k1);
      && (CommandPending(b.host, s1) ==> Blocked(s1, p2))
      && k2.(dispatchedAt := Untime(k2.dispatchedAt)) == k1.(dispatchedAt := Untime(k1.dispatchedAt))
  {
  }

  lemma ProgramsRepeat(s: State, b: Beat, n1: int, n2: int, key: (HostId, string))
    requires Accepts(s, b.host)
    ensures var p1 := BeatPrograms(s.programs, b, n1);
      var p2 := BeatPrograms(p1, b, n2);
      && (key in p1 <==> key in p2)
      && (key in p1 ==>
            p2[key].(lastHeartbeat := Untime(p2[key].lastHeartbeat)) ==
            p1[key].(lastHeartbeat := Untime(p1[key].lastHeartbeat)))
  {
    ProgramsAfterBeat(s.programs, b, n1, key);
    ProgramsAfterBeat(BeatPrograms(s.programs, b, n1), b, n2, key);
  }

  /** Repeating a heartbeat hands out nothing and changes nothing but timestamps. */
  lemma Quiescent(s: State, b: Beat, n1: int, n2: int)
    requires Accepts(s, b.host)
    ensures var s1 := BeatState(s, b, n1);
      && Accepts(s1, b.host)
      && BeatCommands(s1, b, n2) == []
      && Untimed(BeatState(s1, b, n2)) == Untimed(s1)
  {
    var s1 := BeatState(s, b, n1);
    QuietOffers(s, b, n1, n2);
    NothingListed(s1.configs.order);
    NothingListed(s1.commands.order);
    NothingListed(s1.logs.order);
    QuietRows(s, b, n1, n2);
  }

  lemma QuietOffers(s: State, b: Beat, n1: int, n2: int)
    requires Accepts(s, b.host)
    ensures var s1 := BeatState(s, b, n1);
      && Installs(b.host, SettledConfigs(s1, b, n2)) == map[]
      && Runs(b.host, SettledCommands(s1, b, n2), BeatPrograms(s1.programs, b, n2)) == map[]
      && Collects(b.host, s1.logs.rows) == map[]
  {
    var s1 := BeatState(s, b, n1);
    var p2 := BeatPrograms(s1.programs, b, n2);
    forall key ensures key in s1.programs <==> key in p2 {
      ProgramsRepeat(s, b, n1, n2, key);
    }
    forall id | id in s.configs.rows ensures !InstallPending(b.host, SettledConfigs(s1, b, n2)[id]) {
      ConfigRepeat(b, Recovers(s, b.host), n1, n2, id, s.configs.rows[id]);
    }
    forall id | id in s.commands.rows
      ensures var k := SettledCommands(s1, b, n2)[id]; CommandPending(b.host, k) ==> Blocked(k, p2)
    {
      CommandRepeat(b, Recovers(s, b.host), n1, n2, s1.programs, p2, id, s.commands.rows[id]);
    }
  }

  lemma QuietPrograms(s: State, b: Beat, n1: int, n2: int)
    requires Accepts(s, b.host)
    ensures var p1 := BeatPrograms(s.programs, b, n1);
      var p2 := BeatPrograms(p1, b, n2);
      p2.Keys == p1.Keys && UntimedPrograms(p2) == UntimedPrograms(p1)
  {
    var p1 := BeatPrograms(s.programs, b, n1);
    var p2 := BeatPrograms(p1, b, n2);
    forall key
      ensures key in p1 <==> key in p2
      ensures key in p1 ==> UntimedPrograms(p1)[key] == UntimedPrograms(p2)[key]
    {
      ProgramsRepeat(s, b, n1, n2, key);
    }
  }

  lemma QuietConfigs(s: State, b: Beat, n1: int, n2: int)
    requires Accepts(s, b.host)
    ensures var s1 := BeatState(s, b, n1);
      UntimedConfigs(BeatState(s1, b, n2).configs) == UntimedConfigs(s1.configs)
  {
    var s1 := BeatState(s, b, n1);
    var u1, u2 := UntimedConfigs(s1.configs).rows, UntimedConfigs(BeatState(s1, b, n2).configs).rows;
    forall id | id in s.configs.rows ensures u1[id] == u2[id] {
      ConfigRepeat(b, Recovers(s, b.host), n1, n2, id, s.configs.rows[id]);
    }
    assert u1 == u2;
  }

  lemma QuietCommands(s: State, b: Beat, n1: int, n2: int)
    requires Accepts(s, b.host)
    ensures var s1 := BeatState(s, b, n1);
      UntimedCommands(BeatState(s1, b, n2).commands) == UntimedCommands(s1.commands)
  {
    var s1 := BeatState(s, b, n1);
    var s2 := BeatState(s1, b, n2);
    QuietPrograms(s, b, n1, n2);
    var u1, u2 := UntimedCommands(s1.commands).rows, UntimedCommands(s2.commands).rows;
    forall id | id in s.commands.rows ensures u1[id] == u2[id] {
      CommandRepeat(b, Recovers(s, b.host), n1, n2, s1.programs, s2.programs, id, s.commands.rows[id]);
    }
    assert u1 == u2;
  }

  lemma LogRepeat(h: HostId, n1: int, n2: int, l: LogCommand)
    ensures MarkLog(h, n2, MarkLog(h, n1, l)) == MarkLog(h, n1, l)
  {
  }

  lemma QuietLogs(s: State, b: Beat, n1: int, n2: int)
    requires Accepts(s, b.host)
    ensures var s1 := BeatState(s, b, n1);
      BeatState(s1, b, n2).logs == s1.logs
  {
    var s1 := BeatState(s, b, n1);
    var r1, r2 := s1.logs.rows, BeatState(s1, b, n2).logs.rows;
    forall id | id in s.logs.rows ensures r2[id] == r1[id] {
      LogRepeat(b.host, n1, n2, s.logs.rows[id]);
    }
    assert r2 == r1;
  }

  lemma QuietHosts(s: State, b: Beat, n1: int, n2: int)
    requires Accepts(s, b.host)
    ensures var s1 := BeatState(s, b, n1);
      UntimedHosts(BeatState(s1, b, n2).hosts) == UntimedHosts(s1.hosts)
  {
    var h1 := s.hosts[b.host := s.hosts[b.host].(online := ONLINE, lastHeartbeat := Some(n1))];
    var h2 := h1[b.host := h1[b.host].(online := ONLINE, lastHeartbeat := Some(n2))];
    assert UntimedHosts(h2) == UntimedHosts(h1);
  }

  lemma QuietRows(s: State, b: Beat, n1: int, n2: int)
    requires Accepts(s, b.host)
    ensures var s1 := BeatState(s, b, n1);
      Untimed(BeatState(s1, b, n2)) == Untimed(s1)
  {
    var s1 := BeatState(s, b, n1);
    var s2 := BeatState(s1, b, n2);
    QuietHosts(s, b, n1, n2);
    QuietPrograms(s, b, n1, n2);
    QuietConfigs(s, b, n1, n2);
    QuietCommands(s, b, n1, n2);
    QuietLogs(s, b, n1, n2);
    UntimedEqual(s1, s2);
  }

  lemma UntimedEqual(s: State, t: State)
    requires UntimedHosts(s.hosts) == UntimedHosts(t.hosts)
    requires UntimedPrograms(s.programs) == UntimedPrograms(t.programs)
    requires UntimedConfigs(s.configs) == UntimedConfigs(t.configs)
    requires UntimedCommands(s.commands) == UntimedCommands(t.commands) && UntimedLogs(s.logs) == UntimedLogs(t.logs)
    ensures Untimed(s) == Untimed(t)
  {
  }
}
