/** What a result report means for the rest of a run. */
module SupervisorReports {
  import opened Wrappers
  import opened SupervisorModel
  import opened SupervisorMeaning
  import opened SupervisorRuns
  import opened SupervisorRecovery

  // ---------- local detection ----------

  /** A detection report frees exactly the one uninstalled config of that program on that host. */
  lemma DetectsTheOnlyMatch(s: State, r: Report, id: int, other: int)
    requires s.TablesOk() && DetectsOne(s, r, id)
    ensures id in s.configs.rows && Detectable(r.host, r.detected.value, s.configs.rows[id])
    ensures other in s.configs.rows && other != id ==> !Detectable(r.host, r.detected.value, s.configs.rows[other])
    ensures ReportState(s, r).0 ==
      WithConfig(s, id, s.configs.rows[id].(installed := true, installing := false, dispatchedAt := None))
  {
    MatchesAre(r.host, r.detected.value, s.configs.rows, s.configs.order, id);
    MatchesAre(r.host, r.detected.value, s.configs.rows, s.configs.order, other);
    assert id in [id];
    var ids := Matches(r.host, r.detected.value, s.configs.rows, s.configs.order);
    assert ids[0] == id;
  }

  // ---------- after a report about an install ----------

  /** A report about this very install that the server accepts. */
  ghost predicate ReportsInstall(e: Event, id: int) {
    && id in e.pre.configs.rows && e.step.CommandResult? && id != 0
    && e.step.report.id == id && e.step.report.kind == INSTALL_CONFIG
    && Accepts(e.pre, e.step.report.host) && e.pre.configs.rows[id].host == e.step.report.host
  }

  /** Handed out once and not in progress: neither pending nor stuck. */
  ghost predicate Parked(s: State, id: int) {
    id in s.configs.rows && !s.configs.rows[id].installing && s.configs.rows[id].dispatchedAt.Some?
  }

  /** The daemon says that it is working on the install after all, or that the program is there. */
  ghost predicate Unparks(e: Event, id: int) {
    id in e.pre.configs.rows &&
    match e.step
    case Heartbeat(b) => b.host == e.pre.configs.rows[id].host && Accepts(e.pre, b.host) && Keeps(b.executing, id, true)
    case CommandResult(r) => DetectsOne(e.pre, r, id)
    case _ => false
  }

  lemma BeatKeepsParked(s: State, b: Beat, now: int, id: int)
    requires s.TablesOk() && Accepts(s, b.host) && Parked(s, id)
    requires s.configs.rows[id].host == b.host ==> !Keeps(b.executing, id, true)
    ensures Parked(BeatState(s, b, now), id) && Count(BeatCommands(s, b, now), InstallWork, id) == 0
  {
    BeatHandsOut(s, b, now, InstallWork, id);
  }

  lemma ParkedStep(e: Event, id: int)
    requires Happens(e) && Parked(e.pre, id)
    ensures !Unparks(e, id) ==> Parked(e.post, id)
    ensures !HandsOut(e, InstallWork, id)
  {
    HandsOutWhatIsOnOffer(e, InstallWork, id);
    match e.step
    case Heartbeat(b) =>
      if Accepts(e.pre, b.host) && !Unparks(e, id) {
        BeatKeepsParked(e.pre, b, e.now, id);
      }
    case _ =>
  }

  lemma ReportParks(tr: seq<Event>, id: int, i: nat)
    requires IsRun(tr) && i < |tr| && ReportsInstall(tr[i], id)
    requires tr[i].pre.configs.rows[id].dispatchedAt.Some?
    ensures Parked(tr[i].post, id)
  {
    EventHappens(tr, i);
  }

  /**
   A report, of success or of failure, never makes an install eligible by itself, and offline
   recovery does not either: before the next hand-out the daemon must have listed the install
   as executing again, or have detected the program.
   */
  lemma ReportedInstallNotReissued(tr: seq<Event>, id: int, i: nat, j: nat)
    requires IsRun(tr) && i < j < |tr|
    requires ReportsInstall(tr[i], id) && tr[i].pre.configs.rows[id].dispatchedAt.Some?
    requires HandsOut(tr[j], InstallWork, id)
    ensures exists k :: i < k < j && Unparks(tr[k], id)
  {
    if forall k :: i < k < j ==> !Unparks(tr[k], id) {
      ReportParks(tr, id, i);
      forall k | i < k < j && Parked(tr[k].pre, id) ensures Parked(tr[k].post, id) {
        EventHappens(tr, k);
        ParkedStep(tr[k], id);
      }
      LastsUntil(tr, s => Parked(s, id), i + 1, j);
      EventHappens(tr, j);
      ParkedStep(tr[j], id);
      assert false;
    }
  }

  // ---------- after an install succeeded ----------

  ghost predicate Installed(s: State, id: int) {
    id in s.configs.rows && s.configs.rows[id].installed
  }

  /** The daemon reports programs, but not this one; or it reports that the install did not succeed. */
  ghost predicate Uninstalls(e: Event, id: int) {
    id in e.pre.configs.rows &&
    match e.step
    case Heartbeat(b) =>
      && b.host == e.pre.configs.rows[id].host && Accepts(e.pre, b.host)
      && Reported(b.programs) != {} && e.pre.configs.rows[id].program !in Reported(b.programs)
    case CommandResult(r) => ReportsInstall(e, id) && r.status != SUCCESS
    case _ => false
  }

  lemma BeatKeepsInstalled(s: State, b: Beat, now: int, id: int)
    requires s.TablesOk() && Accepts(s, b.host) && Installed(s, id)
    requires b.host == s.configs.rows[id].host && Reported(b.programs) != {} ==>
      s.configs.rows[id].program in Reported(b.programs)
    ensures Installed(BeatState(s, b, now), id) && Count(BeatCommands(s, b, now), InstallWork, id) == 0
  {
    BeatHandsOut(s, b, now, InstallWork, id);
  }

  lemma InstalledStep(e: Event, id: int)
    requires Happens(e)
    ensures Installed(e.pre, id) && !Uninstalls(e, id) ==> Installed(e.post, id) && !HandsOut(e, InstallWork, id)
    ensures ReportsInstall(e, id) ==> (Installed(e.post, id) <==> e.step.report.status == SUCCESS)
  {
    HandsOutWhatIsOnOffer(e, InstallWork, id);
    if Installed(e.pre, id) && !Uninstalls(e, id) && e.step.Heartbeat? && Accepts(e.pre, e.step.beat.host) {
      BeatKeepsInstalled(e.pre, e.step.beat, e.now, id);
    }
  }

  /** After a success report a config is handed out again only once the daemon has stopped reporting the program. */
  lemma SucceededInstallNotReissued(tr: seq<Event>, id: int, i: nat, j: nat)
    requires IsRun(tr) && i < j < |tr|
    requires ReportsInstall(tr[i], id) && tr[i].step.report.status == SUCCESS
    requires HandsOut(tr[j], InstallWork, id)
    ensures exists k :: i < k <= j && Uninstalls(tr[k], id)
  {
    if forall k :: i < k <= j ==> !Uninstalls(tr[k], id) {
      EventHappens(tr, i);
      InstalledStep(tr[i], id);
      forall k | i < k < j && Installed(tr[k].pre, id) ensures Installed(tr[k].post, id) {
        EventHappens(tr, k);
        InstalledStep(tr[k], id);
      }
      LastsUntil(tr, s => Installed(s, id), i + 1, j);
      EventHappens(tr, j);
      InstalledStep(tr[j], id);
      assert false;
    }
  }

  // ---------- a command put back to pending ----------

  /** No result is recorded for the command. */
  ghost predicate CommandOpen(s: State, h: HostId, id: int) {
    id in s.commands.rows && s.commands.rows[id].host == h && s.commands.rows[id].status == PENDING
  }

  lemma CommandOpenStep(e: Event, h: HostId, id: int)
    requires Happens(e) && CommandOpen(e.pre, h, id) && !ReportsCommand(e, id)
    ensures CommandOpen(e.post, h, id)
  {
    match e.step
    case Heartbeat(b) =>
      if Accepts(e.pre, b.host) {
        BeatKeepsOpen(e.pre, b, e.now, h, id);
      }
    case _ =>
  }

  lemma BeatKeepsOpen(s: State, b: Beat, now: int, h: HostId, id: int)
    requires Accepts(s, b.host) && CommandOpen(s, h, id)
    ensures CommandOpen(BeatState(s, b, now), h, id)
  {
    assert BeatState(s, b, now).commands.rows[id] ==
      BeatCommand(b, Recovers(s, b.host), now, BeatPrograms(s.programs, b, now), id, s.commands.rows[id]);
  }

  lemma OpenCommandSentAt(tr: seq<Event>, j: nat, id: int)
    requires IsRun(tr) && j < |tr| && tr[j].step.Heartbeat? && Recovers(tr[j].pre, tr[j].step.beat.host)
    requires CommandOpen(tr[j].pre, tr[j].step.beat.host, id)
    ensures tr[j].reply.Done?
    ensures var blocked := Blocked(tr[j].pre.commands.rows[id],
                                   BeatPrograms(tr[j].pre.programs, tr[j].step.beat, tr[j].now));
      Count(tr[j].reply.commands, CommandWork, id) ==
      if Keeps(tr[j].step.beat.executing, id, false) || blocked then 0 else 1
  {
    EventHappens(tr, j);
    StuckCommandResent(tr[j].pre, tr[j].step.beat, tr[j].now, id);
  }

  /**
   A report of status 0 reopens a command, whatever result was recorded before: as long as no
   further result is reported, a recovery heartbeat of the host hands it out exactly once unless
   it is executing or held back.
   */
  lemma TakenBackCommandReissued(tr: seq<Event>, id: int, i: nat, j: nat)
    requires IsRun(tr) && i < j < |tr| && TakesBack(tr[i], id)
    requires forall k :: i < k < j ==> !ReportsCommand(tr[k], id)
    requires tr[j].step.Heartbeat? && tr[j].step.beat.host == tr[i].step.report.host
    requires Recovers(tr[j].pre, tr[j].step.beat.host)
    ensures tr[j].reply.Done? && id in tr[j].pre.commands.rows
    ensures var blocked := Blocked(tr[j].pre.commands.rows[id],
                                   BeatPrograms(tr[j].pre.programs, tr[j].step.beat, tr[j].now));
      Count(tr[j].reply.commands, CommandWork, id) ==
      if Keeps(tr[j].step.beat.executing, id, false) || blocked then 0 else 1
  {
    EventHappens(tr, i);
    var h := tr[i].step.report.host;
    forall k | i < k < j && CommandOpen(tr[k].pre, h, id) ensures CommandOpen(tr[k].post, h, id) {
      EventHappens(tr, k);
      CommandOpenStep(tr[k], h, id);
    }
    LastsUntil(tr, s => CommandOpen(s, h, id), i + 1, j);
    OpenCommandSentAt(tr, j, id);
  }

  // ---------- a lost command ----------

  /** Handed out, no result yet, and not held back. */
  ghost predicate CommandInFlight(s: State, h: HostId, id: int) {
    id in s.commands.rows &&
    var k := s.commands.rows[id];
    k.host == h && k.status == PENDING && k.dispatched && !Blocked(k, s.programs)
  }

  lemma BeatKeepsPrograms(s: State, b: Beat, now: int, key: (HostId, string))
    requires Accepts(s, b.host) && key in s.programs
    ensures key in BeatState(s, b, now).programs
  {
    ProgramsAfterBeat(s.programs, b, now, key);
  }

  lemma BeatKeepsCommandInFlight(s: State, b: Beat, now: int, h: HostId, id: int)
    requires Accepts(s, b.host) && CommandInFlight(s, h, id)
    ensures CommandInFlight(BeatState(s, b, now), h, id)
  {
    var k := s.commands.rows[id];
    if NeedsProgram(k.action) {
      BeatKeepsPrograms(s, b, now, (k.host, k.program));
    }
    assert BeatState(s, b, now).commands.rows[id] ==
      BeatCommand(b, Recovers(s, b.host), now, BeatPrograms(s.programs, b, now), id, k);
  }

  lemma CommandInFlightStep(e: Event, h: HostId, id: int)
    requires Happens(e) && CommandInFlight(e.pre, h, id) && !ReportsCommand(e, id)
    ensures CommandInFlight(e.post, h, id)
  {
    if e.step.Heartbeat? && Accepts(e.pre, e.step.beat.host) {
      BeatKeepsCommandInFlight(e.pre, e.step.beat, e.now, h, id);
    }
  }

  lemma HandOutPutsCommandInFlight(tr: seq<Event>, i: nat, id: int)
    requires IsRun(tr) && i < |tr| && HandsOut(tr[i], CommandWork, id)
    ensures tr[i].step.Heartbeat? && CommandInFlight(tr[i].post, tr[i].step.beat.host, id)
  {
    EventHappens(tr, i);
    HandsOutWhatIsOnOffer(tr[i], CommandWork, id);
  }

  lemma CommandResentAt(tr: seq<Event>, j: nat, id: int)
    requires IsRun(tr) && j < |tr| && tr[j].step.Heartbeat? && Recovers(tr[j].pre, tr[j].step.beat.host)
    requires CommandInFlight(tr[j].pre, tr[j].step.beat.host, id)
    ensures tr[j].reply.Done?
    ensures Count(tr[j].reply.commands, CommandWork, id) ==
            if Keeps(tr[j].step.beat.executing, id, false) then 0 else 1
  {
    var s, b := tr[j].pre, tr[j].step.beat;
    var k := s.commands.rows[id];
    if NeedsProgram(k.action) {
      BeatKeepsPrograms(s, b, tr[j].now, (k.host, k.program));
    }
    OpenCommandSentAt(tr, j, id);
  }

  /**
   However long ago a command was handed out, if no result was reported since, a recovery
   heartbeat of the host sends it again exactly once or is told it is executing.
   */
  lemma LostCommandResent(tr: seq<Event>, id: int, i: nat, j: nat)
    requires IsRun(tr) && i < j < |tr|
    requires HandsOut(tr[i], CommandWork, id)
    requires forall k :: i < k < j ==> !ReportsCommand(tr[k], id)
    requires tr[i].step.Heartbeat? && tr[j].step.Heartbeat? && tr[j].step.beat.host == tr[i].step.beat.host
    requires Recovers(tr[j].pre, tr[j].step.beat.host)
    ensures tr[j].reply.Done?
    ensures Count(tr[j].reply.commands, CommandWork, id) ==
            if Keeps(tr[j].step.beat.executing, id, false) then 0 else 1
  {
    HandOutPutsCommandInFlight(tr, i, id);
    var h := tr[i].step.beat.host;
    forall k | i < k < j && CommandInFlight(tr[k].pre, h, id) ensures CommandInFlight(tr[k].post, h, id) {
      EventHappens(tr, k);
      CommandInFlightStep(tr[k], h, id);
    }
    LastsUntil(tr, s => CommandInFlight(s, h, id), i + 1, j);
    CommandResentAt(tr, j, id);
  }
}
