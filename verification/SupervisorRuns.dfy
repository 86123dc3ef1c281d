/**
 Runs of the supervisor protocol: any interleaving of heartbeats, result reports,
 registrations, timeout sweeps and the creation of work, over any number of hosts.
 */
module SupervisorRuns {
  import opened Wrappers
  import opened SupervisorModel

  datatype Step =
    | Heartbeat(beat: Beat)
    | CommandResult(report: Report)
    | Register(host: HostId, autoApprove: bool)
    | Deregister(host: HostId)
    | TimeoutSweep
    | AddConfig(id: int, host: HostId, program: string, version: string, enabled: bool)
    | AddCommand(id: int, host: HostId, program: string, action: string, target: Option<string>)
    | AddLog(id: int, host: HostId, action: string)
    | SetEnabled(id: int, enabled: bool)
    | SetHostStatus(host: HostId, status: int)

  function Insert<R>(t: Table<R>, id: int, row: R): Table<R> {
    if id in t.rows then t else Table(t.rows[id := row], t.order + [id])
  }

  ghost function Apply(s: State, step: Step, now: int): (State, Reply) {
    match step
    case Heartbeat(b) =>
      if Accepts(s, b.host) then (BeatState(s, b, now), Done(BeatCommands(s, b, now))) else (s, Refused)
    case CommandResult(r) => ReportState(s, r)
    case Register(h, auto) => RegisterState(s, h, auto)
    case Deregister(h) => DeregisterState(s, h)
    case TimeoutSweep => (SweepState(s, now), Done([]))
    case AddConfig(id, h, program, version, enabled) =>
      (s.(configs := Insert(s.configs, id, InstallConfig(h, program, version, enabled, false, false, None))), Done([]))
    case AddCommand(id, h, program, action, target) =>
      (s.(commands := Insert(s.commands, id, ProgramCommand(h, program, action, target, PENDING, false, None))),
       Done([]))
    case AddLog(id, h, action) =>
      (s.(logs := Insert(s.logs, id, LogCommand(h, action, PENDING, false, None))), Done([]))
    case SetEnabled(id, enabled) =>
      if id in s.configs.rows then (WithConfig(s, id, s.configs.rows[id].(enabled := enabled)), Done([]))
      else (s, Refused)
    case SetHostStatus(h, status) =>
      if h in s.hosts then (s.(hosts := s.hosts[h := s.hosts[h].(status := status)]), Done([])) else (s, Refused)
  }

  datatype Event = Event(pre: State, step: Step, now: int, post: State, reply: Reply)

  ghost predicate Steps(e: Event) {
    (e.post, e.reply) == Apply(e.pre, e.step, e.now)
  }

  ghost predicate Happens(e: Event) {
    e.pre.TablesOk() && Steps(e)
  }

  /** Consecutive events, from any state whose tables are well formed. */
  ghost predicate IsRun(tr: seq<Event>) {
    && (tr != [] ==> tr[0].pre.TablesOk())
    && (forall i {:trigger Steps(tr[i])} :: 0 <= i < |tr| ==> Steps(tr[i]))
    && (forall i, j :: 0 <= i && j == i + 1 && j < |tr| ==> tr[j].pre == tr[i].post)
  }

  // ---------- what a reply contains ----------

  datatype Work = InstallWork | CommandWork | LogWork

  function WorkOf(d: Dispatch): Work {
    match d
    case Install(_, _, _) => InstallWork
    case Run(_, _, _, _) => CommandWork
    case CollectLogs(_, _) => LogWork
  }

  predicate Is(d: Dispatch, w: Work, id: int) {
    WorkOf(d) == w && d.id == id
  }

  /** How often a reply hands out one piece of work. */
  function Count(cmds: seq<Dispatch>, w: Work, id: int): nat {
    if cmds == [] then 0
    else Count(cmds[..|cmds| - 1], w, id) + if Is(cmds[|cmds| - 1], w, id) then 1 else 0
  }

  lemma {:induction false} CountConcat(x: seq<Dispatch>, y: seq<Dispatch>, w: Work, id: int)
    ensures Count(x + y, w, id) == Count(x, w, id) + Count(y, w, id)
  {
    if y == [] {
      assert x + y == x;
    } else {
      CountConcat(x, y[..|y| - 1], w, id);
      assert (x + y)[..|x + y| - 1] == x + y[..|y| - 1];
    }
  }

  ghost predicate Offers(offers: map<int, Dispatch>, w: Work) {
    forall id :: id in offers ==> Is(offers[id], w, id)
  }

  /** Work on offer is listed exactly once, and nothing else is listed. */
  lemma {:induction false} ListedExactlyOnce(order: seq<int>, offers: map<int, Dispatch>, w: Work, v: Work, id: int)
    requires forall i, j :: 0 <= i < j < |order| ==> order[i] != order[j]
    requires Offers(offers, w)
    ensures Count(Listed(order, offers), v, id) == if v == w && id in order && id in offers then 1 else 0
  {
    if order != [] {
      var init, last := order[..|order| - 1], order[|order| - 1];
      ListedExactlyOnce(init, offers, w, v, id);
      assert id in order <==> id in init || id == last by {
        assert order == init + [last];
      }
      assert last !in init;
      if last in offers {
        CountConcat(Listed(init, offers), [offers[last]], v, id);
        CountOne(offers[last], v, id);
      } else {
        assert Listed(order, offers) == Listed(init, offers);
      }
    }
  }

  lemma CountOne(d: Dispatch, w: Work, id: int)
    ensures Count([d], w, id) == if Is(d, w, id) then 1 else 0
  {
    assert [d][..0] == [];
  }

  ghost predicate OnOffer(s: State, b: Beat, now: int, w: Work, id: int)
    requires Accepts(s, b.host)
  {
    match w
    case InstallWork => id in s.configs.rows && InstallPending(b.host, SettledConfigs(s, b, now)[id])
    case CommandWork =>
      && id in s.commands.rows && CommandPending(b.host, SettledCommands(s, b, now)[id])
      && !Blocked(SettledCommands(s, b, now)[id], BeatPrograms(s.programs, b, now))
    case LogWork => id in s.logs.rows && LogPending(b.host, s.logs.rows[id])
  }

  /** A heartbeat hands out exactly the work on offer to that host, each piece once. */
  lemma BeatHandsOut(s: State, b: Beat, now: int, w: Work, id: int)
    requires Accepts(s, b.host) && s.TablesOk()
    ensures Count(BeatCommands(s, b, now), w, id) == if OnOffer(s, b, now, w, id) then 1 else 0
  {
    var i := Installs(b.host, SettledConfigs(s, b, now));
    var r := Runs(b.host, SettledCommands(s, b, now), BeatPrograms(s.programs, b, now));
    var c := Collects(b.host, s.logs.rows);
    ListedExactlyOnce(s.configs.order, i, InstallWork, w, id);
    ListedExactlyOnce(s.commands.order, r, CommandWork, w, id);
    ListedExactlyOnce(s.logs.order, c, LogWork, w, id);
    CountConcat(Listed(s.configs.order, i), Listed(s.commands.order, r), w, id);
    CountConcat(Listed(s.configs.order, i) + Listed(s.commands.order, r), Listed(s.logs.order, c), w, id);
  }

  ghost predicate HandsOut(e: Event, w: Work, id: int) {
    e.reply.Done? && Count(e.reply.commands, w, id) > 0
  }

  lemma HandsOutWhatIsOnOffer(e: Event, w: Work, id: int)
    requires Happens(e)
    ensures HandsOut(e, w, id) <==>
      e.step.Heartbeat? && Accepts(e.pre, e.step.beat.host) && OnOffer(e.pre, e.step.beat, e.now, w, id)
    ensures e.reply.Done? ==> Count(e.reply.commands, w, id) <= 1
  {
    if e.step.Heartbeat? && Accepts(e.pre, e.step.beat.host) {
      BeatHandsOut(e.pre, e.step.beat, e.now, w, id);
    }
  }

  ghost predicate KeepsTables(s: State, t: State) {
    && t.TablesOk()
    && s.configs.rows.Keys <= t.configs.rows.Keys
    && s.commands.rows.Keys <= t.commands.rows.Keys
    && s.logs.rows.Keys <= t.logs.rows.Keys
  }

  lemma BeatKeepsTables(s: State, b: Beat, now: int)
    requires s.TablesOk() && Accepts(s, b.host)
    ensures KeepsTables(s, BeatState(s, b, now))
  {
    var t := BeatState(s, b, now);
    assert t.configs.rows.Keys == s.configs.rows.Keys;
    assert t.commands.rows.Keys == s.commands.rows.Keys;
    assert t.logs.rows.Keys == s.logs.rows.Keys;
  }

  lemma ReportKeepsTables(s: State, r: Report)
    requires s.TablesOk()
    ensures KeepsTables(s, ReportState(s, r).0)
  {
    var t := ReportState(s, r).0;
    assert t.configs.rows.Keys == s.configs.rows.Keys;
    assert t.commands.rows.Keys == s.commands.rows.Keys;
  }

  /** Any step keeps the tables well formed and every row in its table. */
  lemma TablesKept(e: Event)
    requires Happens(e)
    ensures KeepsTables(e.pre, e.post)
  {
    match e.step
    case Heartbeat(b) =>
      if Accepts(e.pre, b.host) {
        BeatKeepsTables(e.pre, b, e.now);
      }
    case CommandResult(r) => ReportKeepsTables(e.pre, r);
    case AddConfig(id, h, p, v, en) =>
    case AddCommand(id, h, p, a, t) =>
    case AddLog(id, h, a) =>
    case SetEnabled(id, en) =>
      assert e.post.configs.rows.Keys == e.pre.configs.rows.Keys;
    case _ =>
  }

  /** The tables stay well formed throughout a run, so every event of it happens from such tables. */
  lemma {:induction false} EventHappens(tr: seq<Event>, m: nat)
    requires IsRun(tr) && m < |tr|
    ensures Happens(tr[m])
  {
    assert Steps(tr[m]);
    if m > 0 {
      EventHappens(tr, m - 1);
      TablesKept(tr[m - 1]);
    }
  }

  /** What holds after one event and is kept by every event since holds later on. */
  lemma {:induction false} LastsUntil(tr: seq<Event>, holds: State -> bool, i: nat, j: nat)
    requires IsRun(tr) && 0 < i <= j < |tr| && holds(tr[i - 1].post)
    requires forall k :: i <= k < j && holds(tr[k].pre) ==> holds(tr[k].post)
    ensures holds(tr[j].pre)
    decreases j - i
  {
    assert tr[i].pre == tr[i - 1].post;
    if i < j {
      LastsUntil(tr, holds, i + 1, j);
    }
  }

  /** A mark that a hand-out sets, that stops hand-outs, and that only a release takes away. */
  predicate MarkStep(before: bool, out: bool, free: bool, after: bool) {
    && (out ==> after)
    && (out ==> !before || free)
    && (before && !after ==> free)
  }

  // ---------- install configs ----------

  /** The two ways in which a config that was handed out can become free again. */
  ghost predicate ReleasesInstall(e: Event, id: int) {
    id in e.pre.configs.rows &&
    var c := e.pre.configs.rows[id];
    match e.step
    case Heartbeat(b) =>
      && c.host == b.host && Recovers(e.pre, b.host) && c.installing
      && !SyncConfig(b.host, Reported(b.programs), c).installed
    case CommandResult(r) => DetectsOne(e.pre, r, id)
    case _ => false
  }

  ghost predicate ConfigDispatched(s: State, id: int) {
    id in s.configs.rows && s.configs.rows[id].dispatchedAt.Some?
  }

  lemma BeatConfigMark(b: Beat, rec: bool, now: int, id: int, c: InstallConfig)
    ensures MarkStep(c.dispatchedAt.Some?, InstallPending(b.host, SettledConfig(b, rec, now, id, c)),
                     c.host == b.host && rec && c.installing && !SyncConfig(b.host, Reported(b.programs), c).installed,
                     BeatConfig(b, rec, now, id, c).dispatchedAt.Some?)
  {
  }

  /** One step either hands the config out, frees it, or leaves the mark where it was. */
  lemma InstallStep(e: Event, id: int)
    requires Happens(e)
    ensures MarkStep(ConfigDispatched(e.pre, id), HandsOut(e, InstallWork, id), ReleasesInstall(e, id),
                     ConfigDispatched(e.post, id))
  {
    HandsOutWhatIsOnOffer(e, InstallWork, id);
    if id in e.pre.configs.rows {
      match e.step
      case Heartbeat(b) => BeatConfigMark(b, Recovers(e.pre, b.host), e.now, id, e.pre.configs.rows[id]);
      case _ =>
    }
  }

  function Bit(b: bool): nat { if b then 1 else 0 }

  ghost function HandOuts(tr: seq<Event>, w: Work, id: int): nat {
    if tr == [] then 0 else HandOuts(tr[..|tr| - 1], w, id) + Bit(HandsOut(tr[|tr| - 1], w, id))
  }

  ghost function InstallReleases(tr: seq<Event>, id: int): nat {
    if tr == [] then 0 else InstallReleases(tr[..|tr| - 1], id) + Bit(ReleasesInstall(tr[|tr| - 1], id))
  }

  /** The ledger of a config: every hand-out is paid for by a release or by the mark it sets. */
  lemma {:induction false} InstallLedger(tr: seq<Event>, id: int)
    requires IsRun(tr) && tr != []
    ensures HandOuts(tr, InstallWork, id) + Bit(ConfigDispatched(tr[0].pre, id)) <=
            InstallReleases(tr, id) + Bit(ConfigDispatched(tr[|tr| - 1].post, id))
  {
    var init, e := tr[..|tr| - 1], tr[|tr| - 1];
    EventHappens(tr, |tr| - 1);
    InstallStep(e, id);
    if init != [] {
      InstallLedger(init, id);
      assert e.pre == init[|init| - 1].post;
    }
  }

  /** Two hand-outs of the same config have a release between them. */
  lemma InstallHandOutsSeparated(tr: seq<Event>, id: int, i: nat, j: nat)
    requires IsRun(tr) && i < j < |tr|
    requires HandsOut(tr[i], InstallWork, id) && HandsOut(tr[j], InstallWork, id)
    ensures exists k :: i < k <= j && ReleasesInstall(tr[k], id)
  {
    if forall k :: i < k <= j ==> !ReleasesInstall(tr[k], id) {
      EventHappens(tr, i);
      InstallStep(tr[i], id);
      forall k | i < k < j && ConfigDispatched(tr[k].pre, id) ensures ConfigDispatched(tr[k].post, id) {
        EventHappens(tr, k);
        InstallStep(tr[k], id);
      }
      LastsUntil(tr, s => ConfigDispatched(s, id), i + 1, j);
      EventHappens(tr, j);
      InstallStep(tr[j], id);
      assert false;
    }
  }

  // ---------- program commands ----------

  ghost predicate ReleasesCommand(e: Event, id: int) {
    && id in e.pre.commands.rows && e.step.Heartbeat?
    && e.pre.commands.rows[id].host == e.step.beat.host && Recovers(e.pre, e.step.beat.host)
    && e.pre.commands.rows[id].status == PENDING && e.pre.commands.rows[id].dispatched
  }

  ghost predicate CommandDispatched(s: State, id: int) {
    id in s.commands.rows && s.commands.rows[id].dispatched
  }

  lemma CommandStep(e: Event, id: int)
    requires Happens(e)
    ensures MarkStep(CommandDispatched(e.pre, id), HandsOut(e, CommandWork, id), ReleasesCommand(e, id),
                     CommandDispatched(e.post, id))
    ensures HandsOut(e, CommandWork, id) ==> id in e.pre.commands.rows && !CommandFinished(e.pre, id)
  {
    HandsOutWhatIsOnOffer(e, CommandWork, id);
  }

  lemma CommandHandOutsSeparated(tr: seq<Event>, id: int, i: nat, j: nat)
    requires IsRun(tr) && i < j < |tr|
    requires HandsOut(tr[i], CommandWork, id) && HandsOut(tr[j], CommandWork, id)
    ensures exists k :: i < k <= j && ReleasesCommand(tr[k], id)
  {
    if forall k :: i < k <= j ==> !ReleasesCommand(tr[k], id) {
      EventHappens(tr, i);
      CommandStep(tr[i], id);
      forall k | i < k < j && CommandDispatched(tr[k].pre, id) ensures CommandDispatched(tr[k].post, id) {
        EventHappens(tr, k);
        CommandStep(tr[k], id);
      }
      LastsUntil(tr, s => CommandDispatched(s, id), i + 1, j);
      EventHappens(tr, j);
      CommandStep(tr[j], id);
      assert false;
    }
  }

  /** A report for this command that the server accepts. */
  ghost predicate ReportsCommand(e: Event, id: int) {
    && id in e.pre.commands.rows && e.step.CommandResult?
    && e.step.report.id == id && e.step.report.kind != INSTALL_CONFIG
    && Accepts(e.pre, e.step.report.host) && e.pre.commands.rows[id].host == e.step.report.host
  }

  ghost predicate CommandFinished(s: State, id: int) {
    id in s.commands.rows && s.commands.rows[id].status != PENDING
  }

  /** A report that puts a command back to "pending". */
  ghost predicate TakesBack(e: Event, id: int) {
    ReportsCommand(e, id) && e.step.report.status == PENDING
  }

  lemma FinishedStep(e: Event, id: int)
    requires Happens(e)
    ensures CommandFinished(e.pre, id) && !CommandFinished(e.post, id) ==> TakesBack(e, id)
    ensures ReportsCommand(e, id) && e.step.report.status != PENDING ==> CommandFinished(e.post, id)
  {
  }

  /** After a result other than "pending", only a report that takes it back allows another hand-out. */
  lemma FinishedCommandNotReissued(tr: seq<Event>, id: int, i: nat, j: nat)
    requires IsRun(tr) && i < j < |tr|
    requires ReportsCommand(tr[i], id) && tr[i].step.report.status != PENDING
    requires HandsOut(tr[j], CommandWork, id)
    ensures exists k :: i < k < j && TakesBack(tr[k], id)
  {
    if forall k :: i < k < j ==> !TakesBack(tr[k], id) {
      EventHappens(tr, i);
      FinishedStep(tr[i], id);
      forall k | i < k < j && CommandFinished(tr[k].pre, id) ensures CommandFinished(tr[k].post, id) {
        EventHappens(tr, k);
        FinishedStep(tr[k], id);
      }
      LastsUntil(tr, s => CommandFinished(s, id), i + 1, j);
      EventHappens(tr, j);
      CommandStep(tr[j], id);
      assert false;
    }
  }

  /** With results other than "pending" only, a command that was reported on is never handed out again. */
  lemma FinalResultsFinal(tr: seq<Event>, id: int, i: nat, j: nat)
    requires IsRun(tr) && i < j < |tr| && ReportsCommand(tr[i], id)
    requires forall k :: i <= k < j && ReportsCommand(tr[k], id) ==> tr[k].step.report.status != PENDING
    ensures !HandsOut(tr[j], CommandWork, id)
  {
    if HandsOut(tr[j], CommandWork, id) {
      FinishedCommandNotReissued(tr, id, i, j);
      assert false;
    }
  }

  // ---------- log commands ----------

  ghost predicate LogDispatched(s: State, id: int) {
    id in s.logs.rows && s.logs.rows[id].dispatched
  }

  lemma LogStep(e: Event, id: int)
    requires Happens(e)
    ensures HandsOut(e, LogWork, id) ==> !LogDispatched(e.pre, id) && LogDispatched(e.post, id)
    ensures LogDispatched(e.pre, id) ==> LogDispatched(e.post, id)
  {
    HandsOutWhatIsOnOffer(e, LogWork, id);
  }

  /** A log command is handed out at most once in any run. */
  lemma {:induction false} LogHandedOutOnce(tr: seq<Event>, id: int)
    requires IsRun(tr) && tr != []
    ensures HandOuts(tr, LogWork, id) + Bit(LogDispatched(tr[0].pre, id)) <= Bit(LogDispatched(tr[|tr| - 1].post, id))
  {
    var init, e := tr[..|tr| - 1], tr[|tr| - 1];
    EventHappens(tr, |tr| - 1);
    LogStep(e, id);
    if init != [] {
      LogHandedOutOnce(init, id);
      assert e.pre == init[|init| - 1].post;
    }
  }
}
