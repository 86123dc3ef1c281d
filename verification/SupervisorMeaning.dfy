/**
 What the requests of the supervisor protocol mean, stated on the columns and with the values they
 hold: decision tables for a row after a heartbeat, for the contents of a reply and for a report.
 None of these statements mentions the functions of which `SupervisorModel` composes a request.
 */
module SupervisorMeaning {
  import opened Finite
  import opened Wrappers
  import opened SupervisorModel

  // ---------- what a heartbeat says ----------

  ghost predicate Approved(hosts: map<HostId, Host>, h: HostId) {
    h in hosts && hosts[h].status == 1
  }

  ghost predicate WasOffline(hosts: map<HostId, Host>, h: HostId) {
    Approved(hosts, h) && hosts[h].online != 1
  }

  /** Online, approved, and silent for more than 90 seconds. */
  ghost predicate Overdue(host: Host, now: int) {
    host.online == 1 && host.status == 1 && host.lastHeartbeat.Some? && now - host.lastHeartbeat.value > 90
  }

  ghost predicate ReportsProgram(b: Beat, name: string) {
    name != "" && exists i :: 0 <= i < |b.programs| && b.programs[i].name == name
  }

  ghost predicate ReportsAny(b: Beat) {
    exists i :: 0 <= i < |b.programs| && b.programs[i].name != ""
  }

  ghost predicate EntryFor(r: Running, id: int, install: bool) {
    && r.id == id && id != 0
    && (if install then r.kind == "install_config" else r.kind != "" && r.kind != "install_config")
    && r.state in ["downloading", "verifying", "installing", "starting"]
  }

  ghost predicate Executing(b: Beat, id: int, install: bool) {
    exists i :: 0 <= i < |b.executing| && EntryFor(b.executing[i], id, install)
  }

  // ---------- decision tables ----------

  /** Whether the config still counts as installed: reported programs without it un-install it. */
  ghost predicate StaysInstalled(b: Beat, c: InstallConfig) {
    c.installed && (ReportsAny(b) ==> ReportsProgram(b, c.program))
  }

  /** In progress with unknown outcome. */
  ghost predicate Stuck(b: Beat, rec: bool, c: InstallConfig) {
    rec && c.installing && !StaysInstalled(b, c)
  }

  ghost predicate InstallDue(b: Beat, rec: bool, id: int, c: InstallConfig) {
    && c.host == b.host && c.enabled && !StaysInstalled(b, c) && !Executing(b, id, true)
    && (Stuck(b, rec, c) || (!c.installing && c.dispatchedAt == None))
  }

  ghost predicate ConfigAfter(b: Beat, rec: bool, now: int, id: int, c: InstallConfig, after: InstallConfig) {
    if c.host != b.host then after == c
    else
      var touched := Executing(b, id, true) || InstallDue(b, rec, id, c);
      && after.host == c.host && after.program == c.program && after.version == c.version && after.enabled == c.enabled
      && (after.installed <==> StaysInstalled(b, c))
      && (after.installing <==> touched || (c.installing && !Stuck(b, rec, c)))
      && after.dispatchedAt ==
         if touched then Some(now) else if Stuck(b, rec, c) then None else c.dispatchedAt
  }

  /** The command acts on a program that the host does not have. */
  ghost predicate LacksProgram(programs: map<(HostId, string), Program>, k: ProgramCommand) {
    k.action in ["start", "stop", "restart"] && (k.host, k.program) !in programs
  }

  ghost predicate CommandWaits(b: Beat, rec: bool, id: int, k: ProgramCommand) {
    k.host == b.host && k.status == 0 && (rec || !k.dispatched) && !Executing(b, id, false)
  }

  ghost predicate CommandAfter(b: Beat, rec: bool, now: int, lacks: bool, id: int, k: ProgramCommand,
                               after: ProgramCommand)
  {
    && after.host == k.host && after.program == k.program && after.action == k.action
    && after.target == k.target && after.status == k.status
    && (if CommandWaits(b, rec, id, k) && lacks then !after.dispatched && after.dispatchedAt == None
        else if CommandWaits(b, rec, id, k) || (k.host == b.host && Executing(b, id, false))
        then after.dispatched && after.dispatchedAt == Some(now)
        else after.dispatched == k.dispatched && after.dispatchedAt == k.dispatchedAt)
  }

  ghost predicate LogWaits(b: Beat, l: LogCommand) {
    l.host == b.host && l.status == 0 && !l.dispatched
  }

  ghost predicate LogAfter(b: Beat, now: int, l: LogCommand, after: LogCommand) {
    && after.host == l.host && after.action == l.action && after.status == l.status
    && (if LogWaits(b, l) then after.dispatched && after.dispatchedAt == Some(now)
        else after.dispatched == l.dispatched && after.dispatchedAt == l.dispatchedAt)
  }

  ghost predicate LastUnder(entries: seq<Entry>, name: string, i: int) {
    && 0 <= i < |entries| && entries[i].name == name
    && forall j :: i < j < |entries| ==> entries[j].name != name
  }

  ghost predicate ProgramAfter(b: Beat, now: int, key: (HostId, string), before: map<(HostId, string), Program>,
                               after: map<(HostId, string), Program>)
  {
    if key.0 == b.host && ReportsProgram(b, key.1) then
      key in after && exists i :: LastUnder(b.programs, key.1, i) && FromReport(b.programs[i], now, after[key])
    else
      && (key in after <==> key in before)
      && (key in before ==>
            if key.0 == b.host && before[key].status != "stopped"
            then after[key] == Program(before[key].version, "stopped", None, None, Some(now))
            else after[key] == before[key])
  }

  ghost predicate FromReport(e: Entry, now: int, p: Program) {
    p.version == e.version && p.status == e.status && p.pid == e.pid && p.port == e.port && p.lastHeartbeat == Some(now)
  }

  /** The reply contains this piece of work, with what its row says. */
  ghost predicate Sends(s: State, b: Beat, programs: map<(HostId, string), Program>, d: Dispatch) {
    var rec := WasOffline(s.hosts, b.host);
    match d
    case Install(id, program, version) =>
      && id in s.configs.rows && InstallDue(b, rec, id, s.configs.rows[id])
      && program == s.configs.rows[id].program && version == s.configs.rows[id].version
    case Run(id, action, program, target) =>
      && id in s.commands.rows && CommandWaits(b, rec, id, s.commands.rows[id])
      && !LacksProgram(programs, s.commands.rows[id])
      && action == s.commands.rows[id].action && program == s.commands.rows[id].program
      && target == if action == "upgrade" || action == "install" then s.commands.rows[id].target else None
    case CollectLogs(id, action) =>
      id in s.logs.rows && LogWaits(b, s.logs.rows[id]) && action == s.logs.rows[id].action
  }

  /** Installs come first, then program commands, then log commands, each as their table lists them. */
  ghost predicate StandsAt(s: State, d: Dispatch, table: nat, place: nat) {
    match d
    case Install(id, _, _) => table == 0 && place < |s.configs.order| && s.configs.order[place] == id
    case Run(id, _, _, _) => table == 1 && place < |s.commands.order| && s.commands.order[place] == id
    case CollectLogs(id, _) => table == 2 && place < |s.logs.order| && s.logs.order[place] == id
  }

  /** Each piece of work stands before the later ones. */
  ghost predicate InTableOrder(s: State, commands: seq<Dispatch>) {
    forall i, j {:trigger commands[i], commands[j]} :: 0 <= i < j < |commands| ==>
      Precedes(s, commands[i], commands[j])
  }

  ghost predicate Precedes(s: State, d: Dispatch, e: Dispatch) {
    exists t: nat, m: nat, u: nat, n: nat {:trigger StandsAt(s, d, t, m), StandsAt(s, e, u, n)} ::
      StandsAt(s, d, t, m) && StandsAt(s, e, u, n) && (t < u || (t == u && m < n))
  }

  /** A whole heartbeat of an approved host: every table after it, and the reply. */
  ghost predicate BeatMeans(s: State, b: Beat, now: int, t: State, commands: seq<Dispatch>) {
    var rec := WasOffline(s.hosts, b.host);
    && b.host in s.hosts && t.hosts == s.hosts[b.host := Host(s.hosts[b.host].status, 1, Some(now))]
    && (forall key :: ProgramAfter(b, now, key, s.programs, t.programs))
    && t.configs.rows.Keys == s.configs.rows.Keys
    && (forall id :: id in s.configs.rows ==> ConfigAfter(b, rec, now, id, s.configs.rows[id], t.configs.rows[id]))
    && t.commands.rows.Keys == s.commands.rows.Keys
    && (forall id :: id in s.commands.rows ==>
          CommandAfter(b, rec, now, LacksProgram(t.programs, s.commands.rows[id]), id, s.commands.rows[id],
                       t.commands.rows[id]))
    && t.logs.rows.Keys == s.logs.rows.Keys
    && (forall id :: id in s.logs.rows ==> LogAfter(b, now, s.logs.rows[id], t.logs.rows[id]))
    && (forall d :: d in commands <==> Sends(s, b, t.programs, d)) && InTableOrder(s, commands)
  }

  // ---------- one row ----------

  lemma ReportedMeans(b: Beat, name: string)
    ensures name in Reported(b.programs) <==> ReportsProgram(b, name)
    ensures Reported(b.programs) != {} <==> ReportsAny(b)
  {
    if ReportsAny(b) {
      var i :| 0 <= i < |b.programs| && b.programs[i].name != "";
      assert b.programs[i].name in Reported(b.programs);
    }
    if Reported(b.programs) != {} {
      var x :| x in Reported(b.programs);
    }
  }

  lemma KeepsMeans(b: Beat, id: int, install: bool)
    ensures Keeps(b.executing, id, install) <==> Executing(b, id, install)
  {
    assert forall i :: 0 <= i < |b.executing| ==>
      (Names(b.executing[i], id, install) <==> EntryFor(b.executing[i], id, install));
  }

  /** The five phases that a heartbeat applies to a config compose to the decision table. */
  lemma ConfigMeans(b: Beat, rec: bool, now: int, id: int, c: InstallConfig)
    ensures ConfigAfter(b, rec, now, id, c, BeatConfig(b, rec, now, id, c))
    ensures var settled := SettledConfig(b, rec, now, id, c);
      && (InstallPending(b.host, settled) <==> InstallDue(b, rec, id, c))
      && InstallOf(id, settled) == Install(id, c.program, c.version)
  {
    ReportedMeans(b, c.program);
    KeepsMeans(b, id, true);
  }

  lemma CommandMeans(b: Beat, rec: bool, now: int, programs: map<(HostId, string), Program>, id: int, k: ProgramCommand)
    ensures CommandAfter(b, rec, now, LacksProgram(programs, k), id, k, BeatCommand(b, rec, now, programs, id, k))
    ensures var settled := SettledCommand(b, rec, now, id, k);
      && (CommandPending(b.host, settled) <==> CommandWaits(b, rec, id, k))
      && (Blocked(settled, programs) <==> LacksProgram(programs, k))
      && RunOf(id, settled) ==
         Run(id, k.action, k.program, if k.action == "upgrade" || k.action == "install" then k.target else None)
  {
    KeepsMeans(b, id, false);
  }

  // ---------- the managed-program table ----------

  lemma {:induction false} OverlayByName(programs: map<(HostId, string), Program>, h: HostId, entries: seq<Entry>,
                                         now: int, name: string)
    ensures (h, name) in Overlay(programs, h, entries, now) <==>
            (h, name) in programs || name in Reported(entries)
    ensures name in Reported(entries) ==> exists i :: LastUnder(entries, name, i)
    ensures forall i :: name != "" && LastUnder(entries, name, i) ==>
      && (h, name) in Overlay(programs, h, entries, now)
      && FromReport(entries[i], now, Overlay(programs, h, entries, now)[(h, name)])
    ensures name !in Reported(entries) && (h, name) in programs ==>
      Overlay(programs, h, entries, now)[(h, name)] == programs[(h, name)]
  {
    if entries != [] {
      var init, e := entries[..|entries| - 1], entries[|entries| - 1];
      OverlayByName(programs, h, init, now, name);
      assert entries == init + [e];
      assert forall x :: x in entries <==> x in init || x == e;
      if e.name == name {
        assert LastUnder(entries, name, |entries| - 1);
      } else if name in Reported(init) {
        var i :| LastUnder(init, name, i);
        assert LastUnder(entries, name, i);
      }
      forall i | name != "" && LastUnder(entries, name, i)
        ensures (h, name) in Overlay(programs, h, entries, now)
        ensures FromReport(entries[i], now, Overlay(programs, h, entries, now)[(h, name)])
      {
        if e.name == name {
          assert i == |entries| - 1;
        } else {
          assert LastUnder(init, name, i);
        }
      }
    }
  }

  lemma {:induction false} OverlayOtherHosts(programs: map<(HostId, string), Program>, h: HostId, entries: seq<Entry>,
                                             now: int, key: (HostId, string))
    requires key.0 != h
    ensures key in Overlay(programs, h, entries, now) <==> key in programs
    ensures key in programs ==> Overlay(programs, h, entries, now)[key] == programs[key]
  {
    if entries != [] {
      OverlayOtherHosts(programs, h, entries[..|entries| - 1], now, key);
    }
  }

  /**
   The managed programs of the host after a heartbeat: a reported name carries the last
   entry reported under it, every other program is stopped, other hosts are untouched.
   */
  lemma ProgramsAfterBeat(programs: map<(HostId, string), Program>, b: Beat, now: int, key: (HostId, string))
    ensures ProgramAfter(b, now, key, programs, BeatPrograms(programs, b, now))
  {
    ReportedMeans(b, key.1);
    if key.0 == b.host {
      OverlayByName(programs, b.host, b.programs, now, key.1);
      assert key == (b.host, key.1);
    } else {
      OverlayOtherHosts(programs, b.host, b.programs, now, key);
    }
  }

  // ---------- the reply ----------

  lemma {:induction false} ListedMembers(order: seq<int>, offers: map<int, Dispatch>, d: Dispatch)
    ensures d in Listed(order, offers) <==> exists id :: id in order && id in offers && offers[id] == d
  {
    if order != [] {
      ListedMembers(order[..|order| - 1], offers, d);
      assert order == order[..|order| - 1] + [order[|order| - 1]];
    }
  }

  lemma InstallsOffered(s: State, b: Beat, now: int, id: int)
    requires Accepts(s, b.host) && id in s.configs.rows
    ensures var c, offers := s.configs.rows[id], Installs(b.host, SettledConfigs(s, b, now));
      && (id in offers <==> InstallDue(b, WasOffline(s.hosts, b.host), id, c))
      && (id in offers ==> offers[id] == Install(id, c.program, c.version))
  {
    ConfigMeans(b, Recovers(s, b.host), now, id, s.configs.rows[id]);
  }

  lemma InstallsSent(s: State, b: Beat, now: int, programs: map<(HostId, string), Program>, d: Dispatch)
    requires s.configs.Ok() && Accepts(s, b.host)
    ensures d in Listed(s.configs.order, Installs(b.host, SettledConfigs(s, b, now))) <==>
            d.Install? && Sends(s, b, programs, d)
  {
    var offers := Installs(b.host, SettledConfigs(s, b, now));
    ListedMembers(s.configs.order, offers, d);
    if id :| id in s.configs.order && id in offers && offers[id] == d {
      InstallsOffered(s, b, now, id);
    }
    if d.Install? && d.id in s.configs.rows {
      InstallsOffered(s, b, now, d.id);
    }
  }

  lemma RunsOffered(s: State, b: Beat, now: int, programs: map<(HostId, string), Program>, id: int)
    requires Accepts(s, b.host) && id in s.commands.rows
    ensures var k, offers := s.commands.rows[id], Runs(b.host, SettledCommands(s, b, now), programs);
      && (id in offers <==> CommandWaits(b, WasOffline(s.hosts, b.host), id, k) && !LacksProgram(programs, k))
      && (id in offers ==>
            offers[id] ==
            Run(id, k.action, k.program, if k.action == "upgrade" || k.action == "install" then k.target else None))
  {
    CommandMeans(b, Recovers(s, b.host), now, programs, id, s.commands.rows[id]);
  }

  lemma RunsSent(s: State, b: Beat, now: int, programs: map<(HostId, string), Program>, d: Dispatch)
    requires s.commands.Ok() && Accepts(s, b.host)
    ensures d in Listed(s.commands.order, Runs(b.host, SettledCommands(s, b, now), programs)) <==>
            d.Run? && Sends(s, b, programs, d)
  {
    var offers := Runs(b.host, SettledCommands(s, b, now), programs);
    ListedMembers(s.commands.order, offers, d);
    if id :| id in s.commands.order && id in offers && offers[id] == d {
      RunsOffered(s, b, now, programs, id);
    }
    if d.Run? && d.id in s.commands.rows {
      RunsOffered(s, b, now, programs, d.id);
    }
  }

  lemma LogsSent(s: State, b: Beat, programs: map<(HostId, string), Program>, d: Dispatch)
    requires s.logs.Ok()
    ensures d in Listed(s.logs.order, Collects(b.host, s.logs.rows)) <==> d.CollectLogs? && Sends(s, b, programs, d)
  {
    ListedMembers(s.logs.order, Collects(b.host, s.logs.rows), d);
  }

  lemma {:induction false} ListedInOrder(order: seq<int>, offers: map<int, Dispatch>, i: nat)
    returns (m: nat)
    requires i < |Listed(order, offers)|
    ensures m < |order| && order[m] in offers && Listed(order, offers)[i] == offers[order[m]]
    ensures Listed(order[..m], offers) == Listed(order, offers)[..i]
  {
    var init := order[..|order| - 1];
    if i < |Listed(init, offers)| {
      m := ListedInOrder(init, offers, i);
      assert init[..m] == order[..m] && Listed(order, offers)[..i] == Listed(init, offers)[..i];
    } else {
      m := |order| - 1;
      assert Listed(order, offers)[..i] == Listed(init, offers);
    }
  }

  lemma ListedLater(order: seq<int>, offers: map<int, Dispatch>, i: nat, j: nat) returns (m: nat, n: nat)
    requires i < j < |Listed(order, offers)|
    ensures m < n < |order| && order[m] in offers && order[n] in offers
    ensures Listed(order, offers)[i] == offers[order[m]] && Listed(order, offers)[j] == offers[order[n]]
  {
    n := ListedInOrder(order, offers, j);
    m := ListedInOrder(order[..n], offers, i);
  }

  /** All of one table: its rows stand in the reply in the order of the table. */
  lemma OneTableOrdered(s: State, table: nat, order: seq<int>, offers: map<int, Dispatch>)
    requires forall m: nat :: m < |order| && order[m] in offers ==> StandsAt(s, offers[order[m]], table, m)
    ensures InTableOrder(s, Listed(order, offers))
    ensures forall i :: 0 <= i < |Listed(order, offers)| ==> InTable(s, Listed(order, offers)[i], table)
  {
    var l := Listed(order, offers);
    forall i, j | 0 <= i < j < |l| ensures Precedes(s, l[i], l[j]) {
      var m, n := ListedLater(order, offers, i, j);
      assert StandsAt(s, l[i], table, m) && StandsAt(s, l[j], table, n);
    }
    forall i | 0 <= i < |l| ensures InTable(s, l[i], table) {
      var m := ListedInOrder(order, offers, i);
      assert StandsAt(s, l[i], table, m);
    }
  }

  ghost predicate InTable(s: State, d: Dispatch, table: nat) {
    exists m: nat :: StandsAt(s, d, table, m)
  }

  lemma TablesOrdered(s: State, a: seq<Dispatch>, b: seq<Dispatch>, c: seq<Dispatch>)
    requires InTableOrder(s, a) && InTableOrder(s, b) && InTableOrder(s, c)
    requires forall i :: 0 <= i < |a| ==> InTable(s, a[i], 0)
    requires forall i :: 0 <= i < |b| ==> InTable(s, b[i], 1)
    requires forall i :: 0 <= i < |c| ==> InTable(s, c[i], 2)
    ensures InTableOrder(s, a + b + c)
  {
    var all := a + b + c;
    assert forall i :: 0 <= i < |all| ==>
      all[i] == if i < |a| then a[i] else if i < |a| + |b| then b[i - |a|] else c[i - |a| - |b|];
    forall i, j | 0 <= i < j < |all| ensures Precedes(s, all[i], all[j]) {
      var t, u := TableAt(|a|, |b|, i), TableAt(|a|, |b|, j);
      if t < u {
        var m: nat :| StandsAt(s, all[i], t, m);
        var n: nat :| StandsAt(s, all[j], u, n);
      }
    }
  }

  function TableAt(a: nat, b: nat, i: nat): nat {
    if i < a then 0 else if i < a + b then 1 else 2
  }

  lemma ReplyOrdered(s: State, b: Beat, now: int)
    requires s.TablesOk() && Accepts(s, b.host)
    ensures InTableOrder(s, BeatCommands(s, b, now))
  {
    var i := Installs(b.host, SettledConfigs(s, b, now));
    var r := Runs(b.host, SettledCommands(s, b, now), BeatPrograms(s.programs, b, now));
    var c := Collects(b.host, s.logs.rows);
    OneTableOrdered(s, 0, s.configs.order, i);
    OneTableOrdered(s, 1, s.commands.order, r);
    OneTableOrdered(s, 2, s.logs.order, c);
    TablesOrdered(s, Listed(s.configs.order, i), Listed(s.commands.order, r), Listed(s.logs.order, c));
  }

  /** A heartbeat sends exactly what is due, with the contents of its rows. */
  lemma ReplyMeans(s: State, b: Beat, now: int, d: Dispatch)
    requires s.TablesOk() && Accepts(s, b.host)
    ensures d in BeatCommands(s, b, now) <==> Sends(s, b, BeatPrograms(s.programs, b, now), d)
  {
    var programs := BeatPrograms(s.programs, b, now);
    InstallsSent(s, b, now, programs, d);
    RunsSent(s, b, now, programs, d);
    LogsSent(s, b, programs, d);
  }

  /** The row-wise functions, composed, do what the decision tables say. */
  lemma BeatIsMeant(s: State, b: Beat, now: int)
    requires s.TablesOk() && Accepts(s, b.host)
    ensures BeatMeans(s, b, now, BeatState(s, b, now), BeatCommands(s, b, now))
  {
    var t := BeatState(s, b, now);
    forall key ensures ProgramAfter(b, now, key, s.programs, t.programs) {
      ProgramsAfterBeat(s.programs, b, now, key);
    }
    forall id | id in s.configs.rows
      ensures ConfigAfter(b, WasOffline(s.hosts, b.host), now, id, s.configs.rows[id], t.configs.rows[id])
    {
      ConfigMeans(b, Recovers(s, b.host), now, id, s.configs.rows[id]);
    }
    forall id | id in s.commands.rows
      ensures CommandAfter(b, WasOffline(s.hosts, b.host), now, LacksProgram(t.programs, s.commands.rows[id]), id,
                           s.commands.rows[id], t.commands.rows[id])
    {
      CommandMeans(b, Recovers(s, b.host), now, t.programs, id, s.commands.rows[id]);
    }
    forall d ensures d in BeatCommands(s, b, now) <==> Sends(s, b, t.programs, d) {
      ReplyMeans(s, b, now, d);
    }
    ReplyOrdered(s, b, now);
  }

  // ---------- result reports ----------

  /** The one config of that program on that host that is not installed. */
  ghost predicate OnlyUninstalled(rows: map<int, InstallConfig>, h: HostId, program: string, id: int) {
    && id in rows && rows[id].host == h && rows[id].program == program && !rows[id].installed
    && forall x :: x in rows && x != id ==> !(rows[x].host == h && rows[x].program == program && !rows[x].installed)
  }

  ghost predicate SeveralUninstalled(rows: map<int, InstallConfig>, h: HostId, program: string) {
    exists x, y :: x in rows && y in rows && x != y
      && rows[x].host == h && rows[x].program == program && !rows[x].installed
      && rows[y].host == h && rows[y].program == program && !rows[y].installed
  }

  ghost predicate InstallRefused(s: State, r: Report) {
    if r.id != 0 then r.id !in s.configs.rows || s.configs.rows[r.id].host != r.host
    else r.detected.Some? && SeveralUninstalled(s.configs.rows, r.host, r.detected.value)
  }

  ghost predicate ReportRefused(s: State, r: Report) {
    || !Approved(s.hosts, r.host)
    || (if r.kind == "install_config" then InstallRefused(s, r)
        else r.id !in s.commands.rows || s.commands.rows[r.id].host != r.host)
  }

  ghost predicate ConfigReported(s: State, r: Report, id: int, c: InstallConfig, after: InstallConfig) {
    && after.host == c.host && after.program == c.program && after.version == c.version && after.enabled == c.enabled
    && (if r.kind == "install_config" && r.id != 0 && r.id == id
        then (after.installed <==> r.status == 2) && !after.installing && after.dispatchedAt == c.dispatchedAt
        else if r.kind == "install_config" && r.id == 0 && r.detected.Some?
                && OnlyUninstalled(s.configs.rows, r.host, r.detected.value, id)
        then after.installed && !after.installing && after.dispatchedAt == None
        else after == c)
  }

  ghost predicate CommandReported(r: Report, id: int, k: ProgramCommand, after: ProgramCommand) {
    && after.host == k.host && after.program == k.program && after.action == k.action && after.target == k.target
    && after.dispatched == k.dispatched && after.dispatchedAt == k.dispatchedAt
    && after.status == if r.kind != "install_config" && r.id == id then r.status else k.status
  }

  ghost predicate ReportMeans(s: State, r: Report, t: State, reply: Reply) {
    && (reply == Refused <==> ReportRefused(s, r))
    && (reply != Refused ==> reply == Done([]))
    && (reply == Refused ==> t == s)
    && t.hosts == s.hosts && t.programs == s.programs && t.logs == s.logs
    && t.configs.rows.Keys == s.configs.rows.Keys && t.commands.rows.Keys == s.commands.rows.Keys
    && (reply != Refused ==>
          forall id :: id in s.configs.rows ==> ConfigReported(s, r, id, s.configs.rows[id], t.configs.rows[id]))
    && (reply != Refused ==>
          forall id :: id in s.commands.rows ==> CommandReported(r, id, s.commands.rows[id], t.commands.rows[id]))
  }

  lemma {:induction false} MatchesAre(h: HostId, program: string, rows: map<int, InstallConfig>, order: seq<int>,
                                      id: int)
    ensures id in Matches(h, program, rows, order) <==> id in order && id in rows && Detectable(h, program, rows[id])
  {
    if order != [] {
      MatchesAre(h, program, rows, order[..|order| - 1], id);
      assert order == order[..|order| - 1] + [order[|order| - 1]];
    }
  }

  lemma {:induction false} MatchesDistinct(h: HostId, program: string, rows: map<int, InstallConfig>, order: seq<int>)
    requires Distinct(order)
    ensures Distinct(Matches(h, program, rows, order))
  {
    if order != [] {
      var init, last := order[..|order| - 1], order[|order| - 1];
      MatchesDistinct(h, program, rows, init);
      MatchesAre(h, program, rows, init, last);
      assert last !in init;
    }
  }

  lemma TwoMembers(ids: seq<int>)
    requires Distinct(ids)
    ensures |ids| > 1 <==> exists x, y :: x in ids && y in ids && x != y
  {
    if |ids| > 1 {
      assert ids[0] in ids && ids[1] in ids;
    }
  }

  lemma OneMember(ids: seq<int>, id: int)
    requires Distinct(ids)
    ensures ids == [id] <==> id in ids && forall x :: x in ids ==> x == id
  {
    assert forall i :: 0 <= i < |ids| ==> ids[i] in ids;
    if ids == [id] {
      assert ids[0] == id;
    } else {
      TwoMembers(ids);
    }
  }

  lemma MatchesMean(t: Table<InstallConfig>, h: HostId, program: string, id: int)
    requires t.Ok()
    ensures var ids := Matches(h, program, t.rows, t.order);
      && (|ids| > 1 <==> SeveralUninstalled(t.rows, h, program))
      && (ids == [id] <==> OnlyUninstalled(t.rows, h, program, id))
      && (forall x :: x in ids ==> x in t.rows)
  {
    var ids := Matches(h, program, t.rows, t.order);
    MatchesDistinct(h, program, t.rows, t.order);
    forall x ensures x in ids <==>
      x in t.rows && t.rows[x].host == h && t.rows[x].program == program && !t.rows[x].installed
    {
      MatchesAre(h, program, t.rows, t.order, x);
    }
    TwoMembers(ids);
    OneMember(ids, id);
  }

  lemma DetectedConfig(s: State, h: HostId, program: string, id: int)
    requires s.configs.Ok() && id in s.configs.rows && !SeveralUninstalled(s.configs.rows, h, program)
    ensures var rows, after := s.configs.rows, DetectState(s, h, program).0.configs.rows;
      id in after && after[id] ==
        if OnlyUninstalled(rows, h, program, id)
        then rows[id].(installed := true, installing := false, dispatchedAt := None) else rows[id]
  {
    var ids := Matches(h, program, s.configs.rows, s.configs.order);
    MatchesMean(s.configs, h, program, id);
    assert |ids| == 1 ==> ids == [ids[0]];
  }

  /** Several matches are refused; a single match is marked installed; nothing else changes. */
  ghost predicate DetectionMeans(s: State, h: HostId, program: string, t: State, reply: Reply) {
    && reply == (if SeveralUninstalled(s.configs.rows, h, program) then Refused else Done([]))
    && (reply == Refused ==> t == s)
    && t == s.(configs := t.configs) && t.configs.rows.Keys == s.configs.rows.Keys
    && forall id :: id in s.configs.rows ==>
         t.configs.rows[id] == if OnlyUninstalled(s.configs.rows, h, program, id)
                               then s.configs.rows[id].(installed := true, installing := false, dispatchedAt := None)
                               else s.configs.rows[id]
  }

  lemma DetectionShape(s: State, h: HostId, program: string)
    requires s.configs.Ok()
    ensures var (t, reply) := DetectState(s, h, program); DetectionMeans(s, h, program, t, reply)
  {
    MatchesMean(s.configs, h, program, 0);
    var ids := Matches(h, program, s.configs.rows, s.configs.order);
    assert ids != [] ==> ids[0] in ids;
    var t := DetectState(s, h, program).0;
    assert t.configs.rows.Keys == s.configs.rows.Keys;
    if SeveralUninstalled(s.configs.rows, h, program) {
      NotOnly(s.configs.rows, h, program);
    } else {
      forall id | id in s.configs.rows
        ensures t.configs.rows[id] ==
          if OnlyUninstalled(s.configs.rows, h, program, id)
          then s.configs.rows[id].(installed := true, installing := false, dispatchedAt := None)
          else s.configs.rows[id]
      {
        DetectedConfig(s, h, program, id);
      }
    }
  }

  lemma NotOnly(rows: map<int, InstallConfig>, h: HostId, program: string)
    requires SeveralUninstalled(rows, h, program)
    ensures forall id :: !OnlyUninstalled(rows, h, program, id)
  {
  }

  lemma DetectionIsMeant(s: State, r: Report)
    requires s.TablesOk() && Approved(s.hosts, r.host) && r.kind == "install_config" && r.id == 0 && r.detected.Some?
    ensures ReportMeans(s, r, DetectState(s, r.host, r.detected.value).0, DetectState(s, r.host, r.detected.value).1)
  {
    DetectionShape(s, r.host, r.detected.value);
  }

  /** A result report does what its decision table says. */
  lemma ReportIsMeant(s: State, r: Report)
    requires s.TablesOk()
    ensures ReportMeans(s, r, ReportState(s, r).0, ReportState(s, r).1)
  {
    if Accepts(s, r.host) && r.kind == "install_config" && r.id == 0 && r.detected.Some? {
      DetectionIsMeant(s, r);
    } else {
      var t := ReportState(s, r).0;
      assert t.configs.rows.Keys == s.configs.rows.Keys && t.commands.rows.Keys == s.commands.rows.Keys;
    }
  }
}
