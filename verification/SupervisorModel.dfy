/**
 The rows that the host daemon ("supervisor") protocol works on, and what each
 request does to one row.

 Every handler is specified row by row: the new value of a row is a function of
 its old value and of the request.  The handlers themselves (class `Backend`)
 work table by table and phase by phase, as the server does.
 */
module SupervisorModel {
  import opened Wrappers

  type HostId = string

  const APPROVED := 1
  const ONLINE := 1
  const OFFLINE := 0
  const OFFLINE_AFTER_SECONDS := 90
  const PENDING := 0
  const SUCCESS := 2
  const STOPPED := "stopped"
  const INSTALL_CONFIG := "install_config"

  datatype Host = Host(status: int, online: int, lastHeartbeat: Option<int>)

  /** A managed program; its table is keyed by host and name, as the unique constraint is. */
  datatype Program = Program(version: string, status: string, pid: Option<int>, port: Option<int>,
                             lastHeartbeat: Option<int>)

  datatype InstallConfig = InstallConfig(host: HostId, program: string, version: string, enabled: bool,
                                         installed: bool, installing: bool, dispatchedAt: Option<int>)

  datatype ProgramCommand = ProgramCommand(host: HostId, program: string, action: string,
                                           target: Option<string>, status: int,
                                           dispatched: bool, dispatchedAt: Option<int>)

  datatype LogCommand = LogCommand(host: HostId, action: string, status: int,
                                   dispatched: bool, dispatchedAt: Option<int>)

  /** A table: rows by primary key, and the order in which a query lists them. */
  datatype Table<R> = Table(rows: map<int, R>, order: seq<int>) {
    ghost predicate Ok() {
      && (forall i, j :: 0 <= i < j < |order| ==> order[i] != order[j])
      && (forall i :: 0 <= i < |order| ==> order[i] in rows)
      && (forall id :: id in rows ==> id in order)
    }
  }

  datatype State = State(hosts: map<HostId, Host>, programs: map<(HostId, string), Program>,
                         configs: Table<InstallConfig>, commands: Table<ProgramCommand>,
                         logs: Table<LogCommand>) {
    ghost predicate TablesOk() {
      configs.Ok() && commands.Ok() && logs.Ok()
    }
  }

  // ---------- requests and replies ----------

  datatype Entry = Entry(name: string, version: string, status: string, pid: Option<int>, port: Option<int>)
  datatype Running = Running(id: int, kind: string, state: string)
  datatype Beat = Beat(host: HostId, programs: seq<Entry>, executing: seq<Running>)
  /** `detected` is the program name found in the message of a local-detection report. */
  datatype Report = Report(host: HostId, id: int, kind: string, status: int, detected: Option<string>)

  datatype Dispatch =
    | Install(id: int, program: string, version: string)
    | Run(id: int, action: string, program: string, target: Option<string>)
    | CollectLogs(id: int, action: string)

  datatype Reply = Refused | Done(commands: seq<Dispatch>)

  // ---------- one row, one phase of a heartbeat ----------

  function Reported(entries: seq<Entry>): set<string> {
    set e | e in entries && e.name != "" :: e.name
  }

  predicate Active(state: string) {
    state in {"downloading", "verifying", "installing", "starting"}
  }

  predicate NeedsProgram(action: string) {
    action in {"start", "stop", "restart"}
  }

  function UnstickConfig(h: HostId, c: InstallConfig): InstallConfig {
    if c.host == h && !c.installed && c.installing then c.(installing := false, dispatchedAt := None) else c
  }

  function UnstickCommand(h: HostId, k: ProgramCommand): ProgramCommand {
    if k.host == h && k.status == PENDING && k.dispatched then k.(dispatched := false, dispatchedAt := None) else k
  }

  function SyncConfig(h: HostId, reported: set<string>, c: InstallConfig): InstallConfig {
    if reported != {} && c.host == h && c.installed && c.program !in reported then c.(installed := false) else c
  }

  /** Entry `r` says that row `id` of the table of that kind is being worked on. */
  predicate Names(r: Running, id: int, install: bool) {
    r.id == id && r.id != 0 && r.kind != "" && (r.kind == INSTALL_CONFIG) == install && Active(r.state)
  }

  ghost predicate Keeps(executing: seq<Running>, id: int, install: bool) {
    exists i :: 0 <= i < |executing| && Names(executing[i], id, install)
  }

  function KeepConfig(h: HostId, keeps: bool, now: int, c: InstallConfig): InstallConfig {
    if keeps && c.host == h then c.(installing := true, dispatchedAt := Some(now)) else c
  }

  function KeepCommand(h: HostId, keeps: bool, now: int, k: ProgramCommand): ProgramCommand {
    if keeps && k.host == h then k.(dispatched := true, dispatchedAt := Some(now)) else k
  }

  predicate InstallPending(h: HostId, c: InstallConfig) {
    c.host == h && !c.installed && !c.installing && c.enabled && c.dispatchedAt.None?
  }

  predicate CommandPending(h: HostId, k: ProgramCommand) {
    k.host == h && k.status == PENDING && !k.dispatched
  }

  predicate LogPending(h: HostId, l: LogCommand) {
    l.host == h && l.status == PENDING && !l.dispatched
  }

  /** A start, stop or restart is held back while the host has no such program. */
  predicate Blocked(k: ProgramCommand, programs: map<(HostId, string), Program>) {
    NeedsProgram(k.action) && (k.host, k.program) !in programs
  }

  function MarkConfig(h: HostId, now: int, c: InstallConfig): InstallConfig {
    if InstallPending(h, c) then c.(installing := true, dispatchedAt := Some(now)) else c
  }

  function MarkCommand(h: HostId, now: int, k: ProgramCommand): ProgramCommand {
    if CommandPending(h, k) then k.(dispatched := true, dispatchedAt := Some(now)) else k
  }

  /** A pending command is marked, then unmarked again if it is held back. */
  function DispatchCommand(h: HostId, now: int, programs: map<(HostId, string), Program>, k: ProgramCommand)
    : ProgramCommand
  {
    if CommandPending(h, k) && Blocked(k, programs) then k.(dispatched := false, dispatchedAt := None)
    else MarkCommand(h, now, k)
  }

  function MarkLog(h: HostId, now: int, l: LogCommand): LogCommand {
    if LogPending(h, l) then l.(dispatched := true, dispatchedAt := Some(now)) else l
  }

  // ---------- one row, a whole heartbeat ----------

  /** The row just before pending installs are collected. */
  ghost function SettledConfig(b: Beat, recovering: bool, now: int, id: int, c: InstallConfig): InstallConfig {
    var c1 := if recovering then UnstickConfig(b.host, c) else c;
    var c2 := SyncConfig(b.host, Reported(b.programs), c1);
    var c3 := if recovering then UnstickConfig(b.host, c2) else c2;
    KeepConfig(b.host, Keeps(b.executing, id, true), now, c3)
  }

  ghost function BeatConfig(b: Beat, recovering: bool, now: int, id: int, c: InstallConfig): InstallConfig {
    MarkConfig(b.host, now, SettledConfig(b, recovering, now, id, c))
  }

  ghost function SettledCommand(b: Beat, recovering: bool, now: int, id: int, k: ProgramCommand): ProgramCommand {
    var k1 := if recovering then UnstickCommand(b.host, k) else k;
    KeepCommand(b.host, Keeps(b.executing, id, false), now, k1)
  }

  ghost function BeatCommand(b: Beat, recovering: bool, now: int, programs: map<(HostId, string), Program>,
                             id: int, k: ProgramCommand): ProgramCommand
  {
    DispatchCommand(b.host, now, programs, SettledCommand(b, recovering, now, id, k))
  }

  // ---------- the managed-program table ----------

  function FromEntry(e: Entry, now: int): Program {
    Program(e.version, e.status, e.pid, e.port, Some(now))
  }

  /** The reported programs written over the table, one after the other. */
  function Overlay(programs: map<(HostId, string), Program>, h: HostId, entries: seq<Entry>, now: int)
    : map<(HostId, string), Program>
  {
    if entries == [] then programs
    else
      var rest := Overlay(programs, h, entries[..|entries| - 1], now);
      var e := entries[|entries| - 1];
      if e.name == "" then rest else rest[(h, e.name) := FromEntry(e, now)]
  }

  function StopUnreported(programs: map<(HostId, string), Program>, h: HostId, reported: set<string>, now: int)
    : map<(HostId, string), Program>
  {
    map key | key in programs ::
      if key.0 == h && key.1 !in reported && programs[key].status != STOPPED
      then programs[key].(status := STOPPED, pid := None, port := None, lastHeartbeat := Some(now))
      else programs[key]
  }

  function BeatPrograms(programs: map<(HostId, string), Program>, b: Beat, now: int)
    : map<(HostId, string), Program>
  {
    StopUnreported(Overlay(programs, b.host, b.programs, now), b.host, Reported(b.programs), now)
  }

  // ---------- what is handed out ----------

  function InstallOf(id: int, c: InstallConfig): Dispatch {
    Install(id, c.program, c.version)
  }

  /** Only an upgrade and an install carry a target version. */
  function RunOf(id: int, k: ProgramCommand): Dispatch {
    Run(id, k.action, k.program, if k.action in {"upgrade", "install"} then k.target else None)
  }

  function CollectOf(id: int, l: LogCommand): Dispatch {
    CollectLogs(id, l.action)
  }

  /** The work on offer in each table, by row. */
  function Installs(h: HostId, rows: map<int, InstallConfig>): map<int, Dispatch> {
    map id | id in rows && InstallPending(h, rows[id]) :: InstallOf(id, rows[id])
  }

  function Runs(h: HostId, rows: map<int, ProgramCommand>, programs: map<(HostId, string), Program>)
    : map<int, Dispatch>
  {
    map id | id in rows && CommandPending(h, rows[id]) && !Blocked(rows[id], programs) :: RunOf(id, rows[id])
  }

  function Collects(h: HostId, rows: map<int, LogCommand>): map<int, Dispatch> {
    map id | id in rows && LogPending(h, rows[id]) :: CollectOf(id, rows[id])
  }

  /** The work on offer, in the order in which the table lists its rows. */
  function Listed(order: seq<int>, offers: map<int, Dispatch>): seq<Dispatch> {
    if order == [] then []
    else
      var id := order[|order| - 1];
      Listed(order[..|order| - 1], offers) + if id in offers then [offers[id]] else []
  }

  // ---------- whole requests ----------

  predicate Accepts(s: State, h: HostId) {
    h in s.hosts && s.hosts[h].status == APPROVED
  }

  predicate Recovers(s: State, h: HostId) {
    Accepts(s, h) && s.hosts[h].online != ONLINE
  }

  ghost function SettledConfigs(s: State, b: Beat, now: int): map<int, InstallConfig>
  {
    map id | id in s.configs.rows :: SettledConfig(b, Recovers(s, b.host), now, id, s.configs.rows[id])
  }

  ghost function SettledCommands(s: State, b: Beat, now: int): map<int, ProgramCommand>
  {
    map id | id in s.commands.rows :: SettledCommand(b, Recovers(s, b.host), now, id, s.commands.rows[id])
  }

  ghost function BeatState(s: State, b: Beat, now: int): State
    requires Accepts(s, b.host)
  {
    var rec := Recovers(s, b.host);
    var programs := BeatPrograms(s.programs, b, now);
    State(
      s.hosts[b.host := s.hosts[b.host].(online := ONLINE, lastHeartbeat := Some(now))],
      programs,
      Table(map id | id in s.configs.rows :: BeatConfig(b, rec, now, id, s.configs.rows[id]), s.configs.order),
      Table(map id | id in s.commands.rows :: BeatCommand(b, rec, now, programs, id, s.commands.rows[id]),
            s.commands.order),
      Table(map id | id in s.logs.rows :: MarkLog(b.host, now, s.logs.rows[id]), s.logs.order))
  }

  ghost function BeatCommands(s: State, b: Beat, now: int): seq<Dispatch>
    requires Accepts(s, b.host)
  {
    Listed(s.configs.order, Installs(b.host, SettledConfigs(s, b, now))) +
    Listed(s.commands.order, Runs(b.host, SettledCommands(s, b, now), BeatPrograms(s.programs, b, now))) +
    Listed(s.logs.order, Collects(b.host, s.logs.rows))
  }

  predicate Detectable(h: HostId, program: string, c: InstallConfig) {
    c.host == h && c.program == program && !c.installed
  }

  /** The rows a local-detection report may mean. */
  function Matches(h: HostId, program: string, rows: map<int, InstallConfig>, order: seq<int>): seq<int> {
    if order == [] then []
    else
      var id := order[|order| - 1];
      Matches(h, program, rows, order[..|order| - 1]) +
      if id in rows && Detectable(h, program, rows[id]) then [id] else []
  }

  ghost predicate DetectsOne(s: State, r: Report, id: int) {
    && Accepts(s, r.host) && r.kind == INSTALL_CONFIG && r.id == 0 && r.detected.Some?
    && Matches(r.host, r.detected.value, s.configs.rows, s.configs.order) == [id]
  }

  function WithConfig(s: State, id: int, c: InstallConfig): State {
    s.(configs := s.configs.(rows := s.configs.rows[id := c]))
  }

  function WithCommand(s: State, id: int, k: ProgramCommand): State {
    s.(commands := s.commands.(rows := s.commands.rows[id := k]))
  }

  /** No match leaves everything as it was; several matches make the lookup fail. */
  function DetectState(s: State, h: HostId, program: string): (State, Reply) {
    var ids := Matches(h, program, s.configs.rows, s.configs.order);
    if ids == [] then (s, Done([]))
    else if |ids| > 1 || ids[0] !in s.configs.rows then (s, Refused)
    else
      var c := s.configs.rows[ids[0]];
      (WithConfig(s, ids[0], c.(installed := true, installing := false, dispatchedAt := None)), Done([]))
  }

  function ReportState(s: State, r: Report): (State, Reply) {
    if !Accepts(s, r.host) then (s, Refused)
    else if r.kind == INSTALL_CONFIG then
      if r.id == 0 then
        if r.detected.Some? then DetectState(s, r.host, r.detected.value) else (s, Done([]))
      else if r.id in s.configs.rows && s.configs.rows[r.id].host == r.host then
        (WithConfig(s, r.id, s.configs.rows[r.id].(installed := r.status == SUCCESS, installing := false)), Done([]))
      else (s, Refused)
    else if r.id in s.commands.rows && s.commands.rows[r.id].host == r.host then
      (WithCommand(s, r.id, s.commands.rows[r.id].(status := r.status)), Done([]))
    else (s, Refused)
  }

  /** A host is registered under the row that has its address, or under a new one. */
  function RegisterState(s: State, h: HostId, autoApprove: bool): (State, Reply) {
    if h in s.hosts && s.hosts[h].online == ONLINE then (s, Refused)
    else (s.(hosts := s.hosts[h := Host(if autoApprove then APPROVED else 0, OFFLINE, None)]), Done([]))
  }

  function DeregisterState(s: State, h: HostId): (State, Reply) {
    if h !in s.hosts then (s, Refused)
    else (s.(hosts := s.hosts[h := s.hosts[h].(online := OFFLINE)]), Done([]))
  }

  predicate TimedOut(host: Host, now: int) {
    && host.online == ONLINE && host.status == APPROVED
    && host.lastHeartbeat.Some? && host.lastHeartbeat.value < now - OFFLINE_AFTER_SECONDS
  }

  function SweepState(s: State, now: int): State {
    s.(hosts := map h | h in s.hosts ::
      if TimedOut(s.hosts[h], now) then s.hosts[h].(online := OFFLINE) else s.hosts[h])
  }
}
