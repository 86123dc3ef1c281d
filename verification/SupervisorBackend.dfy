/**
 The server side of the supervisor protocol: one object holding the tables, one
 method per request.  A heartbeat runs its phases over whole tables, in the
 server's order; each method is proved to do exactly what `SupervisorModel`
 says row by row.
 */
module SupervisorBackend {
  import opened Wrappers
  import opened SupervisorModel
  import opened SupervisorMeaning

  class Backend {
    var hosts: map<HostId, Host>
    var programs: map<(HostId, string), Program>
    var configs: Table<InstallConfig>
    var commands: Table<ProgramCommand>
    var logs: Table<LogCommand>

    ghost function Value(): State
      reads this
    {
      State(hosts, programs, configs, commands, logs)
    }

    constructor ()
      ensures Value() == State(map[], map[], Table(map[], []), Table(map[], []), Table(map[], []))
    {
      hosts, programs := map[], map[];
      configs, commands, logs := Table(map[], []), Table(map[], []), Table(map[], []);
    }

    method Heartbeat(b: Beat, now: int) returns (reply: Reply)
      requires Value().TablesOk()
      modifies this
      ensures !old(Accepts(Value(), b.host)) ==> reply == Refused && Value() == old(Value())
      ensures old(Accepts(Value(), b.host)) ==>
        && Value() == old(BeatState(Value(), b, now))
        && reply == Done(old(BeatCommands(Value(), b, now)))
      ensures reply == Refused <==> !(b.host in old(hosts) && old(hosts)[b.host].status == 1)
      ensures reply != Refused ==> BeatMeans(old(Value()), b, now, Value(), reply.commands)
    {
      if b.host !in hosts || hosts[b.host].status != APPROVED {
        return Refused;
      }
      Settle(b, now);
      ghost var settled := Value();
      var commands := HandOut(b.host, now);
      DispatchedByRow(old(Value()), settled, Value(), b, now);
      BeatIsMeant(old(Value()), b, now);
      reply := Done(commands);
    }

    method HandOut(h: HostId, now: int) returns (out: seq<Dispatch>)
      requires Value().TablesOk()
      modifies this`configs, this`commands, this`logs
      ensures configs == old(Table(map id | id in configs.rows :: MarkConfig(h, now, configs.rows[id]), configs.order))
      ensures commands == old(Table(
        map id | id in commands.rows :: DispatchCommand(h, now, programs, commands.rows[id]), commands.order))
      ensures logs == old(Table(map id | id in logs.rows :: MarkLog(h, now, logs.rows[id]), logs.order))
      ensures out == old(Listed(configs.order, Installs(h, configs.rows)) +
                         Listed(commands.order, Runs(h, commands.rows, programs)) +
                         Listed(logs.order, Collects(h, logs.rows)))
    {
      var installs := DispatchInstalls(h, now);
      var runs := DispatchRuns(h, now);
      var collects := DispatchLogs(h, now);
      out := installs + runs + collects;
    }

    /** Everything a heartbeat does before it looks for work to hand out. */
    method Settle(b: Beat, now: int)
      requires Accepts(Value(), b.host)
      modifies this
      ensures configs.order == old(configs.order) && commands.order == old(commands.order) && logs == old(logs)
      ensures configs.rows == old(SettledConfigs(Value(), b, now))
      ensures commands.rows == old(SettledCommands(Value(), b, now))
      ensures programs == old(BeatPrograms(programs, b, now))
      ensures hosts == old(hosts)[b.host := old(hosts)[b.host].(online := ONLINE, lastHeartbeat := Some(now))]
    {
      ghost var c0, k0 := configs.rows, commands.rows;
      var recovering := hosts[b.host].online != ONLINE;
      if recovering {
        ResetStuck(b.host);
      }
      ghost var c1, k1 := configs.rows, commands.rows;
      hosts := hosts[b.host := hosts[b.host].(online := ONLINE, lastHeartbeat := Some(now))];
      var reported := RecordPrograms(b, now);
      SyncInstalled(b.host, reported);
      ghost var c2 := configs.rows;
      if recovering {
        ResetStuck(b.host);
      }
      ghost var c3, k3 := configs.rows, commands.rows;
      KeepExecuting(b, now);
      ConfigsByPhases(c0, c1, c2, c3, configs.rows, recovering, b, now);
      CommandsByPhases(k0, k1, k3, commands.rows, recovering, b, now);
    }

    /** Offline recovery: forget the hand-outs whose outcome is unknown. */
    method ResetStuck(h: HostId)
      modifies this`configs, this`commands
      ensures configs.order == old(configs.order) && commands.order == old(commands.order)
      ensures configs.rows == old(map id | id in configs.rows :: UnstickConfig(h, configs.rows[id]))
      ensures commands.rows == old(map id | id in commands.rows :: UnstickCommand(h, commands.rows[id]))
    {
      configs := configs.(rows := map id | id in configs.rows :: UnstickConfig(h, configs.rows[id]));
      commands := commands.(rows := map id | id in commands.rows :: UnstickCommand(h, commands.rows[id]));
    }

    method RecordPrograms(b: Beat, now: int) returns (reported: set<string>)
      modifies this`programs
      ensures reported == Reported(b.programs)
      ensures programs == old(BeatPrograms(programs, b, now))
    {
      reported := {};
      for i := 0 to |b.programs|
        invariant reported == Reported(b.programs[..i])
        invariant programs == Overlay(old(programs), b.host, b.programs[..i], now)
      {
        var e := b.programs[i];
        assert b.programs[..i + 1][..i] == b.programs[..i];
        ReportedSnoc(b.programs[..i], e);
        assert b.programs[..i + 1] == b.programs[..i] + [e];
        if e.name != "" {
          reported := reported + {e.name};
          programs := programs[(b.host, e.name) := FromEntry(e, now)];
        }
      }
      assert b.programs[..|b.programs|] == b.programs;
      programs := StopUnreported(programs, b.host, reported, now);
    }

    /** Only a heartbeat that reports some program can un-install the others. */
    method SyncInstalled(h: HostId, reported: set<string>)
      modifies this`configs
      ensures configs.order == old(configs.order)
      ensures configs.rows == old(map id | id in configs.rows :: SyncConfig(h, reported, configs.rows[id]))
    {
      if reported != {} {
        configs := configs.(rows := map id | id in configs.rows :: SyncConfig(h, reported, configs.rows[id]));
      } else {
        assert configs.rows == map id | id in configs.rows :: SyncConfig(h, reported, configs.rows[id]);
      }
    }

    method KeepExecuting(b: Beat, now: int)
      modifies this`configs, this`commands
      ensures configs.order == old(configs.order) && commands.order == old(commands.order)
      ensures configs.rows == old(map id | id in configs.rows ::
        KeepConfig(b.host, Keeps(b.executing, id, true), now, configs.rows[id]))
      ensures commands.rows == old(map id | id in commands.rows ::
        KeepCommand(b.host, Keeps(b.executing, id, false), now, commands.rows[id]))
    {
      var i := 0;
      while i < |b.executing|
        invariant 0 <= i <= |b.executing|
        invariant configs.order == old(configs.order) && commands.order == old(commands.order)
        invariant configs.rows.Keys == old(configs.rows.Keys) && commands.rows.Keys == old(commands.rows.Keys)
        invariant forall id :: id in configs.rows ==>
          configs.rows[id] == KeepConfig(b.host, Keeps(b.executing[..i], id, true), now, old(configs.rows)[id])
        invariant forall id :: id in commands.rows ==>
          commands.rows[id] == KeepCommand(b.host, Keeps(b.executing[..i], id, false), now, old(commands.rows)[id])
      {
        var r := b.executing[i];
        assert b.executing[..i + 1] == b.executing[..i] + [r];
        KeepsSnoc(b.executing[..i], r, true);
        KeepsSnoc(b.executing[..i], r, false);
        if r.id != 0 && r.kind != "" {
          if r.kind == INSTALL_CONFIG {
            if r.id in configs.rows && configs.rows[r.id].host == b.host && Active(r.state) {
              var c := configs.rows[r.id].(installing := true, dispatchedAt := Some(now));
              configs := configs.(rows := configs.rows[r.id := c]);
            }
          } else {
            if r.id in commands.rows && commands.rows[r.id].host == b.host && Active(r.state) {
              var k := commands.rows[r.id].(dispatched := true, dispatchedAt := Some(now));
              commands := commands.(rows := commands.rows[r.id := k]);
            }
          }
        }
        i := i + 1;
      }
      assert b.executing[..i] == b.executing;
    }

    method DispatchInstalls(h: HostId, now: int) returns (out: seq<Dispatch>)
      requires configs.Ok()
      modifies this`configs
      ensures configs.order == old(configs.order)
      ensures configs.rows == old(map id | id in configs.rows :: MarkConfig(h, now, configs.rows[id]))
      ensures out == old(Listed(configs.order, Installs(h, configs.rows)))
    {
      var before := configs.rows;
      configs := configs.(rows := map id | id in before :: MarkConfig(h, now, before[id]));
      out := [];
      for i := 0 to |configs.order|
        invariant out == Listed(configs.order[..i], Installs(h, before))
      {
        var id := configs.order[i];
        assert configs.order[..i + 1][..i] == configs.order[..i];
        if InstallPending(h, before[id]) {
          out := out + [InstallOf(id, configs.rows[id])];
        }
      }
      assert configs.order[..|configs.order|] == configs.order;
    }

    /** Pending commands are all marked first; the loop unmarks those it must hold back. */
    method DispatchRuns(h: HostId, now: int) returns (out: seq<Dispatch>)
      requires commands.Ok()
      modifies this`commands
      ensures commands.order == old(commands.order)
      ensures commands.rows == old(map id | id in commands.rows ::
        DispatchCommand(h, now, programs, commands.rows[id]))
      ensures out == old(Listed(commands.order, Runs(h, commands.rows, programs)))
    {
      var rows;
      out, rows := HoldBack(h, now, commands, programs);
      commands := commands.(rows := rows);
    }

    method DispatchLogs(h: HostId, now: int) returns (out: seq<Dispatch>)
      requires logs.Ok()
      modifies this`logs
      ensures logs.order == old(logs.order)
      ensures logs.rows == old(map id | id in logs.rows :: MarkLog(h, now, logs.rows[id]))
      ensures out == old(Listed(logs.order, Collects(h, logs.rows)))
    {
      var before := logs.rows;
      logs := logs.(rows := map id | id in before :: MarkLog(h, now, before[id]));
      out := [];
      for i := 0 to |logs.order|
        invariant out == Listed(logs.order[..i], Collects(h, before))
      {
        var id := logs.order[i];
        assert logs.order[..i + 1][..i] == logs.order[..i];
        if LogPending(h, before[id]) {
          out := out + [CollectOf(id, logs.rows[id])];
        }
      }
      assert logs.order[..|logs.order|] == logs.order;
    }

    method ReportCommandResult(r: Report) returns (reply: Reply)
      modifies this`configs, this`commands
      ensures (Value(), reply) == old(ReportState(Value(), r))
      ensures old(Value().TablesOk()) ==> ReportMeans(old(Value()), r, Value(), reply)
    {
      ghost var s := Value();
      if s.TablesOk() {
        ReportIsMeant(s, r);
      }
      if r.host !in hosts || hosts[r.host].status != APPROVED {
        return Refused;
      }
      if r.kind == INSTALL_CONFIG {
        if r.id == 0 {
          if r.detected.Some? {
            reply := MarkDetected(r.host, r.detected.value);
          } else {
            reply := Done([]);
          }
        } else if r.id in configs.rows && configs.rows[r.id].host == r.host {
          var c := configs.rows[r.id].(installed := r.status == SUCCESS, installing := false);
          configs := configs.(rows := configs.rows[r.id := c]);
          reply := Done([]);
        } else {
          reply := Refused;
        }
      } else if r.id in commands.rows && commands.rows[r.id].host == r.host {
        commands := commands.(rows := commands.rows[r.id := commands.rows[r.id].(status := r.status)]);
        reply := Done([]);
      } else {
        reply := Refused;
      }
    }

    method MarkDetected(h: HostId, program: string) returns (reply: Reply)
      modifies this`configs
      ensures (Value(), reply) == old(DetectState(Value(), h, program))
      ensures old(configs.Ok()) ==> DetectionMeans(old(Value()), h, program, Value(), reply)
    {
      ghost var s := Value();
      if s.configs.Ok() {
        DetectionShape(s, h, program);
      }
      var ids := [];
      for i := 0 to |configs.order|
        invariant ids == Matches(h, program, configs.rows, configs.order[..i])
        invariant forall id :: id in ids ==> id in configs.rows
      {
        var id := configs.order[i];
        assert configs.order[..i + 1][..i] == configs.order[..i];
        if id in configs.rows && Detectable(h, program, configs.rows[id]) {
          ids := ids + [id];
        }
      }
      assert configs.order[..|configs.order|] == configs.order;
      if ids == [] {
        reply := Done([]);
      } else if |ids| > 1 {
        reply := Refused;
      } else {
        var id := ids[0];
        var c := configs.rows[id].(installed := true, installing := false, dispatchedAt := None);
        configs := configs.(rows := configs.rows[id := c]);
        reply := Done([]);
      }
    }

    method Register(h: HostId, autoApprove: bool) returns (reply: Reply)
      modifies this`hosts
      ensures (Value(), reply) == old(RegisterState(Value(), h, autoApprove))
      ensures reply == Refused <==> h in old(hosts) && old(hosts)[h].online == 1
      ensures reply == Refused ==> hosts == old(hosts)
      ensures reply != Refused ==> h in hosts && hosts[h] == Host(if autoApprove then 1 else 0, 0, None)
      ensures reply != Refused ==> (Recovers(Value(), h) <==> autoApprove) && (Accepts(Value(), h) <==> autoApprove)
      ensures forall g :: g != h ==> (g in hosts <==> g in old(hosts)) && (g in hosts ==> hosts[g] == old(hosts)[g])
    {
      if h in hosts && hosts[h].online == ONLINE {
        return Refused;
      }
      hosts := hosts[h := Host(if autoApprove then APPROVED else 0, OFFLINE, None)];
      reply := Done([]);
    }

    method Deregister(h: HostId) returns (reply: Reply)
      modifies this`hosts
      ensures (Value(), reply) == old(DeregisterState(Value(), h))
      ensures hosts.Keys == old(hosts.Keys) && (reply == Refused <==> h !in hosts)
      ensures Accepts(Value(), h) == old(Accepts(Value(), h)) == Recovers(Value(), h)
      ensures forall g :: g in hosts ==>
        hosts[g] == if g == h then Host(old(hosts)[g].status, 0, old(hosts)[g].lastHeartbeat) else old(hosts)[g]
    {
      if h !in hosts {
        return Refused;
      }
      hosts := hosts[h := hosts[h].(online := OFFLINE)];
      reply := Done([]);
    }

    method CheckHeartbeatTimeout(now: int) returns (offlineCount: nat)
      modifies this`hosts
      ensures Value() == old(SweepState(Value(), now))
      ensures hosts.Keys == old(hosts.Keys)
      ensures forall h :: h in hosts ==>
        hosts[h] == if Overdue(old(hosts)[h], now) then Host(1, 0, old(hosts)[h].lastHeartbeat) else old(hosts)[h]
      ensures offlineCount == |set h | h in old(hosts) && Overdue(old(hosts)[h], now)|
      ensures forall h :: h in hosts ==> !Overdue(hosts[h], now)
      ensures forall h :: h in hosts && Overdue(old(hosts)[h], now) ==> Recovers(Value(), h)
    {
      var stale := set h | h in hosts && TimedOut(hosts[h], now);
      assert stale == set h | h in hosts && Overdue(hosts[h], now);
      offlineCount := |stale|;
      hosts := map h | h in hosts :: if h in stale then hosts[h].(online := OFFLINE) else hosts[h];
    }
  }

  method HoldBack(h: HostId, now: int, t: Table<ProgramCommand>, programs: map<(HostId, string), Program>)
    returns (out: seq<Dispatch>, rows: map<int, ProgramCommand>)
    requires t.Ok()
    ensures rows == map id | id in t.rows :: DispatchCommand(h, now, programs, t.rows[id])
    ensures out == Listed(t.order, Runs(h, t.rows, programs))
  {
    var pending := set id | id in t.rows && CommandPending(h, t.rows[id]);
    var marked := map id | id in t.rows :: MarkCommand(h, now, t.rows[id]);
    ghost var final := map id | id in t.rows :: DispatchCommand(h, now, programs, t.rows[id]);
    forall id | id in t.rows && id in pending
      ensures final[id] == if Blocked(marked[id], programs) then Unmark(marked[id]) else marked[id]
      ensures id in Runs(h, t.rows, programs) <==> !Blocked(marked[id], programs)
      ensures id in Runs(h, t.rows, programs) ==> Runs(h, t.rows, programs)[id] == RunOf(id, marked[id])
    {
      MarkedThenUnmarked(h, now, programs, id, t.rows[id]);
    }
    out, rows := RunPending(t.order, pending, marked, programs, final, Runs(h, t.rows, programs));
    assert rows == final by {
      forall id | id in t.rows ensures rows[id] == final[id] {
        assert id in t.order;
        var j :| 0 <= j < |t.order| && t.order[j] == id;
      }
    }
  }

  function Unmark(k: ProgramCommand): ProgramCommand {
    k.(dispatched := false, dispatchedAt := None)
  }

  /** The loop over the pending commands, from the table in which they are all marked. */
  method RunPending(order: seq<int>, pending: set<int>, marked: map<int, ProgramCommand>,
                    programs: map<(HostId, string), Program>,
                    ghost final: map<int, ProgramCommand>, ghost runs: map<int, Dispatch>)
    returns (out: seq<Dispatch>, rows: map<int, ProgramCommand>)
    requires forall i, j :: 0 <= i < j < |order| ==> order[i] != order[j]
    requires forall i :: 0 <= i < |order| ==> order[i] in marked
    requires final.Keys == marked.Keys
    requires forall id :: id in marked && id !in pending ==> final[id] == marked[id] && id !in runs
    requires forall id :: id in marked && id in pending ==>
      && final[id] == (if Blocked(marked[id], programs) then Unmark(marked[id]) else marked[id])
      && (id in runs <==> !Blocked(marked[id], programs))
      && (id in runs ==> runs[id] == RunOf(id, marked[id]))
    ensures rows.Keys == marked.Keys
    ensures forall j :: 0 <= j < |order| ==> rows[order[j]] == final[order[j]]
    ensures out == Listed(order, runs)
  {
    rows := marked;
    out := [];
    for i := 0 to |order|
      invariant rows.Keys == marked.Keys
      invariant out == Listed(order[..i], runs)
      invariant forall j :: 0 <= j < i ==> rows[order[j]] == final[order[j]]
      invariant forall j :: i <= j < |order| ==> rows[order[j]] == marked[order[j]]
    {
      var id := order[i];
      assert order[..i + 1][..i] == order[..i];
      if id in pending {
        if Blocked(rows[id], programs) {
          rows := rows[id := Unmark(rows[id])];
        } else {
          out := out + [RunOf(id, rows[id])];
        }
      }
    }
    assert order[..|order|] == order;
  }

  lemma MarkedThenUnmarked(h: HostId, now: int, programs: map<(HostId, string), Program>, id: int, k: ProgramCommand)
    requires CommandPending(h, k)
    ensures var m := MarkCommand(h, now, k);
      && Blocked(m, programs) == Blocked(k, programs) && RunOf(id, m) == RunOf(id, k)
      && DispatchCommand(h, now, programs, k) ==
         if Blocked(m, programs) then Unmark(m) else m
  {
  }

  lemma ReportedSnoc(entries: seq<Entry>, e: Entry)
    ensures Reported(entries + [e]) == Reported(entries) + if e.name != "" then {e.name} else {}
  {
    var all := entries + [e];
    forall x | x in entries ensures x in all {
      var i :| 0 <= i < |entries| && entries[i] == x;
      assert all[i] == x;
    }
    assert all[|entries|] == e;
  }

  lemma KeepsSnoc(executing: seq<Running>, r: Running, install: bool)
    ensures forall id {:trigger Keeps(executing + [r], id, install)} ::
      Keeps(executing + [r], id, install) <==> Keeps(executing, id, install) || Names(r, id, install)
  {
    var all := executing + [r];
    forall id
      ensures Keeps(all, id, install) <==> Keeps(executing, id, install) || Names(r, id, install)
    {
      assert all[|executing|] == r;
      if Keeps(executing, id, install) {
        var i :| 0 <= i < |executing| && Names(executing[i], id, install);
        assert all[i] == executing[i];
      }
    }
  }

  /** The phases before dispatching, applied one table at a time, give the row-wise value. */
  lemma ConfigsByPhases(c0: map<int, InstallConfig>, c1: map<int, InstallConfig>, c2: map<int, InstallConfig>,
                        c3: map<int, InstallConfig>, c4: map<int, InstallConfig>, rec: bool, b: Beat, now: int)
    requires c1 == if rec then map id | id in c0 :: UnstickConfig(b.host, c0[id]) else c0
    requires c2 == map id | id in c1 :: SyncConfig(b.host, Reported(b.programs), c1[id])
    requires c3 == if rec then map id | id in c2 :: UnstickConfig(b.host, c2[id]) else c2
    requires c4 == map id | id in c3 :: KeepConfig(b.host, Keeps(b.executing, id, true), now, c3[id])
    ensures c4 == map id | id in c0 :: SettledConfig(b, rec, now, id, c0[id])
  {
  }

  /** Resetting the commands twice is the same as resetting them once. */
  lemma CommandsByPhases(k0: map<int, ProgramCommand>, k1: map<int, ProgramCommand>, k3: map<int, ProgramCommand>,
                         k4: map<int, ProgramCommand>, rec: bool, b: Beat, now: int)
    requires k1 == if rec then map id | id in k0 :: UnstickCommand(b.host, k0[id]) else k0
    requires k3 == if rec then map id | id in k1 :: UnstickCommand(b.host, k1[id]) else k1
    requires k4 == map id | id in k3 :: KeepCommand(b.host, Keeps(b.executing, id, false), now, k3[id])
    ensures k4 == map id | id in k0 :: SettledCommand(b, rec, now, id, k0[id])
  {
  }

  lemma DispatchedByRow(s: State, settled: State, t: State, b: Beat, now: int)
    requires Accepts(s, b.host)
    requires settled.configs.rows == SettledConfigs(s, b, now) && settled.commands.rows == SettledCommands(s, b, now)
    requires t.hosts == s.hosts[b.host := s.hosts[b.host].(online := ONLINE, lastHeartbeat := Some(now))]
    requires t.programs == BeatPrograms(s.programs, b, now)
    requires t.configs == Table(map id | id in settled.configs.rows ::
      MarkConfig(b.host, now, settled.configs.rows[id]), s.configs.order)
    requires t.commands == Table(map id | id in settled.commands.rows ::
      DispatchCommand(b.host, now, t.programs, settled.commands.rows[id]), s.commands.order)
    requires t.logs == Table(map id | id in s.logs.rows :: MarkLog(b.host, now, s.logs.rows[id]), s.logs.order)
    ensures t == BeatState(s, b, now)
  {
    var u := BeatState(s, b, now);
    assert t.configs.rows == u.configs.rows;
    assert t.commands.rows == u.commands.rows;
  }
}
