/** A script and its versions: creation, edits that may evict old versions, and rollback. */
module ScriptVersions {
  import opened Wrappers
  import opened VersionLabels

  const PENDING_APPROVAL := 2

  datatype Version = Version(id: nat, tag: string, content: string, isCurrent: bool)

  datatype Script = Script(content: string, currentVersion: string, status: int, versions: seq<Version>, nextId: nat)

  datatype Reply = Refused | Accepted

  datatype Step =
    /** `content`: the new content if the request has one; `allowed`: no other rule refuses the request. */
    | Update(content: Option<string>, allowed: bool, evicted: set<nat>)
    | Rollback(id: nat)
    /** The approval engine and other edits set the status. */
    | SetStatus(status: int)

  function Created(content: string): Script {
    Script(content, Label(1), 0, [Version(0, Label(1), content, true)], 1)
  }

  /** Eviction removes any versions but the current one. */
  function Evict(versions: seq<Version>, evicted: set<nat>): seq<Version> {
    if versions == [] then []
    else
      var before, v := Evict(versions[..|versions| - 1], evicted), versions[|versions| - 1];
      if !v.isCurrent && v.id in evicted then before else before + [v]
  }

  function Retire(versions: seq<Version>): seq<Version> {
    seq(|versions|, i requires 0 <= i < |versions| => versions[i].(isCurrent := false))
  }

  /** The greatest number among the labels, at least 1; unreadable labels are skipped. */
  function MaxNumber(versions: seq<Version>): nat {
    if versions == [] then 1
    else
      var before, num := MaxNumber(versions[..|versions| - 1]), NumberOf(versions[|versions| - 1].tag);
      if num.Some? && num.value > before then num.value else before
  }

  function NewVersion(s: Script, kept: seq<Version>, content: string): Script {
    var tag := Label(MaxNumber(Retire(kept)) + 1);
    s.(content := content, currentVersion := tag,
       versions := Retire(kept) + [Version(s.nextId, tag, content, true)], nextId := s.nextId + 1)
  }

  function UpdateStep(s: Script, content: Option<string>, allowed: bool, evicted: set<nat>): (Script, Reply) {
    if (s.status == PENDING_APPROVAL && content.Some?) || !allowed then (s, Refused)
    else if content.Some? && content.value != s.content
    then (NewVersion(s, Evict(s.versions, evicted), content.value), Accepted)
    else (s, Accepted)
  }

  function Find(versions: seq<Version>, id: nat): Option<Version> {
    if versions == [] then None
    else if versions[|versions| - 1].id == id then Some(versions[|versions| - 1])
    else Find(versions[..|versions| - 1], id)
  }

  function RollbackStep(s: Script, id: nat): (Script, Reply) {
    if s.status == PENDING_APPROVAL || Find(s.versions, id).None? then (s, Refused)
    else (NewVersion(s, s.versions, Find(s.versions, id).value.content), Accepted)
  }

  function Apply(s: Script, step: Step): Script {
    match step
    case Update(content, allowed, evicted) => UpdateStep(s, content, allowed, evicted).0
    case Rollback(id) => RollbackStep(s, id).0
    case SetStatus(status) => s.(status := status)
  }

  // ---------- what a request means ----------

  /** The label after the greatest number among the readable labels, which counts as at least 1. */
  ghost predicate NextTag(versions: seq<Version>, tag: string) {
    exists n: nat :: TagAfter(versions, n, tag)
  }

  ghost predicate TagAfter(versions: seq<Version>, n: nat, tag: string) {
    && n >= 1 && tag == "V" + Decimal(n + 1) + ".0"
    && (forall v :: v in versions && NumberOf(v.tag).Some? ==> NumberOf(v.tag).value <= n)
    && (n == 1 || exists v :: v in versions && NumberOf(v.tag) == Some(n))
  }

  /** The versions that stay, none of them current. */
  ghost predicate RetiredOf(versions: seq<Version>, evicted: set<nat>, retired: seq<Version>) {
    forall id, tag, content, current ::
      Version(id, tag, content, current) in retired <==>
      !current && (Version(id, tag, content, true) in versions
                   || (Version(id, tag, content, false) in versions && id !in evicted))
  }

  /** The content becomes the current version, under the next label; the versions before it are retired. */
  ghost predicate VersionAdded(s: Script, evicted: set<nat>, content: string, t: Script) {
    && t.content == content && t.status == s.status && t.nextId == s.nextId + 1 && t.versions != []
    && var retired := t.versions[..|t.versions| - 1];
    && t.versions[|t.versions| - 1] == Version(s.nextId, t.currentVersion, content, true)
    && RetiredOf(s.versions, evicted, retired) && NextTag(retired, t.currentVersion)
  }

  ghost predicate UpdateMeans(s: Script, content: Option<string>, allowed: bool, evicted: set<nat>, t: Script,
                              reply: Reply)
  {
    && (reply == Refused <==> (s.status == 2 && content.Some?) || !allowed)
    && (if reply == Accepted && content.Some? && content.value != s.content
        then VersionAdded(s, evicted, content.value, t) else t == s)
  }

  ghost predicate RollbackMeans(s: Script, id: nat, t: Script, reply: Reply) {
    && (reply == Accepted <==> s.status != 2 && exists v :: v in s.versions && v.id == id)
    && (if reply == Accepted
        then exists v :: v in s.versions && v.id == id && VersionAdded(s, {}, v.content, t)
        else t == s)
  }

  lemma {:induction false} MaxMeans(versions: seq<Version>)
    ensures TagAfter(versions, MaxNumber(versions), Label(MaxNumber(versions) + 1))
  {
    if versions != [] {
      MaxMeans(versions[..|versions| - 1]);
      assert versions == versions[..|versions| - 1] + [versions[|versions| - 1]];
    }
  }

  lemma RetireMembers(versions: seq<Version>, w: Version)
    ensures w in Retire(versions) <==> !w.isCurrent && (w in versions || w.(isCurrent := true) in versions)
  {
    if !w.isCurrent && (w in versions || w.(isCurrent := true) in versions) {
      var i :| 0 <= i < |versions| && versions[i].(isCurrent := false) == w;
      assert Retire(versions)[i] == w;
    }
    if w in Retire(versions) {
      var i :| 0 <= i < |versions| && Retire(versions)[i] == w;
      assert versions[i] in versions && versions[i] == w.(isCurrent := versions[i].isCurrent);
    }
  }

  lemma {:induction false} EvictKeeps(versions: seq<Version>, evicted: set<nat>)
    ensures forall v :: v in Evict(versions, evicted) <==> v in versions && (v.isCurrent || v.id !in evicted)
  {
    if versions != [] {
      EvictKeeps(versions[..|versions| - 1], evicted);
      assert versions == versions[..|versions| - 1] + [versions[|versions| - 1]];
    }
  }

  lemma NewVersionMeans(s: Script, evicted: set<nat>, kept: seq<Version>, content: string)
    requires forall v :: v in kept <==> v in s.versions && (v.isCurrent || v.id !in evicted)
    ensures VersionAdded(s, evicted, content, NewVersion(s, kept, content))
  {
    var t, retired := NewVersion(s, kept, content), Retire(kept);
    assert t.versions[..|t.versions| - 1] == retired;
    MaxMeans(retired);
    forall id, tag, c, current
      ensures Version(id, tag, c, current) in retired <==>
        !current && (Version(id, tag, c, true) in s.versions
                     || (Version(id, tag, c, false) in s.versions && id !in evicted))
    {
      RetireMembers(kept, Version(id, tag, c, current));
    }
  }

  lemma {:induction false} FindFinds(versions: seq<Version>, id: nat)
    ensures Find(versions, id).Some? ==> Find(versions, id).value in versions && Find(versions, id).value.id == id
    ensures Find(versions, id).None? ==> forall v :: v in versions ==> v.id != id
  {
    if versions != [] {
      FindFinds(versions[..|versions| - 1], id);
      assert versions == versions[..|versions| - 1] + [versions[|versions| - 1]];
    }
  }

  lemma UpdateIsMeant(s: Script, content: Option<string>, allowed: bool, evicted: set<nat>)
    ensures var (t, reply) := UpdateStep(s, content, allowed, evicted);
      UpdateMeans(s, content, allowed, evicted, t, reply)
  {
    if content.Some? {
      EvictKeeps(s.versions, evicted);
      NewVersionMeans(s, evicted, Evict(s.versions, evicted), content.value);
    }
  }

  lemma RollbackIsMeant(s: Script, id: nat)
    ensures var (t, reply) := RollbackStep(s, id); RollbackMeans(s, id, t, reply)
  {
    FindFinds(s.versions, id);
    if Find(s.versions, id).Some? {
      NewVersionMeans(s, {}, s.versions, Find(s.versions, id).value.content);
    }
  }

  // ---------- the handlers ----------

  class ScriptRecord {
    var content: string
    var currentVersion: string
    var status: int
    var versions: seq<Version>
    var nextId: nat

    ghost function Value(): Script
      reads this
    {
      Script(content, currentVersion, status, versions, nextId)
    }

    constructor (content: string)
      ensures Value() == Created(content)
      ensures Value() == Script(content, "V1.0", 0, [Version(0, "V1.0", content, true)], 1)
    {
      this.content, this.currentVersion, this.status := content, Label(1), 0;
      this.versions, this.nextId := [Version(0, Label(1), content, true)], 1;
    }

    /** Next number after the greatest one in use. */
    method NextLabel() returns (tag: string)
      ensures tag == Label(MaxNumber(versions) + 1) && NextTag(versions, tag)
    {
      MaxMeans(versions);
      var max := 1;
      for i := 0 to |versions|
        invariant max == MaxNumber(versions[..i])
      {
        assert versions[..i + 1][..i] == versions[..i];
        var num := NumberOf(versions[i].tag);
        if num.Some? && num.value > max {
          max := num.value;
        }
      }
      assert versions[..|versions|] == versions;
      tag := Label(max + 1);
    }

    method AddVersion(newContent: string)
      modifies this
      ensures Value() == old(NewVersion(Value(), versions, newContent))
    {
      versions := Retire(versions);
      var tag := NextLabel();
      content, currentVersion := newContent, tag;
      versions := versions + [Version(nextId, tag, newContent, true)];
      nextId := nextId + 1;
    }

    method PerformUpdate(newContent: Option<string>, allowed: bool, evicted: set<nat>) returns (reply: Reply)
      modifies this
      ensures (Value(), reply) == old(UpdateStep(Value(), newContent, allowed, evicted))
      ensures UpdateMeans(old(Value()), newContent, allowed, evicted, Value(), reply)
    {
      UpdateIsMeant(Value(), newContent, allowed, evicted);
      if (status == PENDING_APPROVAL && newContent.Some?) || !allowed {
        return Refused;
      }
      if newContent.Some? && newContent.value != content {
        EvictVersions(evicted);
        AddVersion(newContent.value);
      }
      reply := Accepted;
    }

    method EvictVersions(evicted: set<nat>)
      modifies this`versions
      ensures versions == old(Evict(versions, evicted))
    {
      var kept := [];
      for i := 0 to |versions|
        invariant kept == Evict(versions[..i], evicted)
      {
        assert versions[..i + 1][..i] == versions[..i];
        if versions[i].isCurrent || versions[i].id !in evicted {
          kept := kept + [versions[i]];
        }
      }
      assert versions[..|versions|] == versions;
      versions := kept;
    }

    method RollbackVersion(id: nat) returns (reply: Reply)
      modifies this
      ensures (Value(), reply) == old(RollbackStep(Value(), id))
      ensures RollbackMeans(old(Value()), id, Value(), reply)
    {
      RollbackIsMeant(Value(), id);
      if status == PENDING_APPROVAL {
        return Refused;
      }
      var found := Find(versions, id);
      if found.None? {
        return Refused;
      }
      AddVersion(found.value.content);
      reply := Accepted;
    }
  }
}
