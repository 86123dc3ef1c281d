/** Runs of a script's versions, against the full history of what was ever created. */
module ScriptHistory {
  import opened Wrappers
  import opened VersionLabels
  import opened ScriptVersions

  datatype Entry = Entry(tag: string, content: string)

  function Exec(content: string, steps: seq<Step>): Script {
    if steps == [] then Created(content)
    else Apply(Exec(content, steps[..|steps| - 1]), steps[|steps| - 1])
  }

  /** The step creates a version. */
  predicate Creates(s: Script, step: Step) {
    match step
    case Update(content, allowed, _) =>
      allowed && s.status != PENDING_APPROVAL && content.Some? && content.value != s.content
    case Rollback(id) => s.status != PENDING_APPROVAL && Find(s.versions, id).Some?
    case SetStatus(_) => false
  }

  /** Label and content of the script each time a version was created, first to last. */
  function History(content: string, steps: seq<Step>): seq<Entry> {
    if steps == [] then [Entry(Label(1), content)]
    else
      var init := steps[..|steps| - 1];
      var before, s := History(content, init), Exec(content, steps);
      if Creates(Exec(content, init), steps[|steps| - 1]) then before + [Entry(s.currentVersion, s.content)] else before
  }

  /** The version is the `k`-th that was ever created, unchanged. */
  ghost predicate Recorded(v: Version, history: seq<Entry>, k: int) {
    0 <= k < |history| && history[k] == Entry(v.tag, v.content)
  }

  /** Ids grow along the list and no two versions share a label. */
  ghost predicate Separate(versions: seq<Version>) {
    forall i, j :: 0 <= i < j < |versions| ==> versions[i].id < versions[j].id && versions[i].tag != versions[j].tag
  }

  ghost predicate Numbered(history: seq<Entry>) {
    forall k :: 0 <= k < |history| ==> history[k].tag == Label(k + 1)
  }

  /**
   The history is numbered 1, 2, ... without gaps; the script is its last entry; every version
   kept is an entry of the history, and exactly the one with the script's label is current.
   */
  ghost predicate Consistent(s: Script, history: seq<Entry>) {
    && history != [] && Numbered(history)
    && history[|history| - 1] == Entry(s.currentVersion, s.content)
    && (forall v :: v in s.versions ==> Known(v, history) && v.id < s.nextId)
    && (forall v :: v in s.versions ==> (v.isCurrent <==> v.tag == s.currentVersion))
    && (exists v :: v in s.versions && v.isCurrent)
    && Separate(s.versions)
  }

  ghost predicate Known(v: Version, history: seq<Entry>) {
    exists k :: Recorded(v, history, k)
  }

  lemma LabelsDiffer(m: nat, n: nat)
    ensures Label(m) == Label(n) <==> m == n
  {
    LabelReadsBack(m);
    LabelReadsBack(n);
  }

  lemma KnownNumber(v: Version, history: seq<Entry>)
    requires Known(v, history) && Numbered(history)
    ensures NumberOf(v.tag).Some? && 1 <= NumberOf(v.tag).value <= |history|
    ensures v.tag == Label(NumberOf(v.tag).value)
  {
    var k :| Recorded(v, history, k);
    LabelReadsBack(k + 1);
  }

  lemma {:induction false} EvictSeparate(versions: seq<Version>, evicted: set<nat>)
    requires Separate(versions)
    ensures Separate(Evict(versions, evicted))
  {
    if versions != [] {
      var init, last := versions[..|versions| - 1], versions[|versions| - 1];
      EvictSeparate(init, evicted);
      EvictKeeps(init, evicted);
      var before := Evict(init, evicted);
      forall i | 0 <= i < |before| ensures before[i].id < last.id && before[i].tag != last.tag {
        assert before[i] in init;
        var n :| 0 <= n < |init| && init[n] == before[i];
        assert versions[n] == init[n];
      }
    }
  }

  /** The greatest number among versions of the history that include its last entry. */
  lemma {:induction false} MaxIs(versions: seq<Version>, m: nat)
    requires m >= 1
    requires forall i :: 0 <= i < |versions| ==> NumberOf(versions[i].tag).Some? && NumberOf(versions[i].tag).value <= m
    ensures MaxNumber(versions) <= m
    ensures (exists i :: 0 <= i < |versions| && NumberOf(versions[i].tag) == Some(m)) ==> MaxNumber(versions) == m
  {
    if versions != [] {
      MaxIs(versions[..|versions| - 1], m);
    }
  }

  /** The next label is the one after the whole history, whatever was evicted. */
  lemma NextNumber(s: Script, kept: seq<Version>, history: seq<Entry>)
    requires Consistent(s, history)
    requires forall v :: v in kept ==> v in s.versions
    requires exists v :: v in kept && v.isCurrent
    ensures MaxNumber(Retire(kept)) == |history|
  {
    var retired := Retire(kept);
    forall i | 0 <= i < |retired|
      ensures NumberOf(retired[i].tag).Some? && NumberOf(retired[i].tag).value <= |history|
    {
      assert kept[i] in kept;
      KnownNumber(kept[i], history);
    }
    MaxIs(retired, |history|);
    var v :| v in kept && v.isCurrent;
    var i :| 0 <= i < |kept| && kept[i] == v;
    LabelReadsBack(|history|);
    assert NumberOf(retired[i].tag) == Some(|history|);
  }

  lemma RetireKeeps(versions: seq<Version>)
    ensures forall w :: w in Retire(versions) ==>
      !w.isCurrent && exists v :: v in versions && w == v.(isCurrent := false)
    ensures Separate(versions) ==> Separate(Retire(versions))
  {
    forall w | w in Retire(versions) ensures !w.isCurrent && exists v :: v in versions && w == v.(isCurrent := false) {
      var i :| 0 <= i < |versions| && Retire(versions)[i] == w;
      assert versions[i] in versions;
    }
  }

  lemma KnownLater(v: Version, history: seq<Entry>, e: Entry)
    requires Known(v, history)
    ensures Known(v.(isCurrent := false), history + [e])
  {
    var k :| Recorded(v, history, k);
    assert Recorded(v.(isCurrent := false), history + [e], k);
  }

  lemma RetiredAreOlder(s: Script, kept: seq<Version>, history: seq<Entry>, e: Entry)
    requires Consistent(s, history) && forall v :: v in kept ==> v in s.versions
    ensures forall w :: w in Retire(kept) ==>
      Known(w, history + [e]) && w.id < s.nextId && w.tag != Label(|history| + 1)
  {
    RetireKeeps(kept);
    forall w | w in Retire(kept) ensures Known(w, history + [e]) && w.id < s.nextId && w.tag != Label(|history| + 1) {
      var v :| v in kept && w == v.(isCurrent := false);
      KnownLater(v, history, e);
      KnownNumber(v, history);
      LabelsDiffer(NumberOf(v.tag).value, |history| + 1);
    }
  }

  lemma NewVersionConsistent(s: Script, kept: seq<Version>, content: string, history: seq<Entry>)
    requires Consistent(s, history) && Separate(kept)
    requires forall v :: v in kept ==> v in s.versions
    requires exists v :: v in kept && v.isCurrent
    ensures var t := NewVersion(s, kept, content);
      && t.currentVersion == Label(|history| + 1)
      && Consistent(t, history + [Entry(t.currentVersion, content)])
  {
    NextNumber(s, kept, history);
    var t := NewVersion(s, kept, content);
    var e := Entry(t.currentVersion, content);
    RetireKeeps(kept);
    RetiredAreOlder(s, kept, history, e);
    AppendConsistent(t, Retire(kept), Version(s.nextId, t.currentVersion, content, true), history + [e]);
  }

  lemma AppendConsistent(t: Script, retired: seq<Version>, added: Version, history: seq<Entry>)
    requires t.versions == retired + [added] && added.isCurrent && added.id < t.nextId
    requires added.tag == t.currentVersion && added.content == t.content
    requires history != [] && Numbered(history) && history[|history| - 1] == Entry(added.tag, added.content)
    requires Separate(retired)
    requires forall w :: w in retired ==> Known(w, history) && w.id < added.id && w.tag != added.tag && !w.isCurrent
    ensures Consistent(t, history)
  {
    assert Recorded(added, history, |history| - 1);
    assert forall w :: w in t.versions <==> w in retired || w == added;
    forall i, j | 0 <= i < j < |t.versions|
      ensures t.versions[i].id < t.versions[j].id && t.versions[i].tag != t.versions[j].tag
    {
      assert t.versions[i] == retired[i] && retired[i] in retired;
    }
  }

  lemma ConsistentStep(s: Script, step: Step, history: seq<Entry>)
    requires Consistent(s, history)
    ensures var t := Apply(s, step);
      Consistent(t, if Creates(s, step) then history + [Entry(t.currentVersion, t.content)] else history)
  {
    match step
    case Update(content, allowed, evicted) =>
      if Creates(s, step) {
        var kept := Evict(s.versions, evicted);
        EvictKeeps(s.versions, evicted);
        EvictSeparate(s.versions, evicted);
        var v :| v in s.versions && v.isCurrent;
        assert v in kept;
        NewVersionConsistent(s, kept, content.value, history);
      }
    case Rollback(id) =>
      if Creates(s, step) {
        NewVersionConsistent(s, s.versions, Find(s.versions, id).value.content, history);
      }
    case SetStatus(_) =>
  }

  /** In every run the script, its versions and the history agree. */
  lemma {:induction false} ConsistentThroughout(content: string, steps: seq<Step>)
    ensures Consistent(Exec(content, steps), History(content, steps))
  {
    if steps == [] {
      var v := Version(0, Label(1), content, true);
      assert Recorded(v, [Entry(Label(1), content)], 0);
      assert v in Created(content).versions;
    } else {
      var init := steps[..|steps| - 1];
      ConsistentThroughout(content, init);
      ConsistentStep(Exec(content, init), steps[|steps| - 1], History(content, init));
    }
  }

  /** Exactly one version is current; it carries the script's label and content, and the strictly greatest number. */
  lemma OneCurrentVersion(content: string, steps: seq<Step>)
    ensures var s := Exec(content, steps);
      exists c :: c in s.versions && c.isCurrent && c.tag == s.currentVersion && c.content == s.content
        && NumberOf(c.tag).Some?
        && forall v :: v in s.versions && v != c ==>
             !v.isCurrent && NumberOf(v.tag).Some? && NumberOf(v.tag).value < NumberOf(c.tag).value
  {
    var s, history := Exec(content, steps), History(content, steps);
    ConsistentThroughout(content, steps);
    var c :| c in s.versions && c.isCurrent;
    CurrentIsLast(s, history, c);
    forall v | v in s.versions && v != c
      ensures !v.isCurrent && NumberOf(v.tag).Some? && NumberOf(v.tag).value < NumberOf(c.tag).value
    {
      OthersAreOlder(s, history, c, v);
    }
  }

  lemma CurrentIsLast(s: Script, history: seq<Entry>, c: Version)
    requires Consistent(s, history) && c in s.versions && c.isCurrent
    ensures c.tag == s.currentVersion && c.content == s.content && NumberOf(c.tag) == Some(|history|)
  {
    var k :| Recorded(c, history, k);
    LabelsDiffer(k + 1, |history|);
    LabelReadsBack(|history|);
  }

  lemma OthersAreOlder(s: Script, history: seq<Entry>, c: Version, v: Version)
    requires Consistent(s, history) && c in s.versions && c.isCurrent && v in s.versions && v != c
    ensures !v.isCurrent && NumberOf(v.tag).Some? && NumberOf(v.tag).value < |history|
    ensures NumberOf(c.tag) == Some(|history|)
  {
    CurrentIsLast(s, history, c);
    KnownNumber(v, history);
    var i :| 0 <= i < |s.versions| && s.versions[i] == c;
    var j :| 0 <= j < |s.versions| && s.versions[j] == v;
    assert c.tag != v.tag;
  }

  /** No label is ever used twice in the life of a script, evicted versions included. */
  lemma LabelsNeverReused(content: string, steps: seq<Step>, i: nat, j: nat)
    requires i < j < |History(content, steps)|
    ensures History(content, steps)[i].tag != History(content, steps)[j].tag
  {
    ConsistentThroughout(content, steps);
    LabelsDiffer(i + 1, j + 1);
  }

  /** An accepted rollback restores the content recorded when the version's label was given out. */
  lemma RollbackRestores(content: string, steps: seq<Step>, id: nat)
    requires var s := Exec(content, steps); RollbackStep(s, id).1 == Accepted
    ensures var s, t := Exec(content, steps), RollbackStep(Exec(content, steps), id).0;
      exists v, k :: v in s.versions && v.id == id && Recorded(v, History(content, steps), k)
        && t.content == History(content, steps)[k].content
  {
    var s := Exec(content, steps);
    ConsistentThroughout(content, steps);
    FindFinds(s.versions, id);
    var v := Find(s.versions, id).value;
    var k :| Recorded(v, History(content, steps), k);
  }

  /** After an edit, rolling back to the version that was current before it brings the old content back. */
  lemma EditThenRollback(content: string, steps: seq<Step>, edited: string, evicted: set<nat>, c: Version)
    requires var s := Exec(content, steps);
      && s.status != PENDING_APPROVAL && c in s.versions && c.isCurrent && edited != s.content
    ensures var s := Exec(content, steps);
      var t := UpdateStep(s, Some(edited), true, evicted).0;
      && t.content == edited
      && RollbackStep(t, c.id).1 == Accepted
      && RollbackStep(t, c.id).0.content == s.content
  {
    ConsistentThroughout(content, steps);
    EditKeepsOldVersion(Exec(content, steps), History(content, steps), edited, evicted, c);
  }

  lemma EditKeepsOldVersion(s: Script, history: seq<Entry>, edited: string, evicted: set<nat>, c: Version)
    requires Consistent(s, history) && s.status != PENDING_APPROVAL && edited != s.content
    requires c in s.versions && c.isCurrent
    ensures var t := UpdateStep(s, Some(edited), true, evicted).0;
      t.content == edited && t.status == s.status
      && Find(t.versions, c.id).Some? && Find(t.versions, c.id).value.content == s.content
  {
    CurrentIsLast(s, history, c);
    ConsistentStep(s, Update(Some(edited), true, evicted), history);
    var t := UpdateStep(s, Some(edited), true, evicted).0;
    var kept := Evict(s.versions, evicted);
    EvictKeeps(s.versions, evicted);
    var i :| 0 <= i < |kept| && kept[i] == c;
    var w := t.versions[i];
    assert w == Retire(kept)[i] == c.(isCurrent := false) && w in t.versions;
    FindFinds(t.versions, c.id);
    SameIdSameVersion(t.versions, w, Find(t.versions, c.id).value);
  }

  lemma SameIdSameVersion(versions: seq<Version>, v: Version, w: Version)
    requires Separate(versions) && v in versions && w in versions && v.id == w.id
    ensures v == w
  {
    var i :| 0 <= i < |versions| && versions[i] == v;
    var j :| 0 <= j < |versions| && versions[j] == w;
  }
}
