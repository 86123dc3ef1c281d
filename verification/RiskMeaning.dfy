/** What a risk report says, stated on the parts of the workflow and on the points reported. */
module RiskMeaning {
  import opened Finite
  import opened Wrappers
  import opened RiskModel

  // ---------- texts ----------

  ghost predicate OccursIn(t: string, s: string) {
    exists a: string, b: string :: s == a + t + b
  }

  lemma ContainsMeans(s: string, t: string)
    ensures Contains(s, t) <==> OccursIn(t, s)
  {
    if Contains(s, t) {
      var i :| 0 <= i <= |s| - |t| && StandsAt(s, t, i);
      assert s == s[..i] + t + s[i + |t|..];
    }
    if a: string, b: string :| s == a + t + b {
      assert s[|a|..|a| + |t|] == t;
      assert StandsAt(s, t, |a|);
    }
  }

  /** The same text, capital letters replaced by the small letter at the same place in the alphabet. */
  ghost predicate LowerCased(s: string, t: string) {
    |t| == |s| && forall i :: 0 <= i < |s| ==>
      if 'A' <= s[i] <= 'Z' then 'a' <= t[i] <= 'z' && t[i] as int - 'a' as int == s[i] as int - 'A' as int
      else t[i] == s[i]
  }

  lemma LowerMeans(s: string, t: string)
    ensures LowerCased(s, t) <==> t == Lower(s)
  {
    if LowerCased(s, t) {
      assert forall i :: 0 <= i < |s| ==> t[i] == Lower(s)[i];
    }
  }

  /** The text contains the pattern, whatever the case of their letters. */
  ghost predicate Mentions(text: string, pattern: string) {
    OccursIn(Lower(pattern), Lower(text))
  }

  /** The text is dangerous for one of the patterns, and this is what is said about it. */
  ghost predicate Danger(patterns: seq<(string, string)>, text: string, about: string, said: string) {
    text != "" && exists p :: p in patterns && Mentions(text, p.0) && said == "[high] " + about + p.1
  }

  ghost predicate DangerIn(patterns: seq<(string, string)>, texts: seq<string>, envs: seq<(string, string)>,
                           about: string, said: string)
  {
    || (exists x :: x in texts && Danger(patterns, x, about, said))
    || (exists e :: e in envs && Danger(patterns, e.0 + "=" + e.1, about, said))
  }

  // ---------- points ----------

  ghost predicate OperationSays(operation: string, about: string, said: string) {
    && operation in ["delete", "rm", "replace", "overwrite", "mv"]
    && said == "[warning] " + about + "File operation: " + operation + ", may overwrite/delete production files"
  }

  ghost predicate ActionSays(action: string, about: string, said: string) {
    && action in ["stop", "restart", "uninstall", "remove"]
    && said == "[warning] " + about + "Program action: " + action + ", will affect service availability"
  }

  ghost predicate LoopSays(iterations: Option<(string, int)>, about: string, said: string) {
    && iterations.Some? && iterations.value.1 > 100
    && said == "[warning] " + about + "Loop count too high (" + iterations.value.0
               + "), amplified execution risk exists"
  }

  ghost predicate KindSays(n: Node, kind: string, about: string, said: string) {
    || (kind == "file_op" && OperationSays(n.operation, about, said))
    || (kind == "program" && ActionSays(n.action, about, said))
    || (kind == "sub_workflow"
        && said == "[tip] " + about + "Sub-workflow nesting, recommend separate review of sub-workflow risk")
    || (kind == "loop" && LoopSays(n.iterations, about, said))
  }

  ghost predicate NodeSays(patterns: seq<(string, string)>, n: Node, said: string) {
    var about := "Node[" + n.key + "/" + Lower(n.kind) + "] ";
    KindSays(n, Lower(n.kind), about, said) || DangerIn(patterns, n.texts, n.envs, about, said)
  }

  ghost predicate StepSays(patterns: seq<(string, string)>, t: Step, said: string) {
    var about := "Step[" + t.name + "] ";
    || DangerIn(patterns, t.texts, t.envs, about, said)
    || (t.scriptLevel == "high" && said == "[high] " + about + "Associated script is high-risk level")
    || (t.scriptLevel == "medium" && said == "[warning] " + about + "Associated script is medium-risk level")
  }

  ghost function ContinuingEdges(edges: seq<string>): set<int> {
    set i | 0 <= i < |edges| && Lower(edges[i]) in ["on_failure", "always"]
  }

  ghost predicate SensitiveFound(globalEnvs: string, keys: seq<string>) {
    var all := ["password", "passwd", "token", "secret", "api_key", "apikey", "access_key", "private_key",
                "authorization"];
    && (forall k :: k in keys <==> k in all && OccursIn(k, Lower(globalEnvs)))
    && Distinct(keys) && InFirstOrder(all, keys)
  }

  /** The workflow gives rise to the point. */
  ghost predicate Raises(w: Workflow, p: Point) {
    match p
    case ManyHosts(tier, n) =>
      && n == w.hosts
      && (match tier
          case Extreme => n >= 100
          case Warning => 30 <= n < 100
          case Tip => 10 <= n < 30)
    case SensitiveEnvironment(keys) => keys != [] && SensitiveFound(w.globalEnvs, keys)
    case Scan(said) =>
      || (exists n :: n in w.nodes && NodeSays(DANGEROUS, n, said))
      || (exists t :: t in w.steps && StepSays(DANGEROUS, t, said))
    case ContinueEdges(n) => n >= 3 && n == |ContinuingEdges(w.edges)|
    case NoApprover => w.missingApprover
  }

  ghost predicate Serious(p: Point) {
    match p
    case ManyHosts(tier, _) => tier == Extreme
    case SensitiveEnvironment(_) => true
    case Scan(said) => OccursIn("[high]", said)
    case _ => false
  }

  ghost predicate Warned(p: Point) {
    match p
    case ManyHosts(tier, _) => tier == Warning
    case ContinueEdges(_) => true
    case Scan(said) => OccursIn("[warning]", said)
    case _ => false
  }

  lemma TagsMean(p: Point)
    ensures IsHigh(p) <==> Serious(p)
    ensures IsWarning(p) <==> Warned(p)
  {
    if p.Scan? {
      ContainsMeans(p.text, "[high]");
      ContainsMeans(p.text, "[warning]");
    }
  }

  lemma {:induction false} HitsMean(patterns: seq<(string, string)>, text: string, about: string, said: string)
    ensures said in Hits(patterns, text, about) <==>
      exists p :: p in patterns && Mentions(text, p.0) && said == "[high] " + about + p.1
  {
    if patterns != [] {
      var init, p := patterns[..|patterns| - 1], patterns[|patterns| - 1];
      HitsMean(init, text, about, said);
      ContainsMeans(Lower(text), Lower(p.0));
      assert patterns == init + [p];
    }
  }

  lemma {:induction false} TextsMean(patterns: seq<(string, string)>, texts: seq<string>, about: string, said: string)
    ensures said in ScanTexts(patterns, texts, about) <==> exists x :: x in texts && Danger(patterns, x, about, said)
  {
    if texts != [] {
      var init, x := texts[..|texts| - 1], texts[|texts| - 1];
      TextsMean(patterns, init, about, said);
      HitsMean(patterns, x, about, said);
      assert texts == init + [x] && x in texts;
      if y :| y in init && Danger(patterns, y, about, said) {
        assert y in texts;
      }
    }
  }

  lemma {:induction false} EnvsMean(patterns: seq<(string, string)>, envs: seq<(string, string)>, about: string,
                                    said: string)
    ensures said in ScanEnvs(patterns, envs, about) <==>
            exists e :: e in envs && Danger(patterns, e.0 + "=" + e.1, about, said)
  {
    if envs != [] {
      var init, e := envs[..|envs| - 1], envs[|envs| - 1];
      EnvsMean(patterns, init, about, said);
      HitsMean(patterns, e.0 + "=" + e.1, about, said);
      assert envs == init + [e];
    }
  }

  lemma KindMeans(n: Node, kind: string, about: string, said: string)
    ensures said in KindTexts(n, kind, about) <==> KindSays(n, kind, about, said)
  {
  }

  lemma NodeMeans(patterns: seq<(string, string)>, n: Node, said: string)
    ensures said in NodeTexts(patterns, n) <==> NodeSays(patterns, n, said)
  {
    KindMeans(n, Lower(n.kind), NodeLabel(n), said);
    TextsMean(patterns, n.texts, NodeLabel(n), said);
    EnvsMean(patterns, n.envs, NodeLabel(n), said);
  }

  lemma StepMeans(patterns: seq<(string, string)>, t: Step, said: string)
    ensures said in StepTexts(patterns, t) <==> StepSays(patterns, t, said)
  {
    TextsMean(patterns, t.texts, StepLabel(t), said);
    EnvsMean(patterns, t.envs, StepLabel(t), said);
  }

  lemma {:induction false} FlattenMembers(parts: seq<seq<Point>>, p: Point)
    ensures p in Flatten(parts) <==> exists i :: 0 <= i < |parts| && p in parts[i]
  {
    if parts != [] {
      FlattenMembers(parts[..|parts| - 1], p);
    }
  }

  lemma ScansMean(texts: seq<string>, p: Point)
    ensures p in Scans(texts) <==> p.Scan? && p.text in texts
  {
    if p.Scan? && p.text in texts {
      var i :| 0 <= i < |texts| && texts[i] == p.text;
      assert Scans(texts)[i] == p;
    }
  }

  lemma NodePartsMean(nodes: seq<Node>, p: Point)
    ensures p in Flatten(NodeParts(nodes)) <==> p.Scan? && exists n :: n in nodes && NodeSays(DANGEROUS, n, p.text)
  {
    FlattenMembers(NodeParts(nodes), p);
    forall i | 0 <= i < |nodes| ensures p in NodeParts(nodes)[i] <==> p.Scan? && NodeSays(DANGEROUS, nodes[i], p.text) {
      ScansMean(NodeTexts(DANGEROUS, nodes[i]), p);
      if p.Scan? {
        NodeMeans(DANGEROUS, nodes[i], p.text);
      }
    }
  }

  lemma StepPartsMean(steps: seq<Step>, p: Point)
    ensures p in Flatten(StepParts(steps)) <==> p.Scan? && exists t :: t in steps && StepSays(DANGEROUS, t, p.text)
  {
    FlattenMembers(StepParts(steps), p);
    forall i | 0 <= i < |steps| ensures p in StepParts(steps)[i] <==> p.Scan? && StepSays(DANGEROUS, steps[i], p.text) {
      ScansMean(StepTexts(DANGEROUS, steps[i]), p);
      if p.Scan? {
        StepMeans(DANGEROUS, steps[i], p.text);
      }
    }
  }

  lemma ContinuingSnoc(edges: seq<string>)
    requires edges != []
    ensures var n := |edges| - 1;
      |ContinuingEdges(edges)| ==
      |ContinuingEdges(edges[..n])| + if Lower(edges[n]) in ["on_failure", "always"] then 1 else 0
  {
    var n := |edges| - 1;
    var before := ContinuingEdges(edges[..n]);
    assert n !in before;
    if Lower(edges[n]) in ["on_failure", "always"] {
      assert ContinuingEdges(edges) == before + {n};
    } else {
      assert ContinuingEdges(edges) == before;
    }
  }

  lemma {:induction false} EdgesMean(edges: seq<string>)
    ensures ContinueCount(edges) == |ContinuingEdges(edges)|
  {
    if edges != [] {
      EdgesMean(edges[..|edges| - 1]);
      ContinuingSnoc(edges);
    }
  }

  lemma {:induction false} FoundMeans(keys: seq<string>, text: string)
    requires Distinct(keys)
    ensures forall k :: k in Found(keys, text) <==> k in keys && OccursIn(k, Lower(text))
    ensures Distinct(Found(keys, text)) && InFirstOrder(keys, Found(keys, text))
  {
    if keys != [] {
      var init, k := keys[..|keys| - 1], keys[|keys| - 1];
      FoundMeans(init, text);
      ContainsMeans(Lower(text), k);
      assert keys == init + [k];
      assert k !in init;
      var f := Found(keys, text);
      forall a, b, i, j | 0 <= a < b < |f| && FirstAt(keys, f[a], i) && FirstAt(keys, f[b], j) ensures i < j {
        FirstAtInit(keys, f[a], i);
        FirstAtInit(keys, f[b], j);
        assert f[a] in Found(init, text);
        assert b < |Found(init, text)| ==> f[b] in Found(init, text);
      }
    }
  }

  lemma HostsMean(w: Workflow, p: Point)
    ensures p in HostPoints(w.hosts) <==> p.ManyHosts? && Raises(w, p)
  {
  }

  lemma EnvironmentMeans(w: Workflow, p: Point)
    ensures p in EnvironmentPoints(w.globalEnvs) <==> p.SensitiveEnvironment? && Raises(w, p)
  {
    var all := ["password", "passwd", "token", "secret", "api_key", "apikey", "access_key", "private_key",
                "authorization"];
    assert SENSITIVE_KEYS == all;
    SensitiveDistinct();
    FoundMeans(all, w.globalEnvs);
    if p.SensitiveEnvironment? && Raises(w, p) {
      FirstOrderUnique(all, p.keys, Found(all, w.globalEnvs));
    }
  }

  lemma SensitiveDistinct()
    ensures Distinct(SENSITIVE_KEYS)
  {
  }

  /** The points collected are exactly those that the parts of the workflow give rise to. */
  lemma PointsMean(w: Workflow, p: Point)
    ensures p in Points(w) <==> Raises(w, p)
  {
    HostsMean(w, p);
    EnvironmentMeans(w, p);
    NodePartsMean(w.nodes, p);
    StepPartsMean(w.steps, p);
    EdgesMean(w.edges);
  }

  // ---------- the order of the points ----------

  function Joined(h: seq<Point>, v: seq<Point>, nodes: seq<seq<Point>>, steps: seq<seq<Point>>, e: seq<Point>,
                  a: seq<Point>): seq<seq<Point>>
  {
    [h, v] + nodes + steps + [e, a]
  }

  function ApproverPoints(w: Workflow): seq<Point> {
    if w.missingApprover then [NoApprover] else []
  }

  /** The parts of a workflow in the order in which they are looked at. */
  function Parts(w: Workflow): seq<seq<Point>> {
    Joined(HostPoints(w.hosts), EnvironmentPoints(w.globalEnvs), NodeParts(w.nodes), StepParts(w.steps),
           EdgePoints(ContinueCount(w.edges)), ApproverPoints(w))
  }

  lemma JoinedAt(h: seq<Point>, v: seq<Point>, nodes: seq<seq<Point>>, steps: seq<seq<Point>>, e: seq<Point>,
                 a: seq<Point>, k: nat)
    requires k < |nodes| + |steps| + 4
    ensures var parts, n, s := Joined(h, v, nodes, steps, e, a), k - 2, k - 2 - |nodes|;
      |parts| == |nodes| + |steps| + 4 && parts[k] ==
        if k == 0 then h else if k == 1 then v else if 0 <= n < |nodes| then nodes[n]
        else if 0 <= s < |steps| then steps[s] else if s == |steps| then e else a
  {
  }

  lemma {:induction false} FlattenConcat(a: seq<seq<Point>>, b: seq<seq<Point>>)
    ensures Flatten(a + b) == Flatten(a) + Flatten(b)
  {
    if b == [] {
      assert a + b == a;
    } else {
      FlattenConcat(a, b[..|b| - 1]);
      assert (a + b)[..|a + b| - 1] == a + b[..|b| - 1];
    }
  }

  lemma FlattenTwo(x: seq<Point>, y: seq<Point>)
    ensures Flatten([x, y]) == x + y
  {
    assert [x, y][..1] == [x] && [x][..0] == [];
    assert Flatten([x]) == x;
  }

  lemma JoinedFlat(h: seq<Point>, v: seq<Point>, nodes: seq<seq<Point>>, steps: seq<seq<Point>>, e: seq<Point>,
                   a: seq<Point>)
    ensures Flatten(Joined(h, v, nodes, steps, e, a)) == h + v + Flatten(nodes) + Flatten(steps) + e + a
  {
    FlattenConcat([h, v] + nodes + steps, [e, a]);
    FlattenConcat([h, v] + nodes, steps);
    FlattenConcat([h, v], nodes);
    FlattenTwo(h, v);
    FlattenTwo(e, a);
  }

  lemma PointsAreParts(w: Workflow)
    ensures Points(w) == Flatten(Parts(w)) && |Parts(w)| == |w.nodes| + |w.steps| + 4
  {
    JoinedFlat(HostPoints(w.hosts), EnvironmentPoints(w.globalEnvs), NodeParts(w.nodes), StepParts(w.steps),
               EdgePoints(ContinueCount(w.edges)), ApproverPoints(w));
  }

  /** Part `k` gives rise to the point: hosts, environment, each node, each step, edges, approver. */
  ghost predicate RaisedBy(w: Workflow, k: nat, p: Point) {
    if k == 0 then p.ManyHosts? && Raises(w, p)
    else if k == 1 then p.SensitiveEnvironment? && Raises(w, p)
    else if k < 2 + |w.nodes| then NodeRaises(w.nodes[k - 2], p)
    else if k < 2 + |w.nodes| + |w.steps| then StepRaises(w.steps[k - 2 - |w.nodes|], p)
    else if k == 2 + |w.nodes| + |w.steps| then p.ContinueEdges? && Raises(w, p)
    else k == 3 + |w.nodes| + |w.steps| && p.NoApprover? && Raises(w, p)
  }

  ghost predicate NodeRaises(n: Node, p: Point) {
    p.Scan? && NodeSays(DANGEROUS, n, p.text)
  }

  ghost predicate StepRaises(t: Step, p: Point) {
    p.Scan? && StepSays(DANGEROUS, t, p.text)
  }

  lemma NodePartMeans(nodes: seq<Node>, n: nat, p: Point)
    requires n < |nodes|
    ensures p in NodeParts(nodes)[n] <==> NodeRaises(nodes[n], p)
  {
    ScansMean(NodeTexts(DANGEROUS, nodes[n]), p);
    if p.Scan? {
      NodeMeans(DANGEROUS, nodes[n], p.text);
    }
  }

  lemma StepPartMeans(steps: seq<Step>, n: nat, p: Point)
    requires n < |steps|
    ensures p in StepParts(steps)[n] <==> StepRaises(steps[n], p)
  {
    ScansMean(StepTexts(DANGEROUS, steps[n]), p);
    if p.Scan? {
      StepMeans(DANGEROUS, steps[n], p.text);
    }
  }

  lemma OtherPartsMean(w: Workflow, p: Point)
    ensures p in EdgePoints(ContinueCount(w.edges)) <==> p.ContinueEdges? && Raises(w, p)
    ensures p in ApproverPoints(w) <==> p.NoApprover? && Raises(w, p)
  {
    EdgesMean(w.edges);
  }

  lemma PartMeans(w: Workflow, k: nat, p: Point)
    requires k < |w.nodes| + |w.steps| + 4
    ensures |Parts(w)| == |w.nodes| + |w.steps| + 4
    ensures p in Parts(w)[k] <==> RaisedBy(w, k, p)
  {
    JoinedAt(HostPoints(w.hosts), EnvironmentPoints(w.globalEnvs), NodeParts(w.nodes), StepParts(w.steps),
             EdgePoints(ContinueCount(w.edges)), ApproverPoints(w), k);
    if k == 0 {
      HostsMean(w, p);
    } else if k == 1 {
      EnvironmentMeans(w, p);
    } else if k < 2 + |w.nodes| {
      NodePartMeans(w.nodes, k - 2, p);
    } else if k < 2 + |w.nodes| + |w.steps| {
      StepPartMeans(w.steps, k - 2 - |w.nodes|, p);
    } else {
      OtherPartsMean(w, p);
    }
  }

  lemma FlattenTake(parts: seq<seq<Point>>, n: nat)
    requires n <= |parts|
    ensures Flatten(parts[..n]) <= Flatten(parts)
  {
    FlattenConcat(parts[..n], parts[n..]);
    assert parts[..n] + parts[n..] == parts;
  }

  lemma FlattenPrefix(parts: seq<seq<Point>>, m: nat, n: nat)
    requires m <= n <= |parts|
    ensures Flatten(parts[..m]) <= Flatten(parts[..n])
  {
    FlattenTake(parts[..n], m);
    assert parts[..n][..m] == parts[..m];
  }

  ghost predicate FirstIn(parts: seq<seq<Point>>, k: nat, p: Point) {
    k < |parts| && p in parts[k] && forall l :: 0 <= l < k ==> p !in parts[l]
  }

  lemma FirstNotBefore(parts: seq<seq<Point>>, k: nat, p: Point, i: int)
    requires FirstIn(parts, k, p) && FirstAt(Flatten(parts), p, i)
    ensures |Flatten(parts[..k])| <= i
  {
    var before := Flatten(parts[..k]);
    FlattenTake(parts, k);
    if i < |before| {
      assert before[i] == p && p in before;
      FlattenMembers(parts[..k], p);
    }
  }

  lemma FirstNotAfter(parts: seq<seq<Point>>, k: nat, p: Point, i: int)
    requires FirstIn(parts, k, p) && FirstAt(Flatten(parts), p, i)
    ensures i < |Flatten(parts[..k + 1])|
  {
    var upto := Flatten(parts[..k + 1]);
    FlattenTake(parts, k + 1);
    FlattenMembers(parts[..k + 1], p);
    assert parts[..k + 1][k] == parts[k];
    var n :| 0 <= n < |upto| && upto[n] == p;
    assert Flatten(parts)[n] == p;
  }

  /** The first part that gives rise to the point. */
  ghost predicate FirstRaisedBy(w: Workflow, k: nat, p: Point) {
    RaisedBy(w, k, p) && forall l: nat :: l < k ==> !RaisedBy(w, l, p)
  }

  lemma FirstPartMeans(w: Workflow, k: nat, p: Point)
    requires FirstRaisedBy(w, k, p)
    ensures FirstIn(Parts(w), k, p)
  {
    PartMeans(w, k, p);
    forall l: nat | l < k ensures p !in Parts(w)[l] {
      PartMeans(w, l, p);
    }
  }

  /** Points in the order of first occurrence stand in the order of the first parts that give rise to them. */
  lemma PointsInPartOrder(w: Workflow, f: seq<Point>, a: nat, b: nat, k: nat, l: nat)
    requires InFirstOrder(Points(w), f) && a < b < |f| && forall p :: p in f ==> p in Points(w)
    requires FirstRaisedBy(w, k, f[a]) && FirstRaisedBy(w, l, f[b])
    ensures k <= l
  {
    PointsAreParts(w);
    FirstPartMeans(w, k, f[a]);
    FirstPartMeans(w, l, f[b]);
    PartsOrdered(Parts(w), f, a, b, k, l);
  }

  lemma PartsOrdered(parts: seq<seq<Point>>, f: seq<Point>, a: nat, b: nat, k: nat, l: nat)
    requires InFirstOrder(Flatten(parts), f) && a < b < |f| && forall p :: p in f ==> p in Flatten(parts)
    requires FirstIn(parts, k, f[a]) && FirstIn(parts, l, f[b])
    ensures k <= l
  {
    assert f[a] in f && f[b] in f;
    var i := HasFirst(Flatten(parts), f[a]);
    var j := HasFirst(Flatten(parts), f[b]);
    FirstNotBefore(parts, k, f[a], i);
    FirstNotAfter(parts, l, f[b], j);
    if l < k {
      FlattenPrefix(parts, l + 1, k);
    }
  }

  // ---------- the level ----------

  ghost predicate AnySerious(ps: set<Point>) {
    exists p :: p in ps && Serious(p)
  }

  ghost predicate TwoSerious(ps: set<Point>) {
    exists p, q :: p in ps && q in ps && p != q && Serious(p) && Serious(q)
  }

  ghost predicate TwoWarned(ps: set<Point>) {
    exists p, q :: p in ps && q in ps && p != q && Warned(p) && Warned(q)
  }

  lemma AtLeastTwo(s: set<Point>)
    ensures |s| >= 1 <==> exists p :: p in s
    ensures |s| >= 2 <==> exists p, q :: p in s && q in s && p != q
  {
    if |s| >= 1 {
      var p :| p in s;
      var rest := s - {p};
      assert |rest| == |s| - 1 && s == rest + {p};
      if |s| >= 2 {
        var q :| q in rest;
      }
    }
  }

  /**
   High: two serious points, or one and two warnings.  Low: no serious point, fewer than two warnings
   and fewer than three points.
   */
  lemma LevelMeans(ps: set<Point>)
    ensures LevelOf(ps) == High <==> TwoSerious(ps) || (AnySerious(ps) && TwoWarned(ps))
    ensures LevelOf(ps) == Low <==> !AnySerious(ps) && !TwoWarned(ps) && |ps| < 3
  {
    forall p ensures (IsHigh(p) <==> Serious(p)) && (IsWarning(p) <==> Warned(p)) {
      TagsMean(p);
    }
    AtLeastTwo(Highs(ps));
    AtLeastTwo(Warnings(ps));
    assert forall p :: p in Highs(ps) <==> p in ps && Serious(p);
    assert forall p :: p in Warnings(ps) <==> p in ps && Warned(p);
  }
}
