/**
 The points of a workflow's risk report, collected from its parts, and the level read off their counts.
 */
module RiskModel {
  import opened Wrappers

  /**
   Risk points, equal exactly when their texts are.  A scan point carries the text found for a
   node or step, whose label is free text; the other texts are fixed up to a number or a list.
   */
  datatype Point =
    | ManyHosts(tier: Tier, hosts: nat)
    | SensitiveEnvironment(keys: seq<string>)
    | Scan(text: string)
    | ContinueEdges(edges: nat)
    | NoApprover

  datatype Tier = Tip | Warning | Extreme
  datatype Level = Low | Medium | High

  /**
   A node of the definition: the fields of its configuration that are looked at.  `iterations` is
   the limit as written and as a number, if it reads as one; `texts` are the scanned strings.
   */
  datatype Node = Node(key: string, kind: string, operation: string, action: string,
                       iterations: Option<(string, int)>, texts: seq<string>, envs: seq<(string, string)>)

  /** A linear step: `scriptLevel` is the level of the script it is associated with, or empty. */
  datatype Step = Step(name: string, texts: seq<string>, envs: seq<(string, string)>, scriptLevel: string)

  datatype Workflow = Workflow(hosts: nat, globalEnvs: string, nodes: seq<Node>, steps: seq<Step>,
                               edges: seq<string>, missingApprover: bool)

  // ---------- texts ----------

  predicate Contains(s: string, t: string) {
    exists i :: 0 <= i <= |s| - |t| && StandsAt(s, t, i)
  }

  predicate StandsAt(s: string, t: string, i: nat)
    requires i + |t| <= |s|
  {
    s[i..i + |t|] == t
  }

  function LowerChar(c: char): char {
    if 'A' <= c <= 'Z' then (c as int + 32) as char else c
  }

  function Lower(s: string): string {
    seq(|s|, i requires 0 <= i < |s| => LowerChar(s[i]))
  }

  const SENSITIVE_KEYS := ["password", "passwd", "token", "secret", "api_key", "apikey",
                           "access_key", "private_key", "authorization"]

  /** Patterns that make a text dangerous, and what is said about them. */
  const DANGEROUS: seq<(string, string)> := [
    ("rm -rf", "Includes rm -rf forced deletion"),
    ("rm -r", "Includes rm -r recursive deletion"),
    ("sudo ", "Includes sudo privilege escalation"),
    ("mkfs", "Includes mkfs disk formatting"),
    ("dd if=", "Includes dd raw disk write"),
    ("/dev/sd", "Includes direct disk device write"),
    ("shutdown", "Includes shutdown command"),
    ("reboot", "Includes reboot command"),
    ("init 0", "Includes init 0 shutdown"),
    ("init 6", "Includes init 6 reboot"),
    ("drop table", "Includes SQL DROP TABLE"),
    ("drop database", "Includes SQL DROP DATABASE"),
    ("truncate table", "Includes SQL TRUNCATE TABLE"),
    ("delete from", "Includes SQL DELETE FROM (no WHERE risk)"),
    ("systemctl stop", "Includes systemctl stop service stop"),
    ("kubectl delete", "Includes kubectl delete K8s resource deletion"),
    ("docker rm -f", "Includes docker rm -f forced container deletion"),
    ("chmod -R 777", "Includes chmod -R 777 permission relaxation"),
    ("chown -R", "Includes chown -R recursive owner change"),
    ("iptables -F", "Includes iptables -F firewall flush")]

  function Found(keys: seq<string>, text: string): seq<string> {
    if keys == [] then []
    else
      var before, k := Found(keys[..|keys| - 1], text), keys[|keys| - 1];
      if Contains(Lower(text), k) then before + [k] else before
  }

  function Hits(patterns: seq<(string, string)>, text: string, about: string): seq<string> {
    if patterns == [] then []
    else
      var before, p := Hits(patterns[..|patterns| - 1], text, about), patterns[|patterns| - 1];
      if Contains(Lower(text), Lower(p.0)) then before + ["[high] " + about + p.1] else before
  }

  function ScanText(patterns: seq<(string, string)>, text: string, about: string): seq<string> {
    if text == "" then [] else Hits(patterns, text, about)
  }

  function ScanTexts(patterns: seq<(string, string)>, texts: seq<string>, about: string): seq<string> {
    if texts == [] then []
    else ScanTexts(patterns, texts[..|texts| - 1], about) + ScanText(patterns, texts[|texts| - 1], about)
  }

  function ScanEnvs(patterns: seq<(string, string)>, envs: seq<(string, string)>, about: string): seq<string> {
    if envs == [] then []
    else
      var e := envs[|envs| - 1];
      ScanEnvs(patterns, envs[..|envs| - 1], about) + ScanText(patterns, e.0 + "=" + e.1, about)
  }

  function NodeLabel(n: Node): string {
    "Node[" + n.key + "/" + Lower(n.kind) + "] "
  }

  /** What is said about a node for its kind alone. */
  function KindTexts(n: Node, kind: string, about: string): seq<string> {
    if kind == "file_op" then
      if n.operation in {"delete", "rm", "replace", "overwrite", "mv"}
      then ["[warning] " + about + "File operation: " + n.operation + ", may overwrite/delete production files"] else []
    else if kind == "program" then
      if n.action in {"stop", "restart", "uninstall", "remove"}
      then ["[warning] " + about + "Program action: " + n.action + ", will affect service availability"] else []
    else if kind == "sub_workflow"
    then ["[tip] " + about + "Sub-workflow nesting, recommend separate review of sub-workflow risk"]
    else if kind == "loop" && n.iterations.Some? && n.iterations.value.1 > 100
    then ["[warning] " + about + "Loop count too high (" + n.iterations.value.0 + "), amplified execution risk exists"]
    else []
  }

  function NodeTexts(patterns: seq<(string, string)>, n: Node): seq<string> {
    var about := NodeLabel(n);
    KindTexts(n, Lower(n.kind), about) + ScanTexts(patterns, n.texts, about) + ScanEnvs(patterns, n.envs, about)
  }

  function StepLabel(t: Step): string {
    "Step[" + t.name + "] "
  }

  function ScriptTexts(level: string, about: string): seq<string> {
    if level == "high" then ["[high] " + about + "Associated script is high-risk level"]
    else if level == "medium" then ["[warning] " + about + "Associated script is medium-risk level"]
    else []
  }

  function StepTexts(patterns: seq<(string, string)>, t: Step): seq<string> {
    var about := StepLabel(t);
    ScanTexts(patterns, t.texts, about) + ScanEnvs(patterns, t.envs, about) + ScriptTexts(t.scriptLevel, about)
  }

  function Scans(texts: seq<string>): seq<Point> {
    seq(|texts|, i requires 0 <= i < |texts| => Scan(texts[i]))
  }

  function NodeParts(nodes: seq<Node>): seq<seq<Point>> {
    seq(|nodes|, i requires 0 <= i < |nodes| => Scans(NodeTexts(DANGEROUS, nodes[i])))
  }

  function StepParts(steps: seq<Step>): seq<seq<Point>> {
    seq(|steps|, i requires 0 <= i < |steps| => Scans(StepTexts(DANGEROUS, steps[i])))
  }

  function EnvironmentPoints(globalEnvs: string): seq<Point> {
    var found := Found(SENSITIVE_KEYS, globalEnvs);
    if found != [] then [SensitiveEnvironment(found)] else []
  }

  /** The tags are looked for anywhere in the text, so a label can bring one in. */
  predicate IsHigh(p: Point) {
    match p
    case ManyHosts(tier, _) => tier == Extreme
    case SensitiveEnvironment(_) => true
    case Scan(text) => Contains(text, "[high]")
    case _ => false
  }

  predicate IsWarning(p: Point) {
    match p
    case ManyHosts(tier, _) => tier == Warning
    case ContinueEdges(_) => true
    case Scan(text) => Contains(text, "[warning]")
    case _ => false
  }

  // ---------- points of a workflow ----------

  function HostPoints(hosts: nat): seq<Point> {
    if hosts >= 100 then [ManyHosts(Extreme, hosts)]
    else if hosts >= 30 then [ManyHosts(Warning, hosts)]
    else if hosts >= 10 then [ManyHosts(Tip, hosts)]
    else []
  }

  function Flatten(parts: seq<seq<Point>>): seq<Point> {
    if parts == [] then [] else Flatten(parts[..|parts| - 1]) + parts[|parts| - 1]
  }

  predicate ContinuesOnFailure(condition: string) {
    Lower(condition) in {"on_failure", "always"}
  }

  function ContinueCount(edges: seq<string>): nat {
    if edges == [] then 0
    else ContinueCount(edges[..|edges| - 1]) + if ContinuesOnFailure(edges[|edges| - 1]) then 1 else 0
  }

  function EdgePoints(count: nat): seq<Point> {
    if count >= 3 then [ContinueEdges(count)] else []
  }

  function Points(w: Workflow): seq<Point> {
    HostPoints(w.hosts)
    + EnvironmentPoints(w.globalEnvs)
    + Flatten(NodeParts(w.nodes)) + Flatten(StepParts(w.steps))
    + EdgePoints(ContinueCount(w.edges))
    + (if w.missingApprover then [NoApprover] else [])
  }

  // ---------- the level ----------

  function Grade(high: nat, warning: nat, total: nat): Level {
    if high >= 2 || (high >= 1 && warning >= 2) then High
    else if high >= 1 || warning >= 2 then Medium
    else if warning >= 1 || total >= 1 then (if total >= 3 then Medium else Low)
    else Low
  }

  function Highs(ps: set<Point>): set<Point> { set p | p in ps && IsHigh(p) }
  function Warnings(ps: set<Point>): set<Point> { set p | p in ps && IsWarning(p) }

  function LevelOf(ps: set<Point>): Level {
    Grade(|Highs(ps)|, |Warnings(ps)|, |ps|)
  }
}
