/**
 Grouping the rows of a workflow execution: the latest attempt of every host of a node, and one
 group a node with its names, counts, extremes and hosts.
 */
module ExecutionGroups {
  import opened Wrappers
  import opened Finite
  import opened Sorting
  import opened TopoOrder
  import opened StatusAggregate

  datatype Row = Row(node: Key, nodeType: string, nodeName: string, host: string, attempt: int, status: int,
                     startedAt: Option<int>, finishedAt: Option<int>, duration: Option<int>)

  /** `hosts` are the rows shown under the group. */
  datatype Group = Group(node: Key, nodeType: string, nodeName: string, totalHosts: nat, completedHosts: nat,
                         overall: int, counts: seq<nat>, attemptsMax: int, firstStarted: Option<int>,
                         lastFinished: Option<int>, totalDuration: Option<int>, hosts: seq<Row>)

  /** The name shown for every host that was found. */
  type Names = map<string, string>

  type Pair = (Key, string)

  /** A missing or zero attempt number counts as the first attempt. */
  function Attempt(r: Row): int {
    if r.attempt == 0 then 1 else r.attempt
  }

  function PairOf(r: Row): Pair {
    (r.node, r.host)
  }

  // ---------- the latest attempt of each pair ----------

  /** Row `i` is the first of the rows of its pair with the greatest attempt number. */
  ghost predicate IsLatest(rows: seq<Row>, i: nat) {
    && i < |rows|
    && (forall j :: 0 <= j < |rows| && PairOf(rows[j]) == PairOf(rows[i]) ==>
          Attempt(rows[j]) <= Attempt(rows[i]) && (Attempt(rows[j]) == Attempt(rows[i]) ==> i <= j))
  }

  ghost predicate LatestOf(rows: seq<Row>, p: Pair, r: Row) {
    exists i :: 0 <= i < |rows| && rows[i] == r && PairOf(r) == p && IsLatest(rows, i)
  }

  ghost predicate Occurs(rows: seq<Row>, p: Pair) {
    exists i :: 0 <= i < |rows| && PairOf(rows[i]) == p
  }

  ghost function AllPairs(rows: seq<Row>): seq<Pair> {
    seq(|rows|, i requires 0 <= i < |rows| => PairOf(rows[i]))
  }

  ghost predicate LatestOfEach(rows: seq<Row>, latest: map<Pair, Row>) {
    && (forall p :: p in latest <==> Occurs(rows, p))
    && (forall p :: p in latest ==> LatestOf(rows, p, latest[p]))
  }

  /** The latest row of every pair, and the pairs in the order in which they were first met. */
  ghost predicate LatestMap(rows: seq<Row>, pairs: seq<Pair>, latest: map<Pair, Row>) {
    && pairs == FirstOccurrences(AllPairs(rows))
    && (forall p :: p in pairs <==> p in latest)
    && LatestOfEach(rows, latest)
  }

  lemma OccursSnoc(rows: seq<Row>, r: Row, p: Pair)
    ensures Occurs(rows + [r], p) <==> Occurs(rows, p) || PairOf(r) == p
  {
    var all := rows + [r];
    assert all[|rows|] == r;
    if Occurs(rows, p) {
      var i :| 0 <= i < |rows| && PairOf(rows[i]) == p;
      assert PairOf(all[i]) == p;
    }
  }

  lemma LatestSnoc(rows: seq<Row>, r: Row, p: Pair, cur: Row)
    requires LatestOf(rows, p, cur)
    ensures PairOf(r) != p || Attempt(r) <= Attempt(cur) ==> LatestOf(rows + [r], p, cur)
    ensures PairOf(r) == p && Attempt(r) > Attempt(cur) ==> LatestOf(rows + [r], p, r)
  {
    var all := rows + [r];
    var i :| 0 <= i < |rows| && rows[i] == cur && PairOf(cur) == p && IsLatest(rows, i);
    assert all[i] == cur && all[|rows|] == r;
    assert forall j :: 0 <= j < |rows| ==> all[j] == rows[j];
    if PairOf(r) == p && Attempt(r) > Attempt(cur) {
      assert IsLatest(all, |rows|);
    } else {
      assert IsLatest(all, i);
    }
  }

  lemma FirstIsLatest(rows: seq<Row>, r: Row)
    requires !Occurs(rows, PairOf(r))
    ensures LatestOf(rows + [r], PairOf(r), r)
  {
    var all := rows + [r];
    assert forall j :: 0 <= j < |rows| ==> all[j] == rows[j];
    assert all[|rows|] == r && IsLatest(all, |rows|);
  }

  lemma PairsSnoc(rows: seq<Row>, r: Row)
    ensures var f := FirstOccurrences(AllPairs(rows));
      FirstOccurrences(AllPairs(rows + [r])) == if PairOf(r) in f then f else f + [PairOf(r)]
  {
    var all := AllPairs(rows + [r]);
    assert all[..|all| - 1] == AllPairs(rows) && all[|all| - 1] == PairOf(r);
  }

  lemma LatestOfEachSnoc(rows: seq<Row>, r: Row, latest: map<Pair, Row>)
    requires LatestOfEach(rows, latest)
    ensures LatestOfEach(rows + [r], if PairOf(r) !in latest || Attempt(r) > Attempt(latest[PairOf(r)])
                                     then latest[PairOf(r) := r] else latest)
  {
    forall p ensures Occurs(rows + [r], p) <==> Occurs(rows, p) || PairOf(r) == p {
      OccursSnoc(rows, r, p);
    }
    forall p | p in latest
      ensures PairOf(r) != p || Attempt(r) <= Attempt(latest[p]) ==> LatestOf(rows + [r], p, latest[p])
      ensures PairOf(r) == p && Attempt(r) > Attempt(latest[p]) ==> LatestOf(rows + [r], p, r)
    {
      LatestSnoc(rows, r, p, latest[p]);
    }
    if PairOf(r) !in latest {
      FirstIsLatest(rows, r);
    }
  }

  lemma LatestMapNext(rows: seq<Row>, i: nat, pairs: seq<Pair>, latest: map<Pair, Row>)
    requires i < |rows| && LatestMap(rows[..i], pairs, latest)
    ensures var r, p := rows[i], PairOf(rows[i]);
      if p !in latest then LatestMap(rows[..i + 1], pairs + [p], latest[p := r])
      else if Attempt(r) > Attempt(latest[p]) then LatestMap(rows[..i + 1], pairs, latest[p := r])
      else LatestMap(rows[..i + 1], pairs, latest)
  {
    LatestOfEachSnoc(rows[..i], rows[i], latest);
    PairsSnoc(rows[..i], rows[i]);
    assert rows[..i + 1] == rows[..i] + [rows[i]];
  }

  /** Attempt number `n` is not later than `m`; a missing or zero number stands for 1. */
  predicate NotAfter(n: int, m: int) {
    n <= m || (n == 1 && m == 0)
  }

  /** No row of the same node and host has a later attempt number, and none with the same number comes earlier. */
  ghost predicate Kept(rows: seq<Row>, n: nat) {
    n < |rows| && forall j :: 0 <= j < |rows| && rows[j].node == rows[n].node && rows[j].host == rows[n].host ==>
      NotAfter(rows[j].attempt, rows[n].attempt) && (NotAfter(rows[n].attempt, rows[j].attempt) ==> n <= j)
  }

  lemma LatestMeans(rows: seq<Row>, n: nat)
    ensures IsLatest(rows, n) <==> Kept(rows, n)
  {
  }

  ghost predicate KeptFor(rows: seq<Row>, node: Key, host: string, r: Row) {
    exists n: nat :: Kept(rows, n) && rows[n] == r && r.node == node && r.host == host
  }

  lemma LatestMapMeans(rows: seq<Row>, pairs: seq<Pair>, latest: map<Pair, Row>)
    requires LatestMap(rows, pairs, latest)
    ensures forall node, host :: (node, host) in latest <==>
      exists i :: 0 <= i < |rows| && rows[i].node == node && rows[i].host == host
    ensures forall node, host :: (node, host) in latest ==> KeptFor(rows, node, host, latest[(node, host)])
  {
    forall node, host
      ensures (node, host) in latest <==> exists i :: 0 <= i < |rows| && rows[i].node == node && rows[i].host == host
    {
      assert (node, host) in latest <==> Occurs(rows, (node, host));
    }
    forall node, host | (node, host) in latest ensures KeptFor(rows, node, host, latest[(node, host)]) {
      var p, r := (node, host), latest[(node, host)];
      assert LatestOf(rows, p, r);
      var n :| 0 <= n < |rows| && rows[n] == r && PairOf(r) == p && IsLatest(rows, n);
      LatestMeans(rows, n);
    }
  }

  /** For every node and host with rows, its first row with the latest attempt number. */
  method LatestAttempts(rows: seq<Row>) returns (pairs: seq<Pair>, latest: map<Pair, Row>)
    ensures LatestMap(rows, pairs, latest)
    ensures forall node, host :: (node, host) in latest <==>
      exists i :: 0 <= i < |rows| && rows[i].node == node && rows[i].host == host
    ensures forall node, host :: (node, host) in latest ==> KeptFor(rows, node, host, latest[(node, host)])
  {
    pairs, latest := [], map[];
    for i := 0 to |rows|
      invariant LatestMap(rows[..i], pairs, latest)
    {
      var r := rows[i];
      LatestMapNext(rows, i, pairs, latest);
      var p := PairOf(r);
      if p !in latest {
        pairs := pairs + [p];
        latest := latest[p := r];
      } else if Attempt(r) > Attempt(latest[p]) {
        latest := latest[p := r];
      }
    }
    assert rows[..|rows|] == rows;
    LatestMapMeans(rows, pairs, latest);
  }

  // ---------- grouping by node ----------

  /** The latest rows of one node, in the order in which its pairs were first met. */
  function RowsOf(pairs: seq<Pair>, latest: map<Pair, Row>, node: Key): seq<Row> {
    if pairs == [] then []
    else
      var before, p := RowsOf(pairs[..|pairs| - 1], latest, node), pairs[|pairs| - 1];
      if p.0 == node && p in latest then before + [latest[p]] else before
  }

  ghost predicate Grouped(pairs: seq<Pair>, latest: map<Pair, Row>, nodes: seq<Key>, groups: map<Key, seq<Row>>) {
    && Distinct(nodes)
    && (forall k :: k in nodes <==> k in groups)
    && (forall k :: k in groups <==> RowsOf(pairs, latest, k) != [])
    && (forall k :: k in groups ==> groups[k] == RowsOf(pairs, latest, k))
  }

  lemma RowsOfNext(pairs: seq<Pair>, latest: map<Pair, Row>, i: nat, k: Key)
    requires i < |pairs| && pairs[i] in latest
    ensures RowsOf(pairs[..i + 1], latest, k) ==
            RowsOf(pairs[..i], latest, k) + if pairs[i].0 == k then [latest[pairs[i]]] else []
  {
    assert pairs[..i + 1][..i] == pairs[..i];
  }

  lemma GroupedNext(pairs: seq<Pair>, latest: map<Pair, Row>, i: nat, nodes: seq<Key>, groups: map<Key, seq<Row>>)
    requires i < |pairs| && pairs[i] in latest && Grouped(pairs[..i], latest, nodes, groups)
    ensures var p := pairs[i];
      if p.0 !in groups then Grouped(pairs[..i + 1], latest, nodes + [p.0], groups[p.0 := [latest[p]]])
      else Grouped(pairs[..i + 1], latest, nodes, groups[p.0 := groups[p.0] + [latest[p]]])
  {
    var before, after := pairs[..i], pairs[..i + 1];
    forall k
      ensures RowsOf(after, latest, k) == RowsOf(before, latest, k) + if pairs[i].0 == k then [latest[pairs[i]]] else []
    {
      RowsOfNext(pairs, latest, i, k);
    }
    GroupedSnoc(before, after, latest, pairs[i], nodes, groups);
  }

  lemma GroupedSnoc(before: seq<Pair>, after: seq<Pair>, latest: map<Pair, Row>, p: Pair, nodes: seq<Key>,
                    groups: map<Key, seq<Row>>)
    requires p in latest && Grouped(before, latest, nodes, groups)
    requires forall k ::
      RowsOf(after, latest, k) == RowsOf(before, latest, k) + if p.0 == k then [latest[p]] else []
    ensures if p.0 !in groups then Grouped(after, latest, nodes + [p.0], groups[p.0 := [latest[p]]])
            else Grouped(after, latest, nodes, groups[p.0 := groups[p.0] + [latest[p]]])
  {
    var last := if p.0 !in groups then [latest[p]] else groups[p.0] + [latest[p]];
    assert RowsOf(after, latest, p.0) == last;
    assert forall k :: k != p.0 ==> RowsOf(after, latest, k) == RowsOf(before, latest, k);
  }

  /** The rows of every node, in the order of the pairs. */
  method ByNode(pairs: seq<Pair>, latest: map<Pair, Row>) returns (nodes: seq<Key>, groups: map<Key, seq<Row>>)
    requires forall p :: p in pairs ==> p in latest
    ensures Grouped(pairs, latest, nodes, groups)
  {
    nodes, groups := [], map[];
    for i := 0 to |pairs|
      invariant Grouped(pairs[..i], latest, nodes, groups)
    {
      var p := pairs[i];
      assert p in pairs;
      GroupedNext(pairs, latest, i, nodes, groups);
      if p.0 !in groups {
        nodes := nodes + [p.0];
        groups := groups[p.0 := [latest[p]]];
      } else {
        groups := groups[p.0 := groups[p.0] + [latest[p]]];
      }
    }
    assert pairs[..|pairs|] == pairs;
  }

  lemma {:induction false} RowsOfNode(pairs: seq<Pair>, latest: map<Pair, Row>, node: Key)
    requires forall p :: p in pairs ==> p in latest
    ensures RowsOf(pairs, latest, node) != [] <==> exists p :: p in pairs && p.0 == node
  {
    if pairs != [] {
      var init, last := pairs[..|pairs| - 1], pairs[|pairs| - 1];
      assert last in pairs && forall p :: p in init ==> p in pairs;
      RowsOfNode(init, latest, node);
      assert pairs == init + [last];
    }
  }

  function SumSizes(nodes: seq<Key>, pairs: seq<Pair>, latest: map<Pair, Row>): nat {
    if nodes == [] then 0
    else SumSizes(nodes[..|nodes| - 1], pairs, latest) + |RowsOf(pairs, latest, nodes[|nodes| - 1])|
  }

  lemma {:induction false} SumSizesSnoc(nodes: seq<Key>, pairs: seq<Pair>, latest: map<Pair, Row>, p: Pair)
    requires Distinct(nodes) && p in latest
    ensures SumSizes(nodes, pairs + [p], latest) == SumSizes(nodes, pairs, latest) + if p.0 in nodes then 1 else 0
  {
    if nodes != [] {
      var init, last := nodes[..|nodes| - 1], nodes[|nodes| - 1];
      SumSizesSnoc(init, pairs, latest, p);
      assert (pairs + [p])[..|pairs|] == pairs;
      assert nodes == init + [last];
      assert last !in init;
    }
  }

  lemma {:induction false} SumSizesEmpty(nodes: seq<Key>, latest: map<Pair, Row>)
    ensures SumSizes(nodes, [], latest) == 0
  {
    if nodes != [] {
      SumSizesEmpty(nodes[..|nodes| - 1], latest);
    }
  }

  /** The sizes of the groups add up to the number of pairs: every pair is in exactly one group. */
  lemma {:induction false} SizesAddUp(nodes: seq<Key>, pairs: seq<Pair>, latest: map<Pair, Row>)
    requires Distinct(nodes) && forall p :: p in pairs ==> p in latest && p.0 in nodes
    ensures SumSizes(nodes, pairs, latest) == |pairs|
  {
    if pairs == [] {
      SumSizesEmpty(nodes, latest);
    } else {
      var init, p := pairs[..|pairs| - 1], pairs[|pairs| - 1];
      assert pairs == init + [p];
      assert p in pairs && forall q :: q in init ==> q in pairs;
      SizesAddUp(nodes, init, latest);
      SumSizesSnoc(nodes, init, latest, p);
    }
  }

  // ---------- summing up a group ----------

  /** 2999-12-31 23:59:59 and 1970-01-01 00:00:00, the bounds that stand for "none". */
  const FUTURE := 32503679999
  const PAST := 0

  function CountStatus(rows: seq<Row>, st: int): nat {
    if rows == [] then 0
    else CountStatus(rows[..|rows| - 1], st) + if rows[|rows| - 1].status == st then 1 else 0
  }

  function Statuses(rows: seq<Row>): set<int> {
    set i | 0 <= i < |rows| :: rows[i].status
  }

  function PositiveDurations(rows: seq<Row>): int {
    if rows == [] then 0
    else
      var d := rows[|rows| - 1].duration;
      PositiveDurations(rows[..|rows| - 1]) + if d.Some? && d.value > 0 then d.value else 0
  }

  ghost predicate GreatestAttempt(rows: seq<Row>, m: int) {
    && m >= 0 && (forall i :: 0 <= i < |rows| ==> Attempt(rows[i]) <= m)
    && (m == 0 || exists i :: 0 <= i < |rows| && Attempt(rows[i]) == m)
  }

  ghost predicate EarliestStart(rows: seq<Row>, t: int) {
    && t <= FUTURE && (forall i :: 0 <= i < |rows| && rows[i].startedAt.Some? ==> t <= rows[i].startedAt.value)
    && (t == FUTURE || exists i :: 0 <= i < |rows| && rows[i].startedAt == Some(t))
  }

  ghost predicate LatestFinish(rows: seq<Row>, t: int) {
    && t >= PAST && (forall i :: 0 <= i < |rows| && rows[i].finishedAt.Some? ==> rows[i].finishedAt.value <= t)
    && (t == PAST || exists i :: 0 <= i < |rows| && rows[i].finishedAt == Some(t))
  }

  // ---------- the order of the hosts ----------

  /** How early a status is shown; unknown ones come last. */
  function Severity(st: int): int {
    if st == FAILED then 0
    else if st == RUNNING then 1
    else if st == PENDING then 2
    else if st == CANCELLED then 3
    else if st == SKIPPED then 4
    else if st == SUCCESS then 5
    else 99
  }

  const WHITESPACE := "\t\n\U{0B}\U{0C}\r\U{1C}\U{1D}\U{1E}\U{1F} \U{85}\U{A0}\U{1680}"
    + "\U{2000}\U{2001}\U{2002}\U{2003}\U{2004}\U{2005}\U{2006}\U{2007}\U{2008}\U{2009}\U{200A}"
    + "\U{2028}\U{2029}\U{202F}\U{205F}\U{3000}"

  predicate NoHost(host: string) {
    host == "__NO_HOST__" || forall i :: 0 <= i < |host| ==> host[i] in WHITESPACE
  }

  /** What a row is sorted by among rows of the same status: the name shown for its host, or else its host's id. */
  function Label(names: Names, host: string): string {
    if NoHost(host) then host
    else if host in names then (if names[host] == "" then host else names[host])
    else "Unknown host (" + host[..if |host| < 8 then |host| else 8] + ")"
  }

  predicate HostLe(names: Names, a: Row, b: Row) {
    || Severity(a.status) < Severity(b.status)
    || (Severity(a.status) == Severity(b.status) && LexLe(Label(names, a.host), Label(names, b.host)))
  }

  function HostOrder(names: Names): (Row, Row) -> bool {
    (a, b) => HostLe(names, a, b)
  }

  lemma HostOrderOk(names: Names)
    ensures TotalPreorder(HostOrder(names))
  {
    forall a, b ensures HostLe(names, a, b) || HostLe(names, b, a) {
      LexTotal(Label(names, a.host), Label(names, b.host));
    }
    forall a, b, c | HostLe(names, a, b) && HostLe(names, b, c) ensures HostLe(names, a, c) {
      if Severity(a.status) == Severity(b.status) == Severity(c.status) {
        LexTransitive(Label(names, a.host), Label(names, b.host), Label(names, c.host));
      }
    }
  }

  // ---------- the whole group ----------

  ghost predicate Summary(rows: seq<Row>, pick: set<int> -> int, names: Names, g: Group) {
    && rows != [] && g.nodeType == rows[0].nodeType
    && g.nodeName == (if rows[0].nodeName == "" then g.node else rows[0].nodeName)
    && StableSort(HostOrder(names), rows, g.hosts)
    && g.totalHosts == |rows|
    && |g.counts| == 6 && (forall st :: 0 <= st < 6 ==> g.counts[st] == CountStatus(rows, st))
    && g.completedHosts == CountStatus(rows, SUCCESS) + CountStatus(rows, FAILED)
                           + CountStatus(rows, SKIPPED) + CountStatus(rows, CANCELLED)
    && g.overall == Aggregate(Statuses(rows), pick)
    && GreatestAttempt(rows, g.attemptsMax)
    && g.firstStarted != Some(FUTURE) && g.lastFinished != Some(PAST) && g.totalDuration != Some(0)
    && EarliestStart(rows, if g.firstStarted.Some? then g.firstStarted.value else FUTURE)
    && LatestFinish(rows, if g.lastFinished.Some? then g.lastFinished.value else PAST)
    && PositiveDurations(rows) == (if g.totalDuration.Some? then g.totalDuration.value else 0)
  }

  lemma ExtremesSnoc(rows: seq<Row>, r: Row, attempts: int, first: int, last: int)
    requires GreatestAttempt(rows, attempts) && EarliestStart(rows, first) && LatestFinish(rows, last)
    ensures GreatestAttempt(rows + [r], if Attempt(r) > attempts then Attempt(r) else attempts)
    ensures EarliestStart(rows + [r],
                          if r.startedAt.Some? && r.startedAt.value < first then r.startedAt.value else first)
    ensures LatestFinish(rows + [r],
                         if r.finishedAt.Some? && r.finishedAt.value > last then r.finishedAt.value else last)
  {
    var all := rows + [r];
    assert all[|rows|] == r;
    assert forall i :: 0 <= i < |rows| ==> all[i] == rows[i];
    if attempts != 0 && Attempt(r) <= attempts {
      var i :| 0 <= i < |rows| && Attempt(rows[i]) == attempts;
      assert Attempt(all[i]) == attempts;
    }
    if first != FUTURE {
      var i :| 0 <= i < |rows| && rows[i].startedAt == Some(first);
      assert all[i].startedAt == Some(first);
    }
    if last != PAST {
      var i :| 0 <= i < |rows| && rows[i].finishedAt == Some(last);
      assert all[i].finishedAt == Some(last);
    }
  }

  method Extremes(rows: seq<Row>) returns (attempts: int, first: int, last: int)
    ensures GreatestAttempt(rows, attempts) && EarliestStart(rows, first) && LatestFinish(rows, last)
  {
    attempts, first, last := 0, FUTURE, PAST;
    for i := 0 to |rows|
      invariant GreatestAttempt(rows[..i], attempts) && EarliestStart(rows[..i], first) && LatestFinish(rows[..i], last)
    {
      var r := rows[i];
      ExtremesSnoc(rows[..i], r, attempts, first, last);
      assert rows[..i + 1] == rows[..i] + [r];
      if Attempt(r) > attempts {
        attempts := Attempt(r);
      }
      if r.startedAt.Some? && r.startedAt.value < first {
        first := r.startedAt.value;
      }
      if r.finishedAt.Some? && r.finishedAt.value > last {
        last := r.finishedAt.value;
      }
    }
    assert rows[..|rows|] == rows;
  }

  method Counts(rows: seq<Row>) returns (counts: seq<nat>, statuses: set<int>, completed: nat, duration: int)
    ensures |counts| == 6 && forall st :: 0 <= st < 6 ==> counts[st] == CountStatus(rows, st)
    ensures statuses == Statuses(rows) && duration == PositiveDurations(rows) && duration >= 0
    ensures completed == CountStatus(rows, SUCCESS) + CountStatus(rows, FAILED)
                         + CountStatus(rows, SKIPPED) + CountStatus(rows, CANCELLED)
  {
    counts, statuses, completed, duration := [0, 0, 0, 0, 0, 0], {}, 0, 0;
    for i := 0 to |rows|
      invariant |counts| == 6 && forall st :: 0 <= st < 6 ==> counts[st] == CountStatus(rows[..i], st)
      invariant statuses == set j | 0 <= j < i :: rows[j].status
      invariant duration == PositiveDurations(rows[..i]) && duration >= 0
      invariant completed == CountStatus(rows[..i], SUCCESS) + CountStatus(rows[..i], FAILED)
                             + CountStatus(rows[..i], SKIPPED) + CountStatus(rows[..i], CANCELLED)
    {
      var r := rows[i];
      assert rows[..i + 1][..i] == rows[..i];
      statuses := statuses + {r.status};
      if 0 <= r.status < 6 {
        counts := counts[r.status := counts[r.status] + 1];
      }
      if r.status in {SUCCESS, FAILED, SKIPPED, CANCELLED} {
        completed := completed + 1;
      }
      if r.duration.Some? && r.duration.value > 0 {
        duration := duration + r.duration.value;
      }
    }
    assert rows[..|rows|] == rows;
  }

  // ---------- what a group shows ----------

  /** Durations above zero, added up from the front. */
  function DurationSum(rows: seq<Row>): int {
    if rows == [] then 0
    else
      var d := rows[0].duration;
      (if d.Some? && d.value > 0 then d.value else 0) + DurationSum(rows[1..])
  }

  lemma {:induction false} DurationSumSnoc(rows: seq<Row>, r: Row)
    ensures DurationSum(rows + [r]) == DurationSum(rows) + DurationSum([r])
  {
    if rows == [] {
      assert rows + [r] == [r];
    } else {
      DurationSumSnoc(rows[1..], r);
      assert (rows + [r])[1..] == rows[1..] + [r];
    }
  }

  lemma {:induction false} DurationsMean(rows: seq<Row>)
    ensures PositiveDurations(rows) == DurationSum(rows)
  {
    if rows != [] {
      var init, r := rows[..|rows| - 1], rows[|rows| - 1];
      DurationsMean(init);
      DurationSumSnoc(init, r);
      assert rows == init + [r];
    }
  }

  ghost function WithStatus(rows: seq<Row>, statuses: seq<int>): set<int> {
    set i | 0 <= i < |rows| && rows[i].status in statuses
  }

  lemma {:induction false} CountsMean(rows: seq<Row>, st: int)
    ensures CountStatus(rows, st) == |WithStatus(rows, [st])|
  {
    if rows != [] {
      var init := rows[..|rows| - 1];
      CountsMean(init, st);
      assert WithStatus(rows, [st]) ==
        WithStatus(init, [st]) + if rows[|init|].status == st then {|init|} else {};
    }
  }

  lemma WithEither(rows: seq<Row>, statuses: seq<int>, st: int)
    requires st !in statuses
    ensures |WithStatus(rows, statuses + [st])| == |WithStatus(rows, statuses)| + |WithStatus(rows, [st])|
  {
    var a, b := WithStatus(rows, statuses), WithStatus(rows, [st]);
    assert WithStatus(rows, statuses + [st]) == a + b;
    assert a !! b;
  }

  lemma CompletedMean(rows: seq<Row>)
    ensures CountStatus(rows, 2) + CountStatus(rows, 3) + CountStatus(rows, 4) + CountStatus(rows, 5) ==
            |WithStatus(rows, [2, 3, 4, 5])|
  {
    CountsMean(rows, 2);
    CountsMean(rows, 3);
    CountsMean(rows, 4);
    CountsMean(rows, 5);
    assert [2] + [3] == [2, 3] && [2, 3] + [4] == [2, 3, 4] && [2, 3, 4] + [5] == [2, 3, 4, 5];
    WithEither(rows, [2], 3);
    WithEither(rows, [2, 3], 4);
    WithEither(rows, [2, 3, 4], 5);
  }

  /** The greatest attempt number; zero and missing ones stand for 1, and it is never negative. */
  ghost predicate AttemptsShown(rows: seq<Row>, max: int) {
    && max >= 0 && (forall r :: r in rows ==> NotAfter(r.attempt, max) && (r.attempt >= 0 ==> max >= 1))
    && (max > 0 ==> exists r :: r in rows && (r.attempt == max || (r.attempt == 0 && max == 1)))
  }

  /** The earliest start before the year 3000, if there is one. */
  ghost predicate StartShown(rows: seq<Row>, t: Option<int>) {
    match t
    case None => forall r :: r in rows && r.startedAt.Some? ==> r.startedAt.value >= 32503679999
    case Some(t) =>
      && t < 32503679999 && (exists r :: r in rows && r.startedAt == Some(t))
      && (forall r :: r in rows && r.startedAt.Some? ==> t <= r.startedAt.value)
  }

  /** The latest finish after the beginning of 1970, if there is one. */
  ghost predicate FinishShown(rows: seq<Row>, t: Option<int>) {
    match t
    case None => forall r :: r in rows && r.finishedAt.Some? ==> r.finishedAt.value <= 0
    case Some(t) =>
      && t > 0 && (exists r :: r in rows && r.finishedAt == Some(t))
      && (forall r :: r in rows && r.finishedAt.Some? ==> r.finishedAt.value <= t)
  }

  ghost predicate OverallShown(rows: seq<Row>, overall: int) {
    var s := set i | 0 <= i < |rows| :: rows[i].status;
    overall == if 3 in s then 3 else if 1 in s then 1 else if 0 in s then 0 else if 5 in s then 5
               else if 2 in s then 2 else 4
  }

  /** Of a group: its type and name, its counts, its status, its extremes and its total duration, read off its rows. */
  ghost predicate GroupShows(rows: seq<Row>, g: Group) {
    && rows != [] && g.nodeType == rows[0].nodeType
    && (rows[0].nodeName != "" ==> g.nodeName == rows[0].nodeName)
    && (rows[0].nodeName == "" ==> g.nodeName == g.node)
    && g.totalHosts == |rows| && |g.counts| == 6
    && (forall st :: 0 <= st < 6 ==> g.counts[st] == |WithStatus(rows, [st])|)
    && g.completedHosts == |WithStatus(rows, [2, 3, 4, 5])|
    && AttemptsShown(rows, g.attemptsMax) && StartShown(rows, g.firstStarted) && FinishShown(rows, g.lastFinished)
    && g.totalDuration == (if DurationSum(rows) == 0 then None else Some(DurationSum(rows)))
  }

  lemma ExtremesMean(rows: seq<Row>, pick: set<int> -> int, names: Names, g: Group)
    requires Summary(rows, pick, names, g)
    ensures AttemptsShown(rows, g.attemptsMax) && StartShown(rows, g.firstStarted) && FinishShown(rows, g.lastFinished)
  {
    forall r | r in rows
      ensures NotAfter(r.attempt, g.attemptsMax) && (r.attempt >= 0 ==> g.attemptsMax >= 1)
    {
      var i :| 0 <= i < |rows| && rows[i] == r;
      assert Attempt(rows[i]) <= g.attemptsMax;
    }
    if g.attemptsMax > 0 {
      var i :| 0 <= i < |rows| && Attempt(rows[i]) == g.attemptsMax;
      assert rows[i] in rows;
    }
    if g.firstStarted.Some? {
      var i :| 0 <= i < |rows| && rows[i].startedAt == g.firstStarted;
      assert rows[i] in rows;
    }
    if g.lastFinished.Some? {
      var i :| 0 <= i < |rows| && rows[i].finishedAt == g.lastFinished;
      assert rows[i] in rows;
    }
  }

  lemma SummaryMeans(rows: seq<Row>, pick: set<int> -> int, names: Names, g: Group)
    requires Summary(rows, pick, names, g)
    ensures GroupShows(rows, g)
    ensures PicksElements(pick) && (forall i :: 0 <= i < |rows| ==> 0 <= rows[i].status <= 5) ==>
      OverallShown(rows, g.overall)
  {
    ExtremesMean(rows, pick, names, g);
    DurationsMean(rows);
    forall st | 0 <= st < 6 ensures g.counts[st] == |WithStatus(rows, [st])| {
      CountsMean(rows, st);
    }
    CompletedMean(rows);
    if PicksElements(pick) && forall i :: 0 <= i < |rows| ==> 0 <= rows[i].status <= 5 {
      assert rows[0].status in Statuses(rows);
      AggregateTable(Statuses(rows), pick);
    }
  }

  // ---------- what the order of the hosts is ----------

  /** The text that stands for a host: its id when there is none, its name, or a remark that it is unknown. */
  ghost predicate ShownAs(names: Names, host: string, text: string) {
    if host == "__NO_HOST__" || (forall c :: c in host ==> c in WHITESPACE) then text == host
    else if host !in names then text == "Unknown host (" + (if |host| <= 8 then host else host[..8]) + ")"
    else text == if names[host] != "" then names[host] else host
  }

  /** Failed, running, pending, cancelled, skipped, success, and then everything else. */
  predicate ShownBefore(st: int, st': int) {
    || (st == 3 && st' != 3)
    || (st == 1 && st' !in {3, 1})
    || (st == 0 && st' !in {3, 1, 0})
    || (st == 5 && st' !in {3, 1, 0, 5})
    || (st == 4 && st' !in {3, 1, 0, 5, 4})
    || (st == 2 && st' !in {3, 1, 0, 5, 4, 2})
  }

  lemma ShownAsLabel(names: Names, host: string)
    ensures ShownAs(names, host, Label(names, host))
  {
    assert forall i :: 0 <= i < |host| ==> host[i] in host;
    if |host| < 8 {
      assert host[..|host|] == host;
    }
    assert |host| == 8 ==> host[..8] == host;
  }

  /** Hosts stand in the order of their statuses, and among like statuses in the order of the texts shown for them. */
  lemma HostsStand(rows: seq<Row>, pick: set<int> -> int, names: Names, g: Group, i: nat, j: nat, s: string, t: string)
    requires Summary(rows, pick, names, g) && i < j < |g.hosts|
    requires ShownAs(names, g.hosts[i].host, s) && ShownAs(names, g.hosts[j].host, t)
    ensures !ShownBefore(g.hosts[j].status, g.hosts[i].status)
    ensures ShownBefore(g.hosts[i].status, g.hosts[j].status) || StringLe(s, t)
  {
    ShownAsLabel(names, g.hosts[i].host);
    ShownAsLabel(names, g.hosts[j].host);
    LexMeans(s, t);
    assert HostOrder(names)(g.hosts[i], g.hosts[j]);
  }

  method Summarize(node: Key, rows: seq<Row>, pick: set<int> -> int, names: Names) returns (g: Group)
    requires rows != []
    ensures g.node == node && Summary(rows, pick, names, g) && GroupShows(rows, g)
    ensures PicksElements(pick) && (forall i :: 0 <= i < |rows| ==> 0 <= rows[i].status <= 5) ==>
      OverallShown(rows, g.overall)
  {
    var counts, statuses, completed, duration := Counts(rows);
    var attempts, first, last := Extremes(rows);
    HostOrderOk(names);
    var hosts := Sort(HostOrder(names), rows);
    g := Group(node, rows[0].nodeType, if rows[0].nodeName == "" then node else rows[0].nodeName,
               |rows|, completed, Aggregate(statuses, pick), counts, attempts,
               if first != FUTURE then Some(first) else None,
               if last != PAST then Some(last) else None,
               if duration != 0 then Some(duration) else None, hosts);
    SummaryMeans(rows, pick, names, g);
  }

  /** The rows, the names and the choice of `pick` determine the group. */
  lemma SummaryUnique(rows: seq<Row>, pick: set<int> -> int, names: Names, g: Group, g': Group)
    requires Summary(rows, pick, names, g) && Summary(rows, pick, names, g') && g.node == g'.node
    ensures g == g'
  {
    HostOrderOk(names);
    TiesCompose(HostOrder(names), g.hosts, rows, g'.hosts);
    StableSortUnique(HostOrder(names), g.hosts, g'.hosts);
    assert g.counts == g'.counts;
    ExtremesUnique(rows, pick, names, g, g');
  }

  lemma ExtremesUnique(rows: seq<Row>, pick: set<int> -> int, names: Names, g: Group, g': Group)
    requires Summary(rows, pick, names, g) && Summary(rows, pick, names, g')
    ensures g.attemptsMax == g'.attemptsMax
    ensures g.firstStarted == g'.firstStarted && g.lastFinished == g'.lastFinished
  {
  }

  lemma TiesCompose(le: (Row, Row) -> bool, s: seq<Row>, t: seq<Row>, u: seq<Row>)
    requires SameTies(le, s, t) && SameTies(le, u, t)
    ensures SameTies(le, s, u)
  {
    forall x ensures Tied(le, s, x) == Tied(le, u, x) {
      assert Tied(le, s, x) == Tied(le, t, x) && Tied(le, u, x) == Tied(le, t, x);
    }
  }

  /** The six counts add up to the size of the group exactly when every status is a known one. */
  lemma {:induction false} CountsAddUp(rows: seq<Row>)
    ensures var sum := CountStatus(rows, 0) + CountStatus(rows, 1) + CountStatus(rows, 2)
                       + CountStatus(rows, 3) + CountStatus(rows, 4) + CountStatus(rows, 5);
      sum <= |rows| && (sum == |rows| <==> forall i :: 0 <= i < |rows| ==> Known(rows[i].status))
  {
    if rows != [] {
      var init := rows[..|rows| - 1];
      CountsAddUp(init);
      assert forall i :: 0 <= i < |init| ==> rows[i] == init[i];
    }
  }
}
