/** What a reader of the group list may rely on, stated against the rows and the definition. */
module GroupProperties {
  import opened Finite
  import opened Sorting
  import opened TopoOrder
  import opened TopoProperties
  import opened StatusAggregate
  import opened ExecutionGroups
  import opened GroupOrder

  /** All known nodes are placed below an unknown one if and only if no key of the cyclic tail is repeated. */
  lemma KnownBelowUnknownIff(d: Definition, index: map<Key, nat>, v: Key)
    requires Topological(d, index) && v !in d.keys
    ensures (forall u :: u in d.keys ==> Position(index, u) < Position(index, v)) <==> TailKeysUnique(d)
  {
    IndicesContiguousIffTailKeysUnique(d, index);
    var head :| Ordered(d, head, index);
    assert forall u :: u in d.keys <==> u in index;
    assert index == map[] ==> |index| == 0;
  }

  /** The group of a node comes before the groups of its successors, unless both are on or behind a cycle. */
  lemma PredecessorGroupFirst(d: Definition, index: map<Key, nat>, gs: seq<Group>, i: nat, j: nat)
    requires Topological(d, index) && Sorted(index, gs) && i < |gs| && j < |gs|
    requires Edge(d, gs[i].node, gs[j].node)
    requires !BehindCycle(d, gs[i].node) || !BehindCycle(d, gs[j].node)
    ensures i < j
  {
    EdgesGoUp(d, index, gs[i].node, gs[j].node);
  }

  /** Without repeated keys in the cyclic tail, groups of nodes that the definition does not know come last. */
  lemma UnknownNodesLast(d: Definition, index: map<Key, nat>, gs: seq<Group>, i: nat, j: nat)
    requires Topological(d, index) && Sorted(index, gs) && TailKeysUnique(d) && i < |gs| && j < |gs|
    requires gs[i].node in d.keys && gs[j].node !in d.keys
    ensures i < j
  {
    KnownBelowUnknownIff(d, index, gs[j].node);
  }

  lemma {:induction false} RowsOfMembers(pairs: seq<Pair>, latest: map<Pair, Row>, node: Key, r: Row)
    requires forall p :: p in pairs ==> p in latest
    ensures r in RowsOf(pairs, latest, node) <==>
            exists i :: 0 <= i < |pairs| && pairs[i].0 == node && latest[pairs[i]] == r
  {
    if pairs != [] {
      var init, last := pairs[..|pairs| - 1], pairs[|pairs| - 1];
      assert last in pairs && forall p :: p in init ==> p in pairs;
      RowsOfMembers(init, latest, node, r);
      if r in RowsOf(init, latest, node) {
        var i :| 0 <= i < |init| && init[i].0 == node && latest[init[i]] == r;
        assert pairs[i] == init[i];
      }
    }
  }

  lemma LatestRowIsARow(rows: seq<Row>, pairs: seq<Pair>, latest: map<Pair, Row>, node: Key, r: Row)
    requires LatestMap(rows, pairs, latest) && r in RowsOf(pairs, latest, node)
    ensures exists n :: 0 <= n < |rows| && rows[n] == r && r.node == node && IsLatest(rows, n)
  {
    RowsOfMembers(pairs, latest, node, r);
    var i :| 0 <= i < |pairs| && pairs[i].0 == node && latest[pairs[i]] == r;
    assert pairs[i] in pairs && LatestOf(rows, pairs[i], r);
  }

  lemma GroupOfNode(rows: seq<Row>, pick: set<int> -> int, names: Names, gs: seq<Group>, j: nat)
    returns (pairs: seq<Pair>, latest: map<Pair, Row>)
    requires Summed(rows, pick, names, gs) && j < |gs|
    ensures LatestMap(rows, pairs, latest)
    ensures Summary(RowsOf(pairs, latest, gs[j].node), pick, names, gs[j])
  {
    pairs, latest :| GroupsOf(rows, pick, names, pairs, latest, gs);
    assert gs[j] in gs && SumsUp(pairs, latest, pick, names, gs[j]);
  }

  /** The latest row of the pair of any row is in its node's group. */
  lemma LatestInGroup(rows: seq<Row>, pairs: seq<Pair>, latest: map<Pair, Row>, i: nat) returns (m: nat)
    requires LatestMap(rows, pairs, latest) && i < |rows|
    ensures m < |RowsOf(pairs, latest, rows[i].node)|
    ensures var r := RowsOf(pairs, latest, rows[i].node)[m];
      r == latest[PairOf(rows[i])] && LatestOf(rows, PairOf(rows[i]), r)
  {
    var p := PairOf(rows[i]);
    assert Occurs(rows, p) && LatestOf(rows, p, latest[p]) && p in pairs;
    var n :| 0 <= n < |pairs| && pairs[n] == p;
    RowsOfMembers(pairs, latest, p.0, latest[p]);
    m :| 0 <= m < |RowsOf(pairs, latest, p.0)| && RowsOf(pairs, latest, p.0)[m] == latest[p];
  }

  lemma AttemptAtMostMax(rows: seq<Row>, pairs: seq<Pair>, latest: map<Pair, Row>, max: int, i: nat)
    requires LatestMap(rows, pairs, latest) && i < |rows|
    requires AttemptsShown(RowsOf(pairs, latest, rows[i].node), max)
    ensures NotAfter(rows[i].attempt, max) && (rows[i].attempt >= 0 ==> max >= 1)
  {
    var m := LatestInGroup(rows, pairs, latest, i);
    var r := RowsOf(pairs, latest, rows[i].node)[m];
    assert r in RowsOf(pairs, latest, rows[i].node) && NotAfter(rows[i].attempt, r.attempt);
  }

  lemma MaxIsAttained(rows: seq<Row>, pairs: seq<Pair>, latest: map<Pair, Row>, node: Key, max: int)
    requires LatestMap(rows, pairs, latest) && AttemptsShown(RowsOf(pairs, latest, node), max) && max > 0
    ensures exists n :: 0 <= n < |rows| && rows[n].node == node
                        && (rows[n].attempt == max || (rows[n].attempt == 0 && max == 1))
  {
    var of := RowsOf(pairs, latest, node);
    var r :| r in of && (r.attempt == max || (r.attempt == 0 && max == 1));
    LatestRowIsARow(rows, pairs, latest, node, r);
  }

  /** A group's greatest attempt number is the greatest over all rows of the node, historical ones included. */
  lemma AttemptsMaxOverAllRows(rows: seq<Row>, pick: set<int> -> int, names: Names, gs: seq<Group>, j: nat, i: nat)
    requires Summed(rows, pick, names, gs) && j < |gs| && i < |rows| && rows[i].node == gs[j].node
    ensures NotAfter(rows[i].attempt, gs[j].attemptsMax) && (rows[i].attempt >= 0 ==> gs[j].attemptsMax >= 1)
    ensures gs[j].attemptsMax > 0 ==>
      exists n :: 0 <= n < |rows| && rows[n].node == gs[j].node
                  && (rows[n].attempt == gs[j].attemptsMax || (rows[n].attempt == 0 && gs[j].attemptsMax == 1))
  {
    var pairs, latest := GroupOfNode(rows, pick, names, gs, j);
    SummaryMeans(RowsOf(pairs, latest, gs[j].node), pick, names, gs[j]);
    AttemptAtMostMax(rows, pairs, latest, gs[j].attemptsMax, i);
    if gs[j].attemptsMax > 0 {
      MaxIsAttained(rows, pairs, latest, gs[j].node, gs[j].attemptsMax);
    }
  }

  ghost function HostsOf(pairs: seq<Pair>, node: Key): set<string> {
    set i | 0 <= i < |pairs| && pairs[i].0 == node :: pairs[i].1
  }

  lemma HostsOfSnoc(pairs: seq<Pair>, p: Pair, node: Key)
    ensures HostsOf(pairs + [p], node) == HostsOf(pairs, node) + if p.0 == node then {p.1} else {}
  {
    var all := pairs + [p];
    assert all[|pairs|] == p;
    forall h | h in HostsOf(pairs, node) ensures h in HostsOf(all, node) {
      var i :| 0 <= i < |pairs| && pairs[i].0 == node && pairs[i].1 == h;
      assert all[i] == pairs[i];
    }
  }

  lemma OneMoreHost(pairs: seq<Pair>, p: Pair, node: Key)
    requires Distinct(pairs + [p])
    ensures |HostsOf(pairs + [p], node)| == |HostsOf(pairs, node)| + if p.0 == node then 1 else 0
  {
    var all := pairs + [p];
    HostsOfSnoc(pairs, p, node);
    if p.0 == node {
      forall i | 0 <= i < |pairs| && pairs[i].0 == node ensures pairs[i].1 != p.1 {
        assert all[i] == pairs[i] && all[|pairs|] == p;
      }
      assert p.1 !in HostsOf(pairs, node);
    }
  }

  lemma {:induction false} RowsOfCountsHosts(pairs: seq<Pair>, latest: map<Pair, Row>, node: Key)
    requires Distinct(pairs) && forall p :: p in pairs ==> p in latest
    ensures |RowsOf(pairs, latest, node)| == |HostsOf(pairs, node)|
  {
    if pairs != [] {
      var init, last := pairs[..|pairs| - 1], pairs[|pairs| - 1];
      assert pairs == init + [last];
      assert last in pairs && forall p :: p in init ==> p in pairs;
      RowsOfCountsHosts(init, latest, node);
      OneMoreHost(init, last, node);
    }
  }

  ghost function HostsWithRows(rows: seq<Row>, node: Key): set<string> {
    set i | 0 <= i < |rows| && rows[i].node == node :: rows[i].host
  }

  /** The size of a group is the number of different hosts with rows for the node. */
  lemma GroupSizeIsHostCount(rows: seq<Row>, pick: set<int> -> int, names: Names, gs: seq<Group>, j: nat)
    requires Summed(rows, pick, names, gs) && j < |gs|
    ensures gs[j].totalHosts == |HostsWithRows(rows, gs[j].node)|
  {
    var pairs, latest := GroupOfNode(rows, pick, names, gs, j);
    FirstOccurrencesOnce(AllPairs(rows));
    RowsOfCountsHosts(pairs, latest, gs[j].node);
    SameHosts(rows, pairs, latest, gs[j].node);
  }

  lemma SameHosts(rows: seq<Row>, pairs: seq<Pair>, latest: map<Pair, Row>, node: Key)
    requires LatestMap(rows, pairs, latest)
    ensures HostsOf(pairs, node) == HostsWithRows(rows, node)
  {
    forall h ensures h in HostsOf(pairs, node) <==> h in HostsWithRows(rows, node) {
      if h in HostsOf(pairs, node) {
        var i :| 0 <= i < |pairs| && pairs[i].0 == node && pairs[i].1 == h;
        assert pairs[i] in pairs && Occurs(rows, pairs[i]);
        var n :| 0 <= n < |rows| && PairOf(rows[n]) == pairs[i];
        assert rows[n].node == node && rows[n].host == h;
      }
      if h in HostsWithRows(rows, node) {
        var i :| 0 <= i < |rows| && rows[i].node == node && rows[i].host == h;
        assert Occurs(rows, PairOf(rows[i])) && PairOf(rows[i]) in pairs;
        var n :| 0 <= n < |pairs| && pairs[n] == PairOf(rows[i]);
        assert pairs[n].1 == h;
      }
    }
  }

  /** The status shown for a node is the status of one of its latest rows, and no latest row is more critical. */
  lemma OverallIsMostCriticalLatest(rows: seq<Row>, pick: set<int> -> int, names: Names, gs: seq<Group>, j: nat, n: nat)
    requires Summed(rows, pick, names, gs) && j < |gs| && PicksElements(pick)
    requires forall i :: 0 <= i < |rows| ==> Known(rows[i].status)
    requires n < |rows| && rows[n].node == gs[j].node && Kept(rows, n)
    ensures Rank(rows[n].status) <= Rank(gs[j].overall)
    ensures exists m: nat :: Kept(rows, m) && rows[m].node == gs[j].node && rows[m].status == gs[j].overall
  {
    LatestMeans(rows, n);
    var pairs, latest := GroupOfNode(rows, pick, names, gs, j);
    var of := RowsOf(pairs, latest, gs[j].node);
    var k := LatestInGroup(rows, pairs, latest, n);
    LatestIsThisRow(rows, n, of[k]);
    LatestStatusesKnown(rows, pairs, latest, gs[j].node);
    assert of[k].status in Statuses(of);
    AggregateIsMostCritical(Statuses(of), pick, rows[n].status);
    var q :| 0 <= q < |of| && of[q].status == gs[j].overall;
    LatestRowIsARow(rows, pairs, latest, gs[j].node, of[q]);
    var m :| 0 <= m < |rows| && rows[m] == of[q] && of[q].node == gs[j].node && IsLatest(rows, m);
    LatestMeans(rows, m);
  }

  lemma LatestIsThisRow(rows: seq<Row>, n: nat, r: Row)
    requires n < |rows| && IsLatest(rows, n) && LatestOf(rows, PairOf(rows[n]), r)
    ensures r == rows[n]
  {
    var m :| 0 <= m < |rows| && rows[m] == r && PairOf(r) == PairOf(rows[n]) && IsLatest(rows, m);
    assert m == n;
  }

  lemma LatestStatusesKnown(rows: seq<Row>, pairs: seq<Pair>, latest: map<Pair, Row>, node: Key)
    requires LatestMap(rows, pairs, latest) && forall i :: 0 <= i < |rows| ==> Known(rows[i].status)
    ensures forall st :: st in Statuses(RowsOf(pairs, latest, node)) ==> Known(st)
  {
    var of := RowsOf(pairs, latest, node);
    forall q | 0 <= q < |of| ensures Known(of[q].status) {
      LatestRowIsARow(rows, pairs, latest, node, of[q]);
    }
  }

  // ---------- the host shown first ----------

  lemma FirstHostMostSevere(rows: seq<Row>, pick: set<int> -> int, names: Names, g: Group, i: nat)
    requires Summary(rows, pick, names, g) && i < |rows|
    ensures |g.hosts| > 0 && g.hosts[0] in rows && Severity(g.hosts[0].status) <= Severity(rows[i].status)
  {
    HostOrderOk(names);
    SameMembers(HostOrder(names), g.hosts, rows);
    assert g.hosts[0] in g.hosts && rows[i] in rows;
    var j :| 0 <= j < |g.hosts| && g.hosts[j] == rows[i];
    if j > 0 {
      assert HostOrder(names)(g.hosts[0], g.hosts[j]);
    }
  }

  /** Severity and rank order the known statuses oppositely, but for skipped and successful. */
  lemma SeverityAgainstRank(all: set<int>, first: int, overall: int)
    requires first in all && overall in all && forall st :: st in all ==> Known(st)
    requires forall st :: st in all ==> Severity(first) <= Severity(st) && Rank(st) <= Rank(overall)
    ensures first == overall <==> all != {SUCCESS, SKIPPED}
  {
    if first != overall {
      assert first == SKIPPED && overall == SUCCESS;
      forall st | st in all ensures st in {SUCCESS, SKIPPED} {
        assert Known(st) && Severity(SKIPPED) <= Severity(st);
      }
    }
  }

  /**
   The host shown first has the status shown for the group, with one exception: among skipped and
   successful hosts, and no others, a skipped one is shown first and the group counts as successful.
   */
  lemma FirstHostShowsOverall(rows: seq<Row>, pick: set<int> -> int, names: Names, g: Group)
    requires Summary(rows, pick, names, g) && PicksElements(pick)
    requires forall i :: 0 <= i < |rows| ==> Known(rows[i].status)
    ensures |g.hosts| > 0 && (g.hosts[0].status == g.overall <==> Statuses(rows) != {SUCCESS, SKIPPED})
  {
    var all := Statuses(rows);
    FirstHostMostSevere(rows, pick, names, g, 0);
    var n :| 0 <= n < |rows| && rows[n] == g.hosts[0];
    assert rows[n].status in all;
    AggregateIsMember(all, pick);
    forall st | st in all ensures Severity(g.hosts[0].status) <= Severity(st) && Rank(st) <= Rank(g.overall) {
      var k :| 0 <= k < |rows| && rows[k].status == st;
      FirstHostMostSevere(rows, pick, names, g, k);
      AggregateIsMostCritical(all, pick, st);
    }
    SeverityAgainstRank(all, g.hosts[0].status, g.overall);
  }

  // ---------- where a group stands ----------

  /** Of two groups of the definition the first has the lower index; two unknown ones stand in key order. */
  lemma GroupsStand(d: Definition, index: map<Key, nat>, gs: seq<Group>, i: nat, j: nat)
    requires Topological(d, index) && Sorted(index, gs) && NodesDistinct(gs) && i < j < |gs|
    ensures gs[i].node in index && gs[j].node in index ==> index[gs[i].node] < index[gs[j].node]
    ensures gs[i].node !in index && gs[j].node !in index ==> StringLe(gs[i].node, gs[j].node)
  {
    LexMeans(gs[i].node, gs[j].node);
    var head :| Ordered(d, head, index);
    assert KeyLe(index, gs[i].node, gs[j].node);
  }
}
