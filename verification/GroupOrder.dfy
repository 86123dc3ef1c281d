/** The list of groups of an execution, sorted by the index of their nodes. */
module GroupOrder {
  import opened Finite
  import opened Sorting
  import opened TopoOrder
  import opened TopoProperties
  import opened ExecutionGroups

  // ---------- the sort key ----------

  function Position(index: map<Key, nat>, k: Key): nat {
    if k in index then index[k] else if |index| == 0 then 1_000_000 else |index|
  }

  predicate KeyLe(index: map<Key, nat>, a: Key, b: Key) {
    var i, j := Position(index, a), Position(index, b);
    i < j || (i == j && LexLe(a, b))
  }

  function GroupOrderBy(index: map<Key, nat>): (Group, Group) -> bool {
    (a: Group, b: Group) => KeyLe(index, a.node, b.node)
  }

  lemma GroupOrderOk(index: map<Key, nat>)
    ensures TotalPreorder(GroupOrderBy(index))
  {
    forall a: Group, b: Group ensures KeyLe(index, a.node, b.node) || KeyLe(index, b.node, a.node) {
      LexTotal(a.node, b.node);
    }
    forall a: Group, b: Group, c: Group | KeyLe(index, a.node, b.node) && KeyLe(index, b.node, c.node)
      ensures KeyLe(index, a.node, c.node)
    {
      if Position(index, a.node) == Position(index, b.node) == Position(index, c.node) {
        LexTransitive(a.node, b.node, c.node);
      }
    }
  }

  lemma KeyAntisymmetric(index: map<Key, nat>, a: Key, b: Key)
    requires KeyLe(index, a, b) && KeyLe(index, b, a)
    ensures a == b
  {
    LexTotal(a, b);
  }

  // ---------- sorting ----------

  ghost predicate Sorted(index: map<Key, nat>, gs: seq<Group>) {
    forall i, j :: 0 <= i < j < |gs| ==> KeyLe(index, gs[i].node, gs[j].node)
  }

  ghost predicate NodesDistinct(gs: seq<Group>) {
    forall i, j :: 0 <= i < j < |gs| ==> gs[i].node != gs[j].node
  }

  function TotalHosts(gs: seq<Group>): nat {
    if gs == [] then 0 else TotalHosts(gs[..|gs| - 1]) + gs[|gs| - 1].totalHosts
  }

  lemma {:induction false} TotalHostsRemove(gs: seq<Group>, i: nat)
    requires i < |gs|
    ensures TotalHosts(gs) == TotalHosts(gs[..i] + gs[i + 1..]) + gs[i].totalHosts
  {
    var init, rest := gs[..|gs| - 1], gs[..i] + gs[i + 1..];
    if i == |gs| - 1 {
      assert rest == init;
    } else {
      TotalHostsRemove(init, i);
      assert rest[..|rest| - 1] == init[..i] + init[i + 1..];
    }
  }

  lemma WithoutAt(gs: seq<Group>, i: nat)
    requires i < |gs|
    ensures multiset(gs[..i] + gs[i + 1..]) == multiset(gs) - multiset{gs[i]}
  {
    assert gs == gs[..i] + [gs[i]] + gs[i + 1..];
  }

  lemma {:induction false} TotalHostsPermuted(gs: seq<Group>, out: seq<Group>)
    requires multiset(gs) == multiset(out)
    ensures TotalHosts(gs) == TotalHosts(out)
  {
    if gs == [] {
      assert |out| == |multiset(out)|;
    } else {
      var i := MatchLast(gs, out);
      TotalHostsPermuted(gs[..|gs| - 1], out[..i] + out[i + 1..]);
      TotalHostsRemove(out, i);
    }
  }

  lemma MatchLast(gs: seq<Group>, out: seq<Group>) returns (i: nat)
    requires gs != [] && multiset(gs) == multiset(out)
    ensures i < |out| && out[i] == gs[|gs| - 1]
    ensures multiset(gs[..|gs| - 1]) == multiset(out[..i] + out[i + 1..])
  {
    var g := gs[|gs| - 1];
    WithoutLast(gs);
    i :| 0 <= i < |out| && out[i] == g;
    WithoutAt(out, i);
  }

  lemma WithoutLast(gs: seq<Group>)
    requires gs != []
    ensures gs[|gs| - 1] in multiset(gs)
    ensures multiset(gs[..|gs| - 1]) == multiset(gs) - multiset{gs[|gs| - 1]}
  {
    assert gs == gs[..|gs| - 1] + [gs[|gs| - 1]];
  }

  lemma NodesStayDistinct(gs: seq<Group>, out: seq<Group>)
    requires NodesDistinct(gs) && |out| == |gs| && forall x :: x in out <==> x in gs
    ensures NodesDistinct(out)
  {
    DistinctIffCardinality(gs);
    DistinctIffCardinality(out);
    assert Elements(gs) == Elements(out);
    forall i, j | 0 <= i < j < |out| ensures out[i].node != out[j].node {
      assert out[i] in gs && out[j] in gs && out[i] != out[j];
    }
  }

  /** Sorting keeps the groups: the same members, each node once, the same total. */
  method SortGroups(index: map<Key, nat>, gs: seq<Group>) returns (out: seq<Group>)
    requires NodesDistinct(gs)
    ensures Sorted(index, out) && NodesDistinct(out)
    ensures |out| == |gs| && TotalHosts(out) == TotalHosts(gs)
    ensures forall x :: x in out <==> x in gs
  {
    GroupOrderOk(index);
    out := Sort(GroupOrderBy(index), gs);
    TotalHostsPermuted(out, gs);
    assert |out| == |multiset(out)| == |multiset(gs)| == |gs|;
    assert forall x :: x in out <==> x in multiset(out);
    NodesStayDistinct(gs, out);
  }

  ghost predicate SameGroupSet(gs: seq<Group>, gs': seq<Group>) {
    forall x :: x in gs <==> x in gs'
  }

  /** Sorted lists of the same groups, one for each node, are equal. */
  lemma {:induction false} SortedUnique(index: map<Key, nat>, gs: seq<Group>, gs': seq<Group>)
    requires Sorted(index, gs) && NodesDistinct(gs) && Sorted(index, gs') && NodesDistinct(gs')
    requires SameGroupSet(gs, gs')
    ensures gs == gs'
  {
    assert gs != [] ==> gs[0] in gs;
    assert gs' != [] ==> gs'[0] in gs';
    if gs != [] {
      SameLastGroup(index, gs, gs');
      InitMembers(gs, gs');
      SortedUnique(index, gs[..|gs| - 1], gs'[..|gs'| - 1]);
      assert gs == gs[..|gs| - 1] + [gs[|gs| - 1]];
    }
  }

  lemma SameLastGroup(index: map<Key, nat>, gs: seq<Group>, gs': seq<Group>)
    requires Sorted(index, gs) && NodesDistinct(gs) && Sorted(index, gs') && NodesDistinct(gs')
    requires gs != [] && SameGroupSet(gs, gs')
    ensures gs' != [] && gs[|gs| - 1] == gs'[|gs'| - 1]
  {
    var x := gs[|gs| - 1];
    assert x in gs';
    var y := gs'[|gs'| - 1];
    assert y in gs;
    if x != y {
      KeyAntisymmetric(index, x.node, y.node);
    }
  }

  lemma InitMembers(gs: seq<Group>, gs': seq<Group>)
    requires NodesDistinct(gs) && NodesDistinct(gs') && gs != [] && gs' != []
    requires gs[|gs| - 1] == gs'[|gs'| - 1] && SameGroupSet(gs, gs')
    ensures SameGroupSet(gs[..|gs| - 1], gs'[..|gs'| - 1])
  {
    var init, init' := gs[..|gs| - 1], gs'[..|gs'| - 1];
    forall x ensures x in init <==> x in init' {
      LastRemoved(gs, x);
      LastRemoved(gs', x);
    }
  }

  lemma LastRemoved(gs: seq<Group>, x: Group)
    requires NodesDistinct(gs) && gs != []
    ensures x in gs[..|gs| - 1] <==> x in gs && x != gs[|gs| - 1]
  {
    assert gs == gs[..|gs| - 1] + [gs[|gs| - 1]];
  }

  // ---------- the whole list ----------

  ghost predicate HasGroup(gs: seq<Group>, node: Key) {
    exists j :: 0 <= j < |gs| && gs[j].node == node
  }

  ghost predicate HasRow(rows: seq<Row>, node: Key) {
    exists i :: 0 <= i < |rows| && rows[i].node == node
  }

  /** The group sums up the latest rows of its node. */
  ghost predicate SumsUp(pairs: seq<Pair>, latest: map<Pair, Row>, pick: set<int> -> int, names: Names, g: Group) {
    Summary(RowsOf(pairs, latest, g.node), pick, names, g)
  }

  /** One group for every node with rows, each summing up the latest rows of its node. */
  ghost predicate GroupsOf(rows: seq<Row>, pick: set<int> -> int, names: Names, pairs: seq<Pair>,
                           latest: map<Pair, Row>, gs: seq<Group>)
  {
    && LatestMap(rows, pairs, latest)
    && NodesDistinct(gs)
    && (forall node :: HasGroup(gs, node) <==> HasRow(rows, node))
    && (forall g :: g in gs ==> SumsUp(pairs, latest, pick, names, g))
  }

  lemma PairsCoverNodes(rows: seq<Row>, pairs: seq<Pair>, latest: map<Pair, Row>, node: Key)
    requires LatestMap(rows, pairs, latest)
    ensures RowsOf(pairs, latest, node) != [] <==> HasRow(rows, node)
  {
    RowsOfNode(pairs, latest, node);
    if p :| p in pairs && p.0 == node {
      assert Occurs(rows, p);
    }
    if i :| 0 <= i < |rows| && rows[i].node == node {
      assert Occurs(rows, PairOf(rows[i])) && PairOf(rows[i]) in pairs;
    }
  }

  /** A group for each of these nodes, in their order. */
  ghost predicate GroupEach(nodes: seq<Key>, pairs: seq<Pair>, latest: map<Pair, Row>, pick: set<int> -> int,
                            names: Names, gs: seq<Group>)
  {
    && |gs| == |nodes| && TotalHosts(gs) == SumSizes(nodes, pairs, latest)
    && (forall i :: 0 <= i < |gs| ==> gs[i].node == nodes[i])
    && (forall g :: g in gs ==> SumsUp(pairs, latest, pick, names, g))
  }

  lemma GroupEachSnoc(nodes: seq<Key>, pairs: seq<Pair>, latest: map<Pair, Row>, pick: set<int> -> int,
                      names: Names, gs: seq<Group>, g: Group)
    requires GroupEach(nodes, pairs, latest, pick, names, gs) && SumsUp(pairs, latest, pick, names, g)
    ensures GroupEach(nodes + [g.node], pairs, latest, pick, names, gs + [g])
  {
    assert (nodes + [g.node])[..|nodes|] == nodes;
  }

  /** The groups before sorting, one for each node in the order in which the nodes were met. */
  method Summaries(nodes: seq<Key>, rowsOf: map<Key, seq<Row>>, pick: set<int> -> int, names: Names,
                   ghost pairs: seq<Pair>, ghost latest: map<Pair, Row>) returns (gs: seq<Group>)
    requires forall k :: k in nodes ==> k in rowsOf && rowsOf[k] == RowsOf(pairs, latest, k) && rowsOf[k] != []
    ensures GroupEach(nodes, pairs, latest, pick, names, gs)
  {
    gs := [];
    for i := 0 to |nodes|
      invariant GroupEach(nodes[..i], pairs, latest, pick, names, gs)
    {
      assert nodes[i] in nodes && nodes[..i + 1] == nodes[..i] + [nodes[i]];
      var g := Summarize(nodes[i], rowsOf[nodes[i]], pick, names);
      GroupEachSnoc(nodes[..i], pairs, latest, pick, names, gs, g);
      gs := gs + [g];
    }
    assert nodes[..|nodes|] == nodes;
  }

  ghost function PairsOf(rows: seq<Row>): set<Pair> {
    set i | 0 <= i < |rows| :: PairOf(rows[i])
  }

  /** The groups sum up the latest attempts, and their sizes add up to the number of node and host pairs. */
  ghost predicate Summed(rows: seq<Row>, pick: set<int> -> int, names: Names, gs: seq<Group>) {
    && TotalHosts(gs) == |PairsOf(rows)|
    && exists pairs, latest :: GroupsOf(rows, pick, names, pairs, latest, gs)
  }

  /** The groups stand in the order of their nodes. */
  ghost predicate InOrder(d: Definition, gs: seq<Group>) {
    exists index :: Topological(d, index) && QueueOrder(d, index) && Sorted(index, gs)
  }

  lemma PairsCounted(rows: seq<Row>, pairs: seq<Pair>, latest: map<Pair, Row>)
    requires LatestMap(rows, pairs, latest)
    ensures |pairs| == |PairsOf(rows)|
  {
    FirstOccurrencesOnce(AllPairs(rows));
    DistinctIffCardinality(pairs);
    forall p ensures p in Elements(pairs) <==> p in PairsOf(rows) {
      assert p in pairs <==> Occurs(rows, p);
    }
    assert Elements(pairs) == PairsOf(rows);
  }

  /** The node groups of an execution of a definition. */
  method NodeExecutionGroups(d: Definition, rows: seq<Row>, pick: set<int> -> int, names: Names)
    returns (gs: seq<Group>)
    ensures Summed(rows, pick, names, gs)
    ensures InOrder(d, gs)
  {
    var pairs, latest := LatestAttempts(rows);
    var nodes, rowsOf := ByNode(pairs, latest);
    var index := TopoIndex(d);
    var unsorted := Summaries(nodes, rowsOf, pick, names, pairs, latest);
    NodesCounted(rows, pairs, latest, nodes);
    gs := SortGroups(index, unsorted);
    SameGroups(nodes, unsorted, gs);
    assert GroupsOf(rows, pick, names, pairs, latest, gs);
  }

  lemma NodesCounted(rows: seq<Row>, pairs: seq<Pair>, latest: map<Pair, Row>, nodes: seq<Key>)
    requires LatestMap(rows, pairs, latest) && Distinct(nodes)
    requires forall k :: k in nodes <==> RowsOf(pairs, latest, k) != []
    ensures forall node :: node in nodes <==> HasRow(rows, node)
    ensures SumSizes(nodes, pairs, latest) == |PairsOf(rows)|
  {
    forall node ensures node in nodes <==> HasRow(rows, node) {
      PairsCoverNodes(rows, pairs, latest, node);
    }
    forall p | p in pairs ensures p.0 in nodes {
      RowsOfNode(pairs, latest, p.0);
    }
    SizesAddUp(nodes, pairs, latest);
    PairsCounted(rows, pairs, latest);
  }

  lemma SameGroups(nodes: seq<Key>, unsorted: seq<Group>, gs: seq<Group>)
    requires |unsorted| == |nodes| && forall i :: 0 <= i < |nodes| ==> unsorted[i].node == nodes[i]
    requires forall x :: x in gs <==> x in unsorted
    ensures forall node :: HasGroup(gs, node) <==> node in nodes
  {
    forall node ensures HasGroup(gs, node) <==> node in nodes {
      if j :| 0 <= j < |gs| && gs[j].node == node {
        assert gs[j] in gs && gs[j] in unsorted;
      }
      if i :| 0 <= i < |nodes| && nodes[i] == node {
        assert unsorted[i] in unsorted && unsorted[i] in gs;
      }
    }
  }

  // ---------- the list is determined ----------

  lemma LatestUnique(rows: seq<Row>, pairs: seq<Pair>, pairs': seq<Pair>, latest: map<Pair, Row>,
                     latest': map<Pair, Row>)
    requires LatestMap(rows, pairs, latest) && LatestMap(rows, pairs', latest')
    ensures pairs == pairs' && latest == latest'
  {
    forall p | p in latest ensures p in latest' && latest[p] == latest'[p] {
      assert Occurs(rows, p);
      var i :| 0 <= i < |rows| && rows[i] == latest[p] && PairOf(latest[p]) == p && IsLatest(rows, i);
      var j :| 0 <= j < |rows| && rows[j] == latest'[p] && PairOf(latest'[p]) == p && IsLatest(rows, j);
      assert i == j;
    }
  }

  lemma SameMembersOf(rows: seq<Row>, pick: set<int> -> int, names: Names, pairs: seq<Pair>, latest: map<Pair, Row>,
                      gs: seq<Group>, gs': seq<Group>, g: Group)
    requires GroupsOf(rows, pick, names, pairs, latest, gs) && GroupsOf(rows, pick, names, pairs, latest, gs')
    requires g in gs
    ensures g in gs'
  {
    var i :| 0 <= i < |gs| && gs[i] == g;
    assert HasGroup(gs, g.node) && HasGroup(gs', g.node);
    var j :| 0 <= j < |gs'| && gs'[j].node == g.node;
    assert gs'[j] in gs' && SumsUp(pairs, latest, pick, names, g) && SumsUp(pairs, latest, pick, names, gs'[j]);
    SummaryUnique(RowsOf(pairs, latest, g.node), pick, names, g, gs'[j]);
  }

  /** Definition, rows, host names and the choice of `pick` determine the list of groups. */
  lemma GroupsUnique(d: Definition, rows: seq<Row>, pick: set<int> -> int, names: Names, gs: seq<Group>,
                     gs': seq<Group>)
    requires Summed(rows, pick, names, gs) && InOrder(d, gs)
    requires Summed(rows, pick, names, gs') && InOrder(d, gs')
    ensures gs == gs'
  {
    var index :| Topological(d, index) && QueueOrder(d, index) && Sorted(index, gs);
    var index' :| Topological(d, index') && QueueOrder(d, index') && Sorted(index', gs');
    TopologicalUnique(d, index, index');
    SameGroupSets(rows, pick, names, gs, gs');
    SortedUnique(index, gs, gs');
  }

  lemma SameGroupSets(rows: seq<Row>, pick: set<int> -> int, names: Names, gs: seq<Group>, gs': seq<Group>)
    requires Summed(rows, pick, names, gs) && Summed(rows, pick, names, gs')
    ensures NodesDistinct(gs) && NodesDistinct(gs') && SameGroupSet(gs, gs')
  {
    var pairs: seq<Pair>, latest: map<Pair, Row> :| GroupsOf(rows, pick, names, pairs, latest, gs);
    var pairs': seq<Pair>, latest': map<Pair, Row> :| GroupsOf(rows, pick, names, pairs', latest', gs');
    LatestUnique(rows, pairs, pairs', latest, latest');
    forall g ensures g in gs <==> g in gs' {
      if g in gs {
        SameMembersOf(rows, pick, names, pairs, latest, gs, gs', g);
      }
      if g in gs' {
        SameMembersOf(rows, pick, names, pairs, latest, gs', gs, g);
      }
    }
  }
}
