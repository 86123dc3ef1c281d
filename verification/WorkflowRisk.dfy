/**
 Grading the risk of a workflow: points collected from its parts, repeated points dropped, the
 level read off the counts.  Adding to a workflow must never lower its level, although more
 hosts or more edges replace one point by another.
 */
module WorkflowRisk {
  import opened Finite
  import opened RiskMeaning
  import opened RiskModel

  /** Every point once, where it occurs first. */
  method Deduplicate(ps: seq<Point>) returns (deduped: seq<Point>)
    ensures deduped == FirstOccurrences(ps)
  {
    deduped := [];
    var seen := {};
    for i := 0 to |ps|
      invariant deduped == FirstOccurrences(ps[..i])
      invariant forall p :: p in seen <==> p in deduped
    {
      assert ps[..i + 1][..i] == ps[..i];
      if ps[i] !in seen {
        seen := seen + {ps[i]};
        deduped := deduped + [ps[i]];
      }
    }
    assert ps[..|ps|] == ps;
  }

  /** Level and points of a workflow. */
  method Evaluate(w: Workflow) returns (level: Level, deduped: seq<Point>)
    ensures Distinct(deduped) && Elements(deduped) == Elements(Points(w)) && InFirstOrder(Points(w), deduped)
    ensures forall p :: p in deduped <==> Raises(w, p)
    ensures level == LevelOf(Elements(Points(w)))
    ensures var ps := Elements(deduped);
      && (level == High <==> TwoSerious(ps) || (AnySerious(ps) && TwoWarned(ps)))
      && (level == Low <==> !AnySerious(ps) && !TwoWarned(ps) && |deduped| < 3)
  {
    deduped := Deduplicate(Points(w));
    FirstOccurrencesOnce(Points(w));
    FirstOccurrencesInOrder(Points(w));
    assert Elements(deduped) == Elements(Points(w));
    var high, warning := CountTags(deduped);
    level := Grade(high, warning, |deduped|);
    forall p ensures p in deduped <==> Raises(w, p) {
      PointsMean(w, p);
    }
    LevelMeans(Elements(deduped));
  }

  method CountTags(deduped: seq<Point>) returns (high: nat, warning: nat)
    requires Distinct(deduped)
    ensures high == |Highs(Elements(deduped))| && warning == |Warnings(Elements(deduped))|
    ensures |Elements(deduped)| == |deduped|
  {
    high, warning := 0, 0;
    DistinctIffCardinality(deduped);
    for i := 0 to |deduped|
      invariant high == |Highs(Elements(deduped[..i]))| && warning == |Warnings(Elements(deduped[..i]))|
    {
      var p := deduped[i];
      ElementsNext(deduped, i);
      CountsInsert(Elements(deduped[..i]), p);
      if IsHigh(p) {
        high := high + 1;
      }
      if IsWarning(p) {
        warning := warning + 1;
      }
    }
    assert deduped[..|deduped|] == deduped;
  }

  lemma ElementsNext(s: seq<Point>, i: nat)
    requires Distinct(s) && i < |s|
    ensures s[i] !in Elements(s[..i]) && Elements(s[..i + 1]) == Elements(s[..i]) + {s[i]}
  {
    assert s[..i + 1] == s[..i] + [s[i]];
  }

  lemma HighsInsert(ps: set<Point>, p: Point)
    requires p !in ps
    ensures |Highs(ps + {p})| == |Highs(ps)| + if IsHigh(p) then 1 else 0
  {
    if IsHigh(p) {
      assert Highs(ps + {p}) == Highs(ps) + {p};
    } else {
      assert Highs(ps + {p}) == Highs(ps);
    }
  }

  lemma WarningsInsert(ps: set<Point>, p: Point)
    requires p !in ps
    ensures |Warnings(ps + {p})| == |Warnings(ps)| + if IsWarning(p) then 1 else 0
  {
    if IsWarning(p) {
      assert Warnings(ps + {p}) == Warnings(ps) + {p};
    } else {
      assert Warnings(ps + {p}) == Warnings(ps);
    }
  }

  lemma CountsInsert(ps: set<Point>, p: Point)
    requires p !in ps
    ensures |ps + {p}| == |ps| + 1
    ensures |Highs(ps + {p})| == |Highs(ps)| + if IsHigh(p) then 1 else 0
    ensures |Warnings(ps + {p})| == |Warnings(ps)| + if IsWarning(p) then 1 else 0
  {
    HighsInsert(ps, p);
    WarningsInsert(ps, p);
  }

  // ---------- adding never lowers the level ----------

  function LevelRank(l: Level): nat {
    match l
    case Low => 0
    case Medium => 1
    case High => 2
  }

  predicate AtMost(a: Level, b: Level) {
    LevelRank(a) <= LevelRank(b)
  }

  /** More points, at least the same level. */
  lemma MorePoints(ps: set<Point>, qs: set<Point>)
    requires ps <= qs
    ensures AtMost(LevelOf(ps), LevelOf(qs))
  {
    SubsetCardinality(ps, qs);
    SubsetCardinality(Highs(ps), Highs(qs));
    SubsetCardinality(Warnings(ps), Warnings(qs));
  }

  /** Replacing a point by one at least as serious, tip by warning or warning by high, does not lower the level. */
  lemma MoreSeriousPoint(rest: set<Point>, p: Point, q: Point)
    requires p !in rest && q !in rest
    requires IsHigh(p) ==> IsHigh(q)
    requires IsWarning(p) ==> IsWarning(q) || (IsHigh(q) && !IsHigh(p))
    ensures AtMost(LevelOf(rest + {p}), LevelOf(rest + {q}))
  {
    CountsInsert(rest, p);
    CountsInsert(rest, q);
  }

  /** The points that depend neither on the number of hosts nor on the edges. */
  ghost function OwnPoints(w: Workflow): set<Point> {
    set p | p in Points(w) && !p.ManyHosts? && !p.ContinueEdges?
  }

  lemma PointsSplit(w: Workflow)
    ensures Elements(Points(w)) ==
            OwnPoints(w) + Elements(HostPoints(w.hosts)) + Elements(EdgePoints(ContinueCount(w.edges)))
  {
    forall p ensures p in Points(w) <==>
      p in OwnPoints(w) || p in HostPoints(w.hosts) || p in EdgePoints(ContinueCount(w.edges))
    {
      PointsMean(w, p);
      HostsMean(w, p);
      OtherPartsMean(w, p);
    }
  }

  /** Hosts and continue-on-failure edges only ever swap a point for one at least as serious. */
  lemma TiersOnlyRise(own: set<Point>, hosts: nat, hosts': nat, edges: nat, edges': nat)
    requires forall p :: p in own ==> !p.ManyHosts? && !p.ContinueEdges?
    requires hosts <= hosts' && edges <= edges'
    ensures AtMost(LevelOf(own + Elements(HostPoints(hosts)) + Elements(EdgePoints(edges))),
                   LevelOf(own + Elements(HostPoints(hosts')) + Elements(EdgePoints(edges'))))
  {
    var e, h' := Elements(EdgePoints(edges)), Elements(HostPoints(hosts'));
    HostsRise(own + e, hosts, hosts');
    SwapUnion(own, Elements(HostPoints(hosts)), e);
    SwapUnion(own, h', e);
    EdgesRise(own + h', edges, edges');
    AtMostTransitive(LevelOf(own + Elements(HostPoints(hosts)) + e), LevelOf(own + h' + e),
                     LevelOf(own + h' + Elements(EdgePoints(edges'))));
  }

  lemma AtMostTransitive(a: Level, b: Level, c: Level)
    requires AtMost(a, b) && AtMost(b, c)
    ensures AtMost(a, c)
  {
  }

  lemma SwapUnion(a: set<Point>, b: set<Point>, c: set<Point>)
    ensures a + b + c == a + c + b
  {
  }

  lemma HostsRise(rest: set<Point>, hosts: nat, hosts': nat)
    requires forall p :: p in rest ==> !p.ManyHosts?
    requires hosts <= hosts'
    ensures AtMost(LevelOf(rest + Elements(HostPoints(hosts))), LevelOf(rest + Elements(HostPoints(hosts'))))
  {
    if hosts < 10 {
      assert rest + Elements(HostPoints(hosts)) == rest;
      MorePoints(rest, rest + Elements(HostPoints(hosts')));
    } else {
      var p, q := HostPoints(hosts)[0], HostPoints(hosts')[0];
      assert Elements(HostPoints(hosts)) == {p} && Elements(HostPoints(hosts')) == {q};
      MoreSeriousPoint(rest, p, q);
    }
  }

  lemma EdgesRise(rest: set<Point>, edges: nat, edges': nat)
    requires forall p :: p in rest ==> !p.ContinueEdges?
    requires edges <= edges'
    ensures AtMost(LevelOf(rest + Elements(EdgePoints(edges))), LevelOf(rest + Elements(EdgePoints(edges'))))
  {
    if edges < 3 {
      assert rest + Elements(EdgePoints(edges)) == rest;
      MorePoints(rest, rest + Elements(EdgePoints(edges')));
    } else {
      var p, q := EdgePoints(edges)[0], EdgePoints(edges')[0];
      assert Elements(EdgePoints(edges)) == {p} && Elements(EdgePoints(edges')) == {q};
      MoreSeriousPoint(rest, p, q);
    }
  }

  /** `w'` has everything `w` has: nodes and steps somewhere, at least the hosts, every edge at least as often. */
  ghost predicate Extends(w: Workflow, w': Workflow) {
    && w.hosts <= w'.hosts && w.globalEnvs == w'.globalEnvs && w.missingApprover == w'.missingApprover
    && (forall n :: n in w.nodes ==> n in w'.nodes)
    && (forall n :: n in w.steps ==> n in w'.steps)
    && multiset(w.edges) <= multiset(w'.edges)
  }

  lemma {:induction false} ContinueCountMonotone(edges: seq<string>, edges': seq<string>)
    requires multiset(edges) <= multiset(edges')
    ensures ContinueCount(edges) <= ContinueCount(edges')
  {
    if edges != [] {
      var init, e := edges[..|edges| - 1], edges[|edges| - 1];
      assert edges == init + [e];
      assert e in multiset(edges');
      var i :| 0 <= i < |edges'| && edges'[i] == e;
      var rest := edges'[..i] + edges'[i + 1..];
      assert edges' == edges'[..i] + [e] + edges'[i + 1..];
      assert multiset(edges) == multiset(init) + multiset{e};
      assert multiset(edges') == multiset(rest) + multiset{e};
      forall x ensures multiset(init)[x] <= multiset(rest)[x] {
        assert multiset(edges)[x] <= multiset(edges')[x];
      }
      ContinueCountMonotone(init, rest);
      ContinueCountRemove(edges', i);
    }
  }

  lemma {:induction false} ContinueCountRemove(edges: seq<string>, i: nat)
    requires i < |edges|
    ensures ContinueCount(edges) ==
            ContinueCount(edges[..i] + edges[i + 1..]) + if ContinuesOnFailure(edges[i]) then 1 else 0
  {
    var init := edges[..|edges| - 1];
    var rest := edges[..i] + edges[i + 1..];
    if i == |edges| - 1 {
      assert rest == init;
    } else {
      ContinueCountRemove(init, i);
      assert rest[..|rest| - 1] == init[..i] + init[i + 1..];
    }
  }

  lemma OwnPointsGrow(w: Workflow, w': Workflow)
    requires Extends(w, w')
    ensures OwnPoints(w) <= OwnPoints(w')
  {
    forall p | p in OwnPoints(w) ensures p in OwnPoints(w') {
      PointsMean(w, p);
      PointsMean(w', p);
    }
  }

  /** Adding nodes, edges, steps or hosts, anywhere and in any number, never lowers the level. */
  lemma RiskMonotone(w: Workflow, w': Workflow)
    requires Extends(w, w')
    ensures AtMost(LevelOf(Elements(Points(w))), LevelOf(Elements(Points(w'))))
  {
    var own, own' := OwnPoints(w), OwnPoints(w');
    var k, k' := ContinueCount(w.edges), ContinueCount(w'.edges);
    PointsSplit(w);
    PointsSplit(w');
    OwnPointsGrow(w, w');
    ContinueCountMonotone(w.edges, w'.edges);
    TiersOnlyRise(own, w.hosts, w'.hosts, k, k');
    MorePoints(own + Elements(HostPoints(w'.hosts)) + Elements(EdgePoints(k')),
               own' + Elements(HostPoints(w'.hosts)) + Elements(EdgePoints(k')));
  }
}
