/** The status of a node, aggregated from the statuses of its hosts. */
module StatusAggregate {
  import opened Finite

  const PENDING := 0
  const RUNNING := 1
  const SUCCESS := 2
  const FAILED := 3
  const SKIPPED := 4
  const CANCELLED := 5

  predicate Known(st: int) { 0 <= st <= 5 }

  /**
   The recursive rule.  `pick` stands for taking any element of a set, as iterating over an
   unordered set does; it is reached with several elements only for unknown statuses.
   */
  function Aggregate(s: set<int>, pick: set<int> -> int): int
    decreases |s|
  {
    if s == {} then PENDING
    else if FAILED in s then FAILED
    else if RUNNING in s then RUNNING
    else if PENDING in s then PENDING
    else if CANCELLED in s && SUCCESS in s then CANCELLED
    else if SKIPPED in s && |s| > 1 then
      var rest := s - {SKIPPED};
      assert |rest| < |s|;
      if rest == {SUCCESS} then SUCCESS else Aggregate(rest, pick)
    else pick(s)
  }

  ghost predicate PicksElements(pick: set<int> -> int) {
    forall s :: s != {} ==> pick(s) in s
  }

  /** How critical a status is. */
  function Rank(st: int): int {
    if st == SKIPPED then 0
    else if st == SUCCESS then 1
    else if st == CANCELLED then 2
    else if st == PENDING then 3
    else if st == RUNNING then 4
    else 5
  }

  function Join(a: int, b: int): int {
    if Rank(a) >= Rank(b) then a else b
  }

  /** The aggregate of any statuses at all is one of them. */
  lemma {:induction false} AggregateIsMember(s: set<int>, pick: set<int> -> int)
    requires s != {} && PicksElements(pick)
    ensures Aggregate(s, pick) in s
    decreases |s|
  {
    if SKIPPED in s && |s| > 1 {
      var rest := s - {SKIPPED};
      assert |rest| == |s| - 1;
      AggregateIsMember(rest, pick);
    }
  }

  /** Of known statuses it is the most critical one, however sets are iterated. */
  lemma {:induction false} AggregateIsMostCritical(s: set<int>, pick: set<int> -> int, x: int)
    requires x in s && PicksElements(pick) && forall st :: st in s ==> Known(st)
    ensures Aggregate(s, pick) in s && Rank(x) <= Rank(Aggregate(s, pick))
    decreases |s|
  {
    AggregateIsMember(s, pick);
    if SKIPPED in s && |s| > 1 {
      var rest := s - {SKIPPED};
      assert |rest| == |s| - 1;
      if x != SKIPPED {
        AggregateIsMostCritical(rest, pick, x);
      }
    } else if FAILED !in s && RUNNING !in s && PENDING !in s && !(CANCELLED in s && SUCCESS in s) {
      OneStatusLeft(s, x, pick(s));
    }
  }

  /** No other status is left than one of skipped, success and cancelled. */
  lemma OneStatusLeft(s: set<int>, x: int, y: int)
    requires x in s && y in s && forall st :: st in s ==> Known(st)
    requires FAILED !in s && RUNNING !in s && PENDING !in s && !(CANCELLED in s && SUCCESS in s)
    requires SKIPPED !in s || |s| <= 1
    ensures x == y
  {
    if x != y {
      assert {x, y} <= s;
      SubsetCardinality({x, y}, s);
    }
  }

  /** The aggregate of a union is the join of the aggregates. */
  lemma AggregateOfUnion(s: set<int>, t: set<int>, pick: set<int> -> int)
    requires s != {} && t != {} && PicksElements(pick)
    requires forall st :: st in s + t ==> Known(st)
    ensures Aggregate(s + t, pick) == Join(Aggregate(s, pick), Aggregate(t, pick))
  {
    var a, b, c := Aggregate(s, pick), Aggregate(t, pick), Aggregate(s + t, pick);
    AggregateIsMember(s, pick);
    AggregateIsMember(t, pick);
    AggregateIsMember(s + t, pick);
    AggregateIsMostCritical(s + t, pick, a);
    AggregateIsMostCritical(s + t, pick, b);
    if c in s {
      AggregateIsMostCritical(s, pick, c);
    } else {
      AggregateIsMostCritical(t, pick, c);
    }
    assert Rank(c) == Rank(Join(a, b));
    assert Known(c) && Known(Join(a, b));
  }

  /**
   The aggregate of known statuses as a table: 3 (failed) if there is one, else 1 (running), else
   0 (pending), else 5 (cancelled), else 2 (success), else 4 (skipped); no hosts count as pending.
   */
  lemma AggregateTable(s: set<int>, pick: set<int> -> int)
    requires PicksElements(pick) && forall st :: st in s ==> 0 <= st <= 5
    ensures Aggregate(s, pick) ==
            if 3 in s then 3 else if 1 in s then 1 else if 0 in s then 0 else if 5 in s then 5 else if 2 in s then 2
            else if 4 in s then 4 else 0
  {
    if s != {} {
      AggregateIsMember(s, pick);
      forall x | x in s ensures Rank(x) <= Rank(Aggregate(s, pick)) {
        AggregateIsMostCritical(s, pick, x);
      }
    }
  }
}
