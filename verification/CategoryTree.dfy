/**
 The category tree in the three forms the server uses: the closure computed to a fixpoint, the
 recursive descent through the children, and the walk up to the ancestors.  A category has at
 most one parent; the parent links may form cycles.
 */
module CategoryTree {
  import opened Finite
  import opened Wrappers

  type Id = string

  datatype Category = Category(id: Id, parent: Option<Id>)

  /** Ids are primary keys. */
  ghost predicate IdsDistinct(cats: seq<Category>) {
    forall i, j :: 0 <= i < j < |cats| ==> cats[i].id != cats[j].id
  }

  predicate ParentOf(cats: seq<Category>, p: Id, c: Id) {
    exists i :: 0 <= i < |cats| && cats[i].id == c && cats[i].parent == Some(p)
  }

  /** A walk down from `p[0]`, from parent to child. */
  ghost predicate Chain(cats: seq<Category>, p: seq<Id>) {
    p != [] && forall i, j :: 0 <= i && j == i + 1 && j < |p| ==> ParentOf(cats, p[i], p[j])
  }

  ghost predicate ChainFromTo(cats: seq<Category>, p: seq<Id>, a: Id, c: Id) {
    Chain(cats, p) && p[0] == a && p[|p| - 1] == c
  }

  /** Category `c` is `a` itself or a descendant of it. */
  ghost predicate Below(cats: seq<Category>, a: Id, c: Id) {
    exists p :: ChainFromTo(cats, p, a, c)
  }

  ghost predicate OnCycle(cats: seq<Category>, c: Id) {
    exists p :: ChainFromTo(cats, p, c, c) && |p| > 1
  }

  lemma ChainSnoc(cats: seq<Category>, p: seq<Id>, c: Id)
    requires Chain(cats, p) && ParentOf(cats, p[|p| - 1], c)
    ensures ChainFromTo(cats, p + [c], p[0], c)
  {
  }

  lemma ChainCons(cats: seq<Category>, a: Id, p: seq<Id>)
    requires Chain(cats, p) && ParentOf(cats, a, p[0])
    ensures ChainFromTo(cats, [a] + p, a, p[|p| - 1])
  {
    var q := [a] + p;
    forall i, j | 0 <= i && j == i + 1 && j < |q| ensures ParentOf(cats, q[i], q[j]) {
      if i > 0 {
        assert q[i] == p[i - 1] && q[j] == p[i];
      }
    }
  }

  lemma BelowStep(cats: seq<Category>, a: Id, b: Id, c: Id)
    requires Below(cats, a, b) && ParentOf(cats, b, c)
    ensures Below(cats, a, c)
  {
    var p :| ChainFromTo(cats, p, a, b);
    ChainSnoc(cats, p, c);
  }

  lemma BelowSelf(cats: seq<Category>, a: Id)
    ensures Below(cats, a, a)
  {
    assert ChainFromTo(cats, [a], a, a);
  }

  // ---------- the closure to a fixpoint ----------

  ghost predicate BelowAny(cats: seq<Category>, parents: set<Id>, c: Id) {
    exists a :: a in parents && Below(cats, a, c)
  }

  ghost predicate Closed(cats: seq<Category>, s: set<Id>) {
    forall i :: 0 <= i < |cats| && cats[i].parent.Some? && cats[i].parent.value in s ==> cats[i].id in s
  }

  lemma {:induction false} ChainStaysInClosed(cats: seq<Category>, s: set<Id>, p: seq<Id>, n: nat)
    requires Closed(cats, s) && Chain(cats, p) && p[0] in s && n < |p|
    ensures p[n] in s
  {
    if n > 0 {
      ChainStaysInClosed(cats, s, p, n - 1);
      assert ParentOf(cats, p[n - 1], p[n]);
    }
  }

  lemma ClosedContainsBelow(cats: seq<Category>, s: set<Id>, parents: set<Id>, c: Id)
    requires Closed(cats, s) && parents <= s && BelowAny(cats, parents, c)
    ensures c in s
  {
    var a :| a in parents && Below(cats, a, c);
    var p :| ChainFromTo(cats, p, a, c);
    ChainStaysInClosed(cats, s, p, |p| - 1);
  }

  /** One pass over the table; the result set grows as it goes. */
  method ClosurePass(cats: seq<Category>, parents: set<Id>, before: set<Id>) returns (result: set<Id>, changed: bool)
    requires forall c :: c in before ==> BelowAny(cats, parents, c)
    ensures before <= result && forall c :: c in result ==> BelowAny(cats, parents, c)
    ensures result <= before + (set i | 0 <= i < |cats| :: cats[i].id)
    ensures !changed ==> result == before && Closed(cats, result)
    ensures changed ==> exists c :: c in result && c !in before
  {
    result, changed := before, false;
    for i := 0 to |cats|
      invariant before <= result && forall c :: c in result ==> BelowAny(cats, parents, c)
      invariant result <= before + (set j | 0 <= j < |cats| :: cats[j].id)
      invariant !changed ==> result == before
      invariant !changed ==>
        forall j :: 0 <= j < i && cats[j].parent.Some? && cats[j].parent.value in result ==> cats[j].id in result
      invariant changed ==> exists c :: c in result && c !in before
    {
      var cat := cats[i];
      if cat.parent.Some? && cat.parent.value in result && cat.id !in result {
        assert BelowAny(cats, parents, cat.id) by {
          var a :| a in parents && Below(cats, a, cat.parent.value);
          assert ParentOf(cats, cat.parent.value, cat.id);
          BelowStep(cats, a, cat.parent.value, cat.id);
        }
        result := result + {cat.id};
        changed := true;
      }
    }
  }

  /** All categories at or below the given ones; the loop ends on every table, cyclic ones included. */
  method Closure(cats: seq<Category>, parents: set<Id>) returns (result: set<Id>)
    ensures forall c :: c in result <==> BelowAny(cats, parents, c)
  {
    result := parents;
    var changed := true;
    ghost var all := parents + set i | 0 <= i < |cats| :: cats[i].id;
    forall c | c in parents ensures BelowAny(cats, parents, c) {
      BelowSelf(cats, c);
    }
    while changed
      invariant parents <= result <= all
      invariant forall c :: c in result ==> BelowAny(cats, parents, c)
      invariant !changed ==> Closed(cats, result)
      decreases |all| - |result|, changed
    {
      ghost var before := result;
      result, changed := ClosurePass(cats, parents, result);
      SubsetCardinality(before, result);
      SubsetCardinality(result, all);
    }
    forall c | BelowAny(cats, parents, c) ensures c in result {
      ClosedContainsBelow(cats, result, parents, c);
    }
  }

  // ---------- the walk up ----------

  /** The parent column of the row with this id. */
  function Parent(cats: seq<Category>, c: Id): Option<Id> {
    if cats == [] then None
    else if cats[0].id == c then cats[0].parent
    else Parent(cats[1..], c)
  }

  ghost predicate HasRow(cats: seq<Category>, c: Id) {
    exists i :: 0 <= i < |cats| && cats[i].id == c
  }

  lemma {:induction false} ParentIsParent(cats: seq<Category>, c: Id, p: Id)
    requires IdsDistinct(cats)
    ensures Parent(cats, c) == Some(p) <==> ParentOf(cats, p, c)
  {
    if cats != [] {
      ParentIsParent(cats[1..], c, p);
      if cats[0].id == c {
        assert ParentOf(cats, p, c) ==> cats[0].parent == Some(p);
      } else if ParentOf(cats, p, c) {
        var i :| 0 <= i < |cats| && cats[i].id == c && cats[i].parent == Some(p);
        assert cats[1..][i - 1] == cats[i];
      }
    }
  }

  /** The walk went up from `start` through `trail` to `cur`; nothing on the trail was the goal. */
  ghost predicate WalkedUp(cats: seq<Category>, start: Id, cur: Option<Id>, trail: seq<Id>) {
    && (trail == [] ==> cur == Some(start))
    && (trail != [] ==> trail[0] == start && Parent(cats, trail[|trail| - 1]) == cur)
    && (forall i, j :: 0 <= i && j == i + 1 && j < |trail| ==> Parent(cats, trail[i]) == Some(trail[j]))
  }

  /** A chain is traced upwards by the walk: each id before its end is the parent of the next. */
  lemma {:induction false} ChainIsTrail(cats: seq<Category>, start: Id, cur: Option<Id>, trail: seq<Id>,
                                        p: seq<Id>, n: nat)
    requires IdsDistinct(cats) && WalkedUp(cats, start, cur, trail)
    requires Chain(cats, p) && p[|p| - 1] == start && n < |p|
    requires cur.None? || cur.value in trail
    ensures p[|p| - 1 - n] in trail
  {
    if n == 0 {
      assert trail != [];
      assert trail[0] in trail;
    } else {
      ChainIsTrail(cats, start, cur, trail, p, n - 1);
      var x, y := p[|p| - 1 - n], p[|p| - n];
      assert ParentOf(cats, x, y);
      ParentIsParent(cats, y, x);
      var i :| 0 <= i < |trail| && trail[i] == y;
      if i < |trail| - 1 {
        assert trail[i + 1] == x;
      }
    }
  }

  lemma {:induction false} TrailIsBelow(cats: seq<Category>, start: Id, cur: Option<Id>, trail: seq<Id>, i: nat)
    requires IdsDistinct(cats) && WalkedUp(cats, start, cur, trail) && i < |trail|
    ensures Below(cats, trail[i], start)
  {
    if i == 0 {
      BelowSelf(cats, start);
    } else {
      TrailIsBelow(cats, start, cur, trail, i - 1);
      var p :| ChainFromTo(cats, p, trail[i - 1], start);
      assert Parent(cats, trail[i - 1]) == Some(trail[i]);
      ParentIsParent(cats, trail[i - 1], trail[i]);
      ChainCons(cats, trail[i], p);
    }
  }

  /**
   Is the category at or below one of the goals?  The walk stops at a row that is missing, at a
   root, and at a category it has visited before.
   */
  method IsUnder(cats: seq<Category>, start: Id, goals: set<Id>) returns (under: bool)
    requires IdsDistinct(cats)
    requires forall g :: g in goals ==> HasRow(cats, g)
    ensures under <==> BelowAny(cats, goals, start)
  {
    var cur, visited := Some(start), {};
    ghost var trail: seq<Id> := [];
    ghost var rows := set i | 0 <= i < |cats| :: cats[i].id;
    under := false;
    while cur.Some? && cur.value !in visited
      invariant WalkedUp(cats, start, cur, trail)
      invariant forall x :: x in visited <==> x in trail
      invariant Distinct(trail)
      invariant forall x :: x in trail ==> x in rows && x !in goals
      decreases |rows| - |trail|
    {
      var c := cur.value;
      var known := Known(cats, c);
      if !known {
        MissingRowStops(cats, start, c, trail, goals);
        return false;
      }
      assert c in rows;
      assert WalkedUp(cats, start, Parent(cats, c), trail + [c]);
      if c in goals {
        TrailIsBelow(cats, start, Parent(cats, c), trail + [c], |trail|);
        return true;
      }
      visited := visited + {c};
      trail := trail + [c];
      DistinctWithin(trail, rows);
      cur := Parent(cats, c);
    }
    if BelowAny(cats, goals, start) {
      var a :| a in goals && Below(cats, a, start);
      var p :| ChainFromTo(cats, p, a, start);
      ChainIsTrail(cats, start, cur, trail, p, |p| - 1);
    }
  }

  method Known(cats: seq<Category>, c: Id) returns (b: bool)
    ensures b <==> HasRow(cats, c)
  {
    for i := 0 to |cats|
      invariant forall j :: 0 <= j < i ==> cats[j].id != c
    {
      if cats[i].id == c {
        return true;
      }
    }
    return false;
  }

  lemma {:induction false} NoRowNoParent(cats: seq<Category>, c: Id)
    requires !HasRow(cats, c)
    ensures Parent(cats, c) == None
  {
    if cats != [] {
      NoRowNoParent(cats[1..], c);
    }
  }

  lemma MissingRowStops(cats: seq<Category>, start: Id, c: Id, trail: seq<Id>, goals: set<Id>)
    requires IdsDistinct(cats) && WalkedUp(cats, start, Some(c), trail) && !HasRow(cats, c)
    requires forall g :: g in goals ==> HasRow(cats, g)
    requires forall x :: x in trail ==> x !in goals
    ensures !BelowAny(cats, goals, start)
  {
    NoRowNoParent(cats, c);
    assert WalkedUp(cats, start, None, trail + [c]);
    if BelowAny(cats, goals, start) {
      var a :| a in goals && Below(cats, a, start);
      var p :| ChainFromTo(cats, p, a, start);
      ChainIsTrail(cats, start, None, trail + [c], p, |p| - 1);
    }
  }
}
