/**
 The recursive descent through the children of a category.  It has no protection against
 cycles; the depth limit stands for the limit of the call stack, and running into it is `None`.
 */
module CategoryDescent {
  import opened Finite
  import opened Wrappers
  import opened CategoryTree

  function Children(cats: seq<Category>, c: Id): seq<Id> {
    if cats == [] then []
    else
      var before, last := Children(cats[..|cats| - 1], c), cats[|cats| - 1];
      if last.parent == Some(c) then before + [last.id] else before
  }

  function Descend(cats: seq<Category>, c: Id, depth: nat): Option<seq<Id>>
    decreases depth, 0
  {
    if depth == 0 then None
    else
      var below := DescendAll(cats, Children(cats, c), depth - 1);
      if below.None? then None else Some([c] + below.value)
  }

  function DescendAll(cats: seq<Category>, kids: seq<Id>, depth: nat): Option<seq<Id>>
    decreases depth, |kids| + 1
  {
    if kids == [] then Some([])
    else
      var before := DescendAll(cats, kids[..|kids| - 1], depth);
      var last := Descend(cats, kids[|kids| - 1], depth);
      if before.None? || last.None? then None else Some(before.value + last.value)
  }

  lemma {:induction false} ChildrenAre(cats: seq<Category>, c: Id, x: Id)
    ensures x in Children(cats, c) <==> ParentOf(cats, c, x)
  {
    if cats != [] {
      var init, last := cats[..|cats| - 1], cats[|cats| - 1];
      ChildrenAre(init, c, x);
      if ParentOf(init, c, x) {
        var i :| 0 <= i < |init| && init[i].id == x && init[i].parent == Some(c);
        assert cats[i] == init[i];
      }
    }
  }

  lemma {:induction false} ChildrenDistinct(cats: seq<Category>, c: Id)
    requires IdsDistinct(cats)
    ensures Distinct(Children(cats, c))
  {
    if cats != [] {
      var init, last := cats[..|cats| - 1], cats[|cats| - 1];
      ChildrenDistinct(init, c);
      var before := Children(init, c);
      forall i | 0 <= i < |before| ensures before[i] != last.id {
        assert before[i] in before;
        ChildrenAre(init, c, before[i]);
      }
    }
  }

  // ---------- parents are unique, so chains to a category agree ----------

  lemma {:induction false} SuffixesAgree(cats: seq<Category>, p: seq<Id>, q: seq<Id>, n: nat)
    requires IdsDistinct(cats) && Chain(cats, p) && Chain(cats, q) && p[|p| - 1] == q[|q| - 1]
    requires n < |p| && n < |q|
    ensures p[|p| - 1 - n] == q[|q| - 1 - n]
  {
    if n > 0 {
      SuffixesAgree(cats, p, q, n - 1);
    }
  }

  lemma ChainPrefix(cats: seq<Category>, p: seq<Id>, n: nat)
    requires Chain(cats, p) && 0 < n <= |p|
    ensures ChainFromTo(cats, p[..n], p[0], p[n - 1])
  {
  }

  lemma ChainSuffix(cats: seq<Category>, p: seq<Id>, n: nat)
    requires Chain(cats, p) && n < |p|
    ensures ChainFromTo(cats, p[n..], p[n], p[|p| - 1])
  {
  }

  /** The subtrees of two children of a category have nothing in common, unless the category is on a cycle. */
  lemma SiblingsDisjoint(cats: seq<Category>, c: Id, p: seq<Id>, q: seq<Id>)
    requires IdsDistinct(cats) && Chain(cats, p) && Chain(cats, q) && p[|p| - 1] == q[|q| - 1]
    requires ParentOf(cats, c, p[0]) && ParentOf(cats, c, q[0]) && p[0] != q[0] && |p| <= |q|
    ensures OnCycle(cats, c)
  {
    SuffixesAgree(cats, p, q, |p| - 1);
    var m := |q| - |p|;
    assert q[m] == p[0] && m > 0;
    ChainPrefix(cats, q, m);
    ChainCons(cats, c, q[..m]);
  }

  lemma ChildrenDisjoint(cats: seq<Category>, c: Id, a: Id, b: Id, x: Id)
    requires IdsDistinct(cats) && !OnCycle(cats, c)
    requires ParentOf(cats, c, a) && ParentOf(cats, c, b) && a != b && Below(cats, a, x)
    ensures !Below(cats, b, x)
  {
    if Below(cats, b, x) {
      var p :| ChainFromTo(cats, p, a, x);
      var q :| ChainFromTo(cats, q, b, x);
      if |p| <= |q| {
        SiblingsDisjoint(cats, c, p, q);
      } else {
        SiblingsDisjoint(cats, c, q, p);
      }
      assert false;
    }
  }

  lemma ChildNotAbove(cats: seq<Category>, c: Id, a: Id)
    requires ParentOf(cats, c, a) && Below(cats, a, c)
    ensures OnCycle(cats, c)
  {
    var p :| ChainFromTo(cats, p, a, c);
    ChainCons(cats, c, p);
  }

  // ---------- what a finished descent lists ----------

  lemma {:induction false} DescendMembers(cats: seq<Category>, c: Id, depth: nat, x: Id)
    requires Descend(cats, c, depth).Some?
    ensures x in Descend(cats, c, depth).value <==> Below(cats, c, x)
    decreases depth, 0
  {
    var kids := Children(cats, c);
    DescendAllMembers(cats, kids, depth - 1, x);
    BelowSelf(cats, c);
    if k :| k in kids && Below(cats, k, x) {
      ChildrenAre(cats, c, k);
      var p :| ChainFromTo(cats, p, k, x);
      ChainCons(cats, c, p);
    }
    if Below(cats, c, x) && x != c {
      var p :| ChainFromTo(cats, p, c, x);
      assert ParentOf(cats, p[0], p[1]);
      ChildrenAre(cats, c, p[1]);
      ChainSuffix(cats, p, 1);
    }
  }

  lemma {:induction false} DescendAllMembers(cats: seq<Category>, kids: seq<Id>, depth: nat, x: Id)
    requires DescendAll(cats, kids, depth).Some?
    ensures x in DescendAll(cats, kids, depth).value <==> exists k :: k in kids && Below(cats, k, x)
    decreases depth, |kids| + 1
  {
    if kids != [] {
      var init, last := kids[..|kids| - 1], kids[|kids| - 1];
      DescendAllMembers(cats, init, depth, x);
      DescendMembers(cats, last, depth, x);
      assert forall k :: k in kids <==> k in init || k == last by {
        assert kids == init + [last];
      }
    }
  }

  lemma {:induction false} DescendDistinct(cats: seq<Category>, c: Id, depth: nat)
    requires IdsDistinct(cats) && Descend(cats, c, depth).Some?
    ensures Distinct(Descend(cats, c, depth).value)
    decreases depth, 0
  {
    NotOnCycleIfFinished(cats, c, depth);
    ChildrenDistinct(cats, c);
    AllChildren(cats, c);
    DescendAllDistinct(cats, c, Children(cats, c), depth - 1);
    NotBelowOwnChildren(cats, c, Children(cats, c), depth - 1);
  }

  lemma AllChildren(cats: seq<Category>, c: Id)
    ensures forall k :: k in Children(cats, c) ==> ParentOf(cats, c, k)
  {
    forall k | k in Children(cats, c) ensures ParentOf(cats, c, k) {
      ChildrenAre(cats, c, k);
    }
  }

  lemma NotBelowOwnChildren(cats: seq<Category>, c: Id, kids: seq<Id>, depth: nat)
    requires !OnCycle(cats, c) && DescendAll(cats, kids, depth).Some?
    requires forall k :: k in kids ==> ParentOf(cats, c, k)
    ensures c !in DescendAll(cats, kids, depth).value
  {
    DescendAllMembers(cats, kids, depth, c);
    if k :| k in kids && Below(cats, k, c) {
      ChildNotAbove(cats, c, k);
      assert false;
    }
  }

  lemma {:induction false} DescendAllDistinct(cats: seq<Category>, c: Id, kids: seq<Id>, depth: nat)
    requires IdsDistinct(cats) && !OnCycle(cats, c) && Distinct(kids)
    requires forall k :: k in kids ==> ParentOf(cats, c, k)
    requires DescendAll(cats, kids, depth).Some?
    ensures Distinct(DescendAll(cats, kids, depth).value)
    decreases depth, |kids| + 1
  {
    if kids != [] {
      var init, last := kids[..|kids| - 1], kids[|kids| - 1];
      assert forall k :: k in init ==> k in kids && k != last;
      DescendAllDistinct(cats, c, init, depth);
      DescendDistinct(cats, last, depth);
      var a, b := DescendAll(cats, init, depth).value, Descend(cats, last, depth).value;
      forall i, j | 0 <= i < |a| && 0 <= j < |b| ensures a[i] != b[j] {
        DescendAllMembers(cats, init, depth, a[i]);
        var k :| k in init && Below(cats, k, a[i]);
        assert last in kids;
        ChildrenDisjoint(cats, c, k, last, a[i]);
        DescendMembers(cats, last, depth, b[j]);
      }
    }
  }

  // ---------- when the descent finishes ----------

  lemma {:induction false} FinishedBoundsChains(cats: seq<Category>, c: Id, depth: nat, p: seq<Id>)
    requires Descend(cats, c, depth).Some? && Chain(cats, p) && p[0] == c
    ensures |p| <= depth
    decreases depth
  {
    if |p| > 1 {
      assert ParentOf(cats, p[0], p[1]);
      ChildrenAre(cats, c, p[1]);
      AllFinished(cats, Children(cats, c), depth - 1, p[1]);
      ChainSuffix(cats, p, 1);
      FinishedBoundsChains(cats, p[1], depth - 1, p[1..]);
    }
  }

  lemma {:induction false} AllFinished(cats: seq<Category>, kids: seq<Id>, depth: nat, k: Id)
    requires DescendAll(cats, kids, depth).Some? && k in kids
    ensures Descend(cats, k, depth).Some?
  {
    var init, last := kids[..|kids| - 1], kids[|kids| - 1];
    if k != last {
      assert kids == init + [last];
      AllFinished(cats, init, depth, k);
    }
  }

  /** A cycle can be walked round as often as one likes. */
  lemma {:induction false} LongChain(cats: seq<Category>, c: Id, n: nat) returns (p: seq<Id>)
    requires OnCycle(cats, c)
    ensures ChainFromTo(cats, p, c, c) && |p| > n
  {
    var q :| ChainFromTo(cats, q, c, c) && |q| > 1;
    if n == 0 {
      p := q;
    } else {
      var r := LongChain(cats, c, n - 1);
      p := q[..|q| - 1] + r;
      forall i, j | 0 <= i && j == i + 1 && j < |p| ensures ParentOf(cats, p[i], p[j]) {
        if j < |q| - 1 {
          assert ParentOf(cats, q[i], q[j]);
        } else if i == |q| - 2 {
          assert p[j] == c == q[j] && ParentOf(cats, q[i], q[j]);
        } else {
          assert ParentOf(cats, r[i - (|q| - 1)], r[j - (|q| - 1)]);
        }
      }
    }
  }

  lemma NotOnCycleIfFinished(cats: seq<Category>, c: Id, depth: nat)
    requires Descend(cats, c, depth).Some?
    ensures !OnCycle(cats, c)
  {
    if OnCycle(cats, c) {
      var p := LongChain(cats, c, depth);
      FinishedBoundsChains(cats, c, depth, p);
      assert false;
    }
  }

  lemma {:induction false} UnfinishedHasChain(cats: seq<Category>, c: Id, depth: nat) returns (p: seq<Id>)
    requires Descend(cats, c, depth).None?
    ensures Chain(cats, p) && p[0] == c && |p| == depth + 1
    decreases depth, 0
  {
    if depth == 0 {
      p := [c];
    } else {
      var k := UnfinishedChild(cats, Children(cats, c), depth - 1);
      ChildrenAre(cats, c, k);
      var q := UnfinishedHasChain(cats, k, depth - 1);
      ChainCons(cats, c, q);
      p := [c] + q;
    }
  }

  lemma {:induction false} UnfinishedChild(cats: seq<Category>, kids: seq<Id>, depth: nat) returns (k: Id)
    requires DescendAll(cats, kids, depth).None?
    ensures k in kids && Descend(cats, k, depth).None?
    decreases |kids|
  {
    var init, last := kids[..|kids| - 1], kids[|kids| - 1];
    if Descend(cats, last, depth).None? {
      k := last;
    } else {
      k := UnfinishedChild(cats, init, depth);
    }
  }

  /** The parent of a category on a cycle is on a cycle. */
  lemma CycleGoesUp(cats: seq<Category>, y: Id, x: Id)
    requires IdsDistinct(cats) && ParentOf(cats, y, x) && OnCycle(cats, x)
    ensures OnCycle(cats, y)
  {
    var q :| ChainFromTo(cats, q, x, x) && |q| > 1;
    var n := |q| - 1;
    assert ParentOf(cats, q[n - 1], q[n]);
    ChainPrefix(cats, q, n);
    ChainCons(cats, y, q[..n]);
  }

  lemma {:induction false} CycleGoesUpChain(cats: seq<Category>, p: seq<Id>, n: nat)
    requires IdsDistinct(cats) && Chain(cats, p) && n < |p| && OnCycle(cats, p[n])
    ensures OnCycle(cats, p[0])
    decreases n
  {
    if n > 0 {
      CycleGoesUp(cats, p[n - 1], p[n]);
      CycleGoesUpChain(cats, p, n - 1);
    }
  }

  ghost function RowIds(cats: seq<Category>): set<Id> {
    set i | 0 <= i < |cats| :: cats[i].id
  }

  lemma TailInRows(cats: seq<Category>, p: seq<Id>, m: nat)
    requires Chain(cats, p) && 0 < m < |p|
    ensures p[m] in RowIds(cats)
  {
    assert ParentOf(cats, p[m - 1], p[m]);
  }

  lemma RevisitIsCycle(cats: seq<Category>, p: seq<Id>, i: nat, j: nat)
    requires Chain(cats, p) && i < j < |p| && p[i] == p[j]
    ensures OnCycle(cats, p[i])
  {
    ChainSuffix(cats, p, i);
    var q := p[i..];
    ChainPrefix(cats, q, j - i + 1);
  }

  /** A chain with more links than there are rows starts on a cycle. */
  lemma ChainTooLong(cats: seq<Category>, p: seq<Id>)
    requires IdsDistinct(cats) && Chain(cats, p) && |p| > |RowIds(cats)| + 1
    ensures OnCycle(cats, p[0])
  {
    var q := p[1..];
    forall m | 0 <= m < |q| ensures q[m] in RowIds(cats) {
      TailInRows(cats, p, m + 1);
    }
    var i, j := Pigeonhole(q, RowIds(cats));
    RevisitIsCycle(cats, p, i + 1, j + 1);
    CycleGoesUpChain(cats, p, i + 1);
  }

  lemma FinishesOffCycle(cats: seq<Category>, c: Id)
    requires IdsDistinct(cats) && !OnCycle(cats, c)
    ensures Descend(cats, c, |RowIds(cats)| + 1).Some?
  {
    var n := |RowIds(cats)| + 1;
    if Descend(cats, c, n).None? {
      var p := UnfinishedHasChain(cats, c, n);
      ChainTooLong(cats, p);
      assert false;
    }
  }

  /**
   The descent ends, for some depth, if and only if its category is not on a cycle; a depth of
   one more than the number of categories is then enough.
   */
  lemma DescentEndsIffNotOnCycle(cats: seq<Category>, c: Id)
    requires IdsDistinct(cats)
    ensures (exists depth :: Descend(cats, c, depth).Some?) <==> !OnCycle(cats, c)
    ensures !OnCycle(cats, c) ==> Descend(cats, c, |RowIds(cats)| + 1).Some?
  {
    if depth :| Descend(cats, c, depth).Some? {
      NotOnCycleIfFinished(cats, c, depth);
    }
    if !OnCycle(cats, c) {
      FinishesOffCycle(cats, c);
    }
  }

  /** A finished descent lists the categories at or below its start, each once: it agrees with the closure. */
  lemma DescentAgreesWithClosure(cats: seq<Category>, c: Id, depth: nat, closure: set<Id>)
    requires IdsDistinct(cats) && Descend(cats, c, depth).Some?
    requires forall x :: x in closure <==> BelowAny(cats, {c}, x)
    ensures Distinct(Descend(cats, c, depth).value)
    ensures forall x :: x in Descend(cats, c, depth).value <==> x in closure
  {
    DescendDistinct(cats, c, depth);
    forall x ensures x in Descend(cats, c, depth).value <==> x in closure {
      DescendMembers(cats, c, depth, x);
      assert c in {c};
    }
  }

  // ---------- the order of the list ----------

  /** The entry stands somewhere after its parent. */
  ghost predicate ParentBefore(cats: seq<Category>, list: seq<Id>, j: nat) {
    j < |list| && exists i :: 0 <= i < j && ParentOf(cats, list[i], list[j])
  }

  lemma BeforeShifts(cats: seq<Category>, a: seq<Id>, list: seq<Id>, b: seq<Id>, j: nat)
    requires ParentBefore(cats, list, j)
    ensures ParentBefore(cats, a + list + b, |a| + j)
  {
    var all := a + list + b;
    var i :| 0 <= i < j && ParentOf(cats, list[i], list[j]);
    assert all[|a| + i] == list[i] && all[|a| + j] == list[j];
  }

  /** The descent lists its category first and every other one after its parent. */
  lemma {:induction false} DescentInOrder(cats: seq<Category>, c: Id, depth: nat, j: nat)
    requires Descend(cats, c, depth).Some? && j < |Descend(cats, c, depth).value|
    ensures Descend(cats, c, depth).value[0] == c
    ensures j > 0 ==> ParentBefore(cats, Descend(cats, c, depth).value, j)
    decreases depth, 0
  {
    var below := DescendAll(cats, Children(cats, c), depth - 1).value;
    var list := [c] + below;
    if j > 0 {
      AllInOrder(cats, Children(cats, c), depth - 1, j - 1);
      if below[j - 1] in Children(cats, c) {
        ChildrenAre(cats, c, below[j - 1]);
        assert list[0] == c && list[j] == below[j - 1];
      } else {
        BeforeShifts(cats, [c], below, [], j - 1);
        assert [c] + below + [] == list;
      }
    }
  }

  lemma {:induction false} AllInOrder(cats: seq<Category>, kids: seq<Id>, depth: nat, j: nat)
    requires DescendAll(cats, kids, depth).Some? && j < |DescendAll(cats, kids, depth).value|
    ensures var list := DescendAll(cats, kids, depth).value; list[j] in kids || ParentBefore(cats, list, j)
    decreases depth, |kids| + 1
  {
    var init, last := kids[..|kids| - 1], kids[|kids| - 1];
    var a, b := DescendAll(cats, init, depth).value, Descend(cats, last, depth).value;
    assert kids == init + [last];
    if j < |a| {
      AllInOrder(cats, init, depth, j);
      if ParentBefore(cats, a, j) {
        BeforeShifts(cats, [], a, b, j);
        assert [] + a + b == a + b;
      }
    } else {
      DescentInOrder(cats, last, depth, j - |a|);
      if j > |a| {
        BeforeShifts(cats, a, b, [], j - |a|);
        assert a + b + [] == a + b;
      }
    }
  }

  ghost predicate Before(list: seq<Id>, x: Id, y: Id) {
    exists a, b :: 0 <= a < b < |list| && list[a] == x && list[b] == y
  }

  lemma BeforeInPart(a: seq<Id>, list: seq<Id>, b: seq<Id>, x: Id, y: Id)
    requires Before(list, x, y)
    ensures Before(a + list + b, x, y)
  {
    var all := a + list + b;
    var i, j :| 0 <= i < j < |list| && list[i] == x && list[j] == y;
    assert all[|a| + i] == x && all[|a| + j] == y;
  }

  lemma BeforeAcross(a: seq<Id>, b: seq<Id>, x: Id, y: Id)
    requires x in a && y in b
    ensures Before(a + b, x, y)
  {
    var i :| 0 <= i < |a| && a[i] == x;
    var j :| 0 <= j < |b| && b[j] == y;
    assert (a + b)[i] == x && (a + b)[|a| + j] == y;
  }

  /** Children are listed in the order of the table. */
  lemma {:induction false} ChildrenInOrder(cats: seq<Category>, p: Id, i: nat, j: nat)
    requires i < j < |cats| && cats[i].parent == Some(p) && cats[j].parent == Some(p)
    ensures Before(Children(cats, p), cats[i].id, cats[j].id)
    decreases |cats|
  {
    var init, last := cats[..|cats| - 1], cats[|cats| - 1];
    var before := Children(init, p);
    if j < |init| {
      ChildrenInOrder(init, p, i, j);
      assert init[i] == cats[i] && init[j] == cats[j];
      BeforeInPart([], before, if last.parent == Some(p) then [last.id] else [], cats[i].id, cats[j].id);
      assert [] + before == before;
      assert before + [] == before;
    } else {
      ChildrenAre(init, p, cats[i].id);
      assert init[i] == cats[i];
      BeforeAcross(before, [last.id], cats[i].id, last.id);
    }
  }

  lemma {:induction false} KidsInOrder(cats: seq<Category>, kids: seq<Id>, depth: nat, a: nat, b: nat)
    requires DescendAll(cats, kids, depth).Some? && a < b < |kids|
    ensures Before(DescendAll(cats, kids, depth).value, kids[a], kids[b])
    decreases |kids|
  {
    var init, last := kids[..|kids| - 1], kids[|kids| - 1];
    var before, after := DescendAll(cats, init, depth).value, Descend(cats, last, depth).value;
    if b < |init| {
      KidsInOrder(cats, init, depth, a, b);
      BeforeInPart([], before, after, kids[a], kids[b]);
      assert [] + before + after == before + after;
    } else {
      BelowSelf(cats, kids[a]);
      assert kids[a] == init[a] && kids[a] in init;
      DescendAllMembers(cats, init, depth, kids[a]);
      BelowSelf(cats, last);
      DescendMembers(cats, last, depth, last);
      BeforeAcross(before, after, kids[a], last);
    }
  }

  /** Of two children of a listed category, the one that stands first in the table is listed first. */
  lemma {:induction false} SiblingsInOrder(cats: seq<Category>, c: Id, depth: nat, p: Id, i: nat, j: nat)
    requires Descend(cats, c, depth).Some? && p in Descend(cats, c, depth).value
    requires i < j < |cats| && cats[i].parent == Some(p) && cats[j].parent == Some(p)
    ensures Before(Descend(cats, c, depth).value, cats[i].id, cats[j].id)
    decreases depth, 0
  {
    var kids := Children(cats, c);
    var below := DescendAll(cats, kids, depth - 1).value;
    if p == c {
      ChildrenInOrder(cats, c, i, j);
      var a, b :| 0 <= a < b < |kids| && kids[a] == cats[i].id && kids[b] == cats[j].id;
      KidsInOrder(cats, kids, depth - 1, a, b);
    } else {
      AllSiblingsInOrder(cats, kids, depth - 1, p, i, j);
    }
    BeforeInPart([c], below, [], cats[i].id, cats[j].id);
    assert [c] + below + [] == [c] + below;
  }

  lemma {:induction false} AllSiblingsInOrder(cats: seq<Category>, kids: seq<Id>, depth: nat, p: Id, i: nat, j: nat)
    requires DescendAll(cats, kids, depth).Some? && p in DescendAll(cats, kids, depth).value
    requires i < j < |cats| && cats[i].parent == Some(p) && cats[j].parent == Some(p)
    ensures Before(DescendAll(cats, kids, depth).value, cats[i].id, cats[j].id)
    decreases depth, |kids| + 1
  {
    var init, last := kids[..|kids| - 1], kids[|kids| - 1];
    var before, after := DescendAll(cats, init, depth).value, Descend(cats, last, depth).value;
    if p in before {
      AllSiblingsInOrder(cats, init, depth, p, i, j);
      BeforeInPart([], before, after, cats[i].id, cats[j].id);
      assert [] + before + after == before + after;
    } else {
      SiblingsInOrder(cats, last, depth, p, i, j);
      BeforeInPart(before, after, [], cats[i].id, cats[j].id);
      assert before + after + [] == before + after;
    }
  }
}
