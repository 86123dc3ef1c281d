/** What a node's index means: consequences of the ordering, for every definition. */
module TopoProperties {
  import opened Finite
  import opened TopoOrder

  ghost predicate Bijection(index: map<Key, nat>) {
    && (forall k :: k in index ==> index[k] < |index|)
    && (forall k, l :: k in index && l in index && index[k] == index[l] ==> k == l)
    && (forall i: nat {:trigger HasIndex(index, i)} :: i < |index| ==> HasIndex(index, i))
  }

  ghost predicate HasIndex(index: map<Key, nat>, i: nat) {
    exists k :: k in index && index[k] == i
  }

  // ---------- the definition determines the index ----------

  lemma SameLength(d: Definition, head: seq<Key>, head': seq<Key>, index: map<Key, nat>, index': map<Key, nat>)
    requires Ordered(d, head, index) && Ordered(d, head', index')
    ensures |head| == |head'|
  {
    forall k ensures k in Elements(head) <==> k in Elements(head') {
      assert k in d.keys ==> (k in head <==> !BehindCycle(d, k)) && (k in head' <==> !BehindCycle(d, k));
    }
    assert Elements(head) == Elements(head');
    DistinctIffCardinality(head);
    DistinctIffCardinality(head');
  }

  /** Two indices of one definition are equal: nodes, edges and their order determine the index. */
  lemma TopologicalUnique(d: Definition, index: map<Key, nat>, index': map<Key, nat>)
    requires QueueOrder(d, index) && QueueOrder(d, index')
    ensures index == index'
  {
    var head :| Ordered(d, head, index) && head == Queued(d, |head|);
    var head' :| Ordered(d, head', index') && head' == Queued(d, |head'|);
    SameLength(d, head, head', index, index');
    SameIndex(d, head, index, index');
  }

  lemma SameIndex(d: Definition, head: seq<Key>, index: map<Key, nat>, index': map<Key, nat>)
    requires Ordered(d, head, index) && Ordered(d, head, index')
    ensures index == index'
  {
    var order := head + Rest(d.keys, head);
    forall k | k in index ensures k in index' && index[k] == index'[k] {
      assert LastIndex(order, k, index[k]) && LastIndex(order, k, index'[k]);
    }
  }

  // ---------- gaps ----------

  /** A key that occurs twice is one that the queue reaches. */
  ghost predicate RepeatedOnlyIn(keys: seq<Key>, head: seq<Key>) {
    forall i, j :: 0 <= i < j < |keys| && keys[i] == keys[j] ==> keys[i] in head
  }

  lemma {:induction false} RestDistinct(keys: seq<Key>, head: seq<Key>)
    ensures Distinct(Rest(keys, head)) <==> RepeatedOnlyIn(keys, head)
  {
    if keys != [] {
      var init, k := keys[..|keys| - 1], keys[|keys| - 1];
      RestDistinct(init, head);
      RepeatedSnoc(init, k, head);
      assert keys == init + [k];
      OrderCovers(init, head);
      if k !in head {
        DistinctSnoc(Rest(init, head), k);
      }
    }
  }

  lemma RepeatedSnoc(keys: seq<Key>, k: Key, head: seq<Key>)
    ensures RepeatedOnlyIn(keys + [k], head) <==> RepeatedOnlyIn(keys, head) && (k in keys ==> k in head)
  {
    var all := keys + [k];
    assert forall i :: 0 <= i < |keys| ==> all[i] == keys[i];
    if k in keys && k !in head {
      var i :| 0 <= i < |keys| && keys[i] == k;
      assert all[i] == all[|keys|];
    }
    if !RepeatedOnlyIn(keys, head) {
      var i, j :| 0 <= i < j < |keys| && keys[i] == keys[j] && keys[i] !in head;
      assert all[i] == all[j];
    }
  }

  lemma DistinctSnoc(s: seq<Key>, k: Key)
    ensures Distinct(s + [k]) <==> Distinct(s) && k !in s
  {
    var all := s + [k];
    assert forall i :: 0 <= i < |s| ==> all[i] == s[i];
    if k in s {
      var i :| 0 <= i < |s| && s[i] == k;
      assert all[i] == all[|s|];
    }
    if !Distinct(s) {
      var i, j :| 0 <= i < j < |s| && s[i] == s[j];
      assert all[i] == all[j];
    }
  }

  lemma OrderDistinct(head: seq<Key>, rest: seq<Key>)
    requires Distinct(head) && forall k :: k in rest ==> k !in head
    ensures Distinct(head + rest) <==> Distinct(rest)
  {
    var order := head + rest;
    assert forall i :: 0 <= i < |rest| ==> order[|head| + i] == rest[i];
    if Distinct(rest) {
      forall i, j | 0 <= i < j < |order| ensures order[i] != order[j] {
        if i < |head| && j >= |head| {
          assert order[i] in head && rest[j - |head|] in rest;
        }
      }
    }
  }

  lemma OrderElements(d: Definition, head: seq<Key>, index: map<Key, nat>)
    requires Ordered(d, head, index)
    ensures var order := head + Rest(d.keys, head);
      && Elements(order) == index.Keys
      && (Distinct(order) <==> Distinct(Rest(d.keys, head)))
  {
    OrderCovers(d.keys, head);
    OrderDistinct(head, Rest(d.keys, head));
  }

  lemma ContiguousIffDistinct(order: seq<Key>, index: map<Key, nat>)
    requires Elements(order) == index.Keys
    requires forall k :: k in index ==> LastIndex(order, k, index[k])
    ensures Bijection(index) <==> Distinct(order)
    ensures (forall k :: k in index ==> index[k] < |index|) <==> Distinct(order)
  {
    DistinctIffCardinality(order);
    assert |index| == |index.Keys|;
    if Distinct(order) {
      forall i: nat {:trigger HasIndex(index, i)} | i < |index| ensures HasIndex(index, i) {
        assert order[i] in Elements(order);
        assert index[order[i]] == i;
      }
    } else {
      var last := order[|order| - 1];
      assert last in Elements(order);
      assert index[last] == |order| - 1 >= |index|;
    }
  }

  /** Keys are repeated only among nodes that are neither on nor behind a cycle. */
  ghost predicate TailKeysUnique(d: Definition) {
    forall i, j :: 0 <= i < j < |d.keys| && d.keys[i] == d.keys[j] ==> !BehindCycle(d, d.keys[i])
  }

  /**
   The indices are exactly 0, 1, ... if and only if no key of the cyclic tail is repeated in the
   definition: repeated keys that the queue reaches do no harm.
   */
  lemma IndicesContiguousIffTailKeysUnique(d: Definition, index: map<Key, nat>)
    requires Topological(d, index)
    ensures Bijection(index) <==> TailKeysUnique(d)
    ensures (forall k :: k in index ==> index[k] < |index|) <==> TailKeysUnique(d)
  {
    var head :| Ordered(d, head, index);
    OrderElements(d, head, index);
    ContiguousIffDistinct(head + Rest(d.keys, head), index);
    RestDistinct(d.keys, head);
  }

  /** With distinct node keys the index is a bijection onto 0 .. n-1. */
  lemma DistinctKeysGiveBijection(d: Definition, index: map<Key, nat>)
    requires Topological(d, index) && Distinct(d.keys)
    ensures Bijection(index) && |index| == |d.keys|
  {
    var head :| Ordered(d, head, index);
    IndicesContiguousIffTailKeysUnique(d, index);
    DistinctIffCardinality(d.keys);
    assert index.Keys == Elements(d.keys);
  }

  lemma RestAvoidsAll(keys: seq<Key>, head: seq<Key>)
    ensures forall i, j :: 0 <= i < |head| && 0 <= j < |Rest(keys, head)| ==> Rest(keys, head)[j] != head[i]
  {
    OrderCovers(keys, head);
    forall i, j | 0 <= i < |head| && 0 <= j < |Rest(keys, head)| ensures Rest(keys, head)[j] != head[i] {
      assert Rest(keys, head)[j] in Rest(keys, head);
      assert head[i] in head;
    }
  }

  lemma HeadIndex(d: Definition, head: seq<Key>, index: map<Key, nat>, i: nat)
    requires Ordered(d, head, index) && i < |head|
    ensures head[i] in index && index[head[i]] == i
  {
    var order := head + Rest(d.keys, head);
    RestAvoidsAll(d.keys, head);
    assert head[i] in head && order[i] == head[i];
  }

  ghost predicate GoesUp(index: map<Key, nat>, u: Key, v: Key) {
    u in index && v in index && index[u] < index[v]
  }

  /** An edge goes from a lower to a higher index unless both its ends are on or behind a cycle. */
  lemma EdgesGoUp(d: Definition, index: map<Key, nat>, u: Key, v: Key)
    requires Topological(d, index) && Edge(d, u, v)
    requires !BehindCycle(d, u) || !BehindCycle(d, v)
    ensures GoesUp(index, u, v)
  {
    var head :| Ordered(d, head, index);
    if v in head {
      var j :| 0 <= j < |head| && head[j] == v;
      assert u in head[..j];
      var i :| 0 <= i < j && head[i] == u;
      HeadIndex(d, head, index, i);
      HeadIndex(d, head, index, j);
    } else {
      assert u in head;
      var i :| 0 <= i < |head| && head[i] == u;
      HeadIndex(d, head, index, i);
    }
  }

  /** Nodes on or behind a cycle come after all others. */
  lemma TailComesLast(d: Definition, index: map<Key, nat>, u: Key, v: Key)
    requires Topological(d, index) && u in d.keys && v in d.keys
    requires !BehindCycle(d, u) && BehindCycle(d, v)
    ensures GoesUp(index, u, v)
  {
    var head :| Ordered(d, head, index);
    var n :| 0 <= n < |head| && head[n] == u;
    HeadIndex(d, head, index, n);
  }

  // ---------- inside the cyclic tail ----------

  lemma {:induction false} HasLastIndex(s: seq<Key>, k: Key) returns (i: nat)
    requires k in s
    ensures LastIndex(s, k, i)
  {
    if s[|s| - 1] == k {
      i := |s| - 1;
    } else {
      assert s == s[..|s| - 1] + [s[|s| - 1]];
      i := HasLastIndex(s[..|s| - 1], k);
    }
  }

  /** Left-over nodes stand in the order of their last occurrences in the definition. */
  lemma {:induction false} RestKeepsLast(keys: seq<Key>, head: seq<Key>, u: Key, v: Key, i: nat, j: nat)
    returns (m: nat, n: nat)
    requires u !in head && v !in head && i < j && LastIndex(keys, u, i) && LastIndex(keys, v, j)
    ensures m < n && LastIndex(Rest(keys, head), u, m) && LastIndex(Rest(keys, head), v, n)
    decreases |keys|
  {
    var init := keys[..|keys| - 1];
    if j < |init| {
      m, n := RestKeepsLast(init, head, u, v, i, j);
    } else {
      OrderCovers(init, head);
      assert init[i] == u;
      m := HasLastIndex(Rest(init, head), u);
      n := |Rest(init, head)|;
    }
  }

  lemma LastIndexAppend(head: seq<Key>, rest: seq<Key>, k: Key, i: nat)
    requires LastIndex(rest, k, i)
    ensures LastIndex(head + rest, k, |head| + i)
  {
    var order := head + rest;
    forall n | |head| + i < n < |order| ensures order[n] != k {
      assert order[n] == rest[n - |head|];
    }
  }

  lemma TailOrdered(d: Definition, head: seq<Key>, index: map<Key, nat>, u: Key, v: Key, i: nat, j: nat)
    requires Ordered(d, head, index) && u !in head && v !in head && i < j
    requires LastIndex(d.keys, u, i) && LastIndex(d.keys, v, j)
    ensures GoesUp(index, u, v) && !GoesUp(index, v, u)
  {
    assert u in d.keys && v in d.keys;
    var m, n := RestKeepsLast(d.keys, head, u, v, i, j);
    LastIndexAppend(head, Rest(d.keys, head), u, m);
    LastIndexAppend(head, Rest(d.keys, head), v, n);
  }

  /** Among themselves, nodes on or behind a cycle keep the order of their last occurrences in the definition. */
  lemma TailKeepsDefinitionOrder(d: Definition, index: map<Key, nat>, u: Key, v: Key, i: nat, j: nat)
    requires Topological(d, index) && BehindCycle(d, u) && BehindCycle(d, v)
    requires LastIndex(d.keys, u, i) && LastIndex(d.keys, v, j) && i < j
    ensures GoesUp(index, u, v)
  {
    var head :| Ordered(d, head, index);
    TailOrdered(d, head, index, u, v, i, j);
  }

  // ---------- exactly which edges go up ----------

  lemma TailEdgeGoesUpIff(d: Definition, head: seq<Key>, index: map<Key, nat>, u: Key, v: Key, i: nat, j: nat)
    requires Ordered(d, head, index) && u !in head && v !in head
    requires LastIndex(d.keys, u, i) && LastIndex(d.keys, v, j)
    ensures GoesUp(index, u, v) <==> i < j
  {
    if i < j {
      TailOrdered(d, head, index, u, v, i, j);
    } else if j < i {
      TailOrdered(d, head, index, v, u, j, i);
    }
  }

  /** An edge goes up unless both its ends are on or behind a cycle and the definition has them in the other order. */
  lemma EdgeGoesUpIff(d: Definition, index: map<Key, nat>, u: Key, v: Key, i: nat, j: nat)
    requires Topological(d, index) && Edge(d, u, v)
    requires LastIndex(d.keys, u, i) && LastIndex(d.keys, v, j)
    ensures GoesUp(index, u, v) <==> !BehindCycle(d, u) || !BehindCycle(d, v) || i < j
  {
    var head :| Ordered(d, head, index);
    if u in head || v in head {
      EdgesGoUp(d, index, u, v);
    } else {
      TailEdgeGoesUpIff(d, head, index, u, v, i, j);
    }
  }

  ghost predicate AllGoUp(d: Definition, index: map<Key, nat>) {
    forall u, v :: Edge(d, u, v) ==> GoesUp(index, u, v)
  }

  ghost predicate Acyclic(d: Definition) {
    forall k {:trigger BehindCycle(d, k)} :: k in d.keys ==> !BehindCycle(d, k)
  }

  lemma {:induction false} WalkGoesUp(d: Definition, index: map<Key, nat>, p: seq<Key>, i: nat, j: nat)
    requires Walk(d, p) && i < j < |p| && AllGoUp(d, index)
    ensures GoesUp(index, p[i], p[j])
    decreases j
  {
    assert Edge(d, p[j - 1], p[j]);
    if i < j - 1 {
      WalkGoesUp(d, index, p, i, j - 1);
    }
  }

  lemma NoCycleWhenAllGoUp(d: Definition, index: map<Key, nat>, k: Key)
    requires AllGoUp(d, index)
    ensures !BehindCycle(d, k)
  {
    forall p | Walk(d, p) && p[|p| - 1] == k ensures Distinct(p) {
      forall i, j | 0 <= i < j < |p| ensures p[i] != p[j] {
        WalkGoesUp(d, index, p, i, j);
      }
    }
  }

  /** All edges go up if and only if the definition has no cycle. */
  lemma AllEdgesGoUpIffAcyclic(d: Definition, index: map<Key, nat>)
    requires Topological(d, index)
    ensures AllGoUp(d, index) <==> Acyclic(d)
  {
    if AllGoUp(d, index) {
      forall k | k in d.keys ensures !BehindCycle(d, k) {
        NoCycleWhenAllGoUp(d, index, k);
      }
    }
    if Acyclic(d) {
      forall u, v | Edge(d, u, v) ensures GoesUp(index, u, v) {
        EdgesGoUp(d, index, u, v);
      }
    }
  }

  // ---------- witnesses ----------

  /** The two-node cycle has an edge that goes down. */
  lemma CycleHasEdgeDown(d: Definition, index: map<Key, nat>)
    requires d == Definition(["a", "b"], [("a", "b"), ("b", "a")]) && Topological(d, index)
    ensures exists u, v :: Edge(d, u, v) && u in index && v in index && index[u] >= index[v]
  {
    var head :| Ordered(d, head, index);
    assert Edge(d, "a", "b") by { assert d.keys[0] == "a" && d.keys[1] == "b" && d.edges[0] == ("a", "b"); }
    assert Edge(d, "b", "a") by { assert d.keys[0] == "a" && d.keys[1] == "b" && d.edges[1] == ("b", "a"); }
    assert "a" in index && "b" in index;
  }

  lemma SelfLoopIsCycle(d: Definition, k: Key)
    requires Edge(d, k, k)
    ensures BehindCycle(d, k)
  {
    var p := [k, k];
    assert Walk(d, p) && p[0] == p[1] && !Distinct(p);
  }

  /** A repeated key with an edge to itself leaves a gap. */
  lemma RepeatedKeyLeavesGap(d: Definition, index: map<Key, nat>)
    requires d == Definition(["a", "a"], [("a", "a")]) && Topological(d, index)
    ensures !Bijection(index)
  {
    assert d.keys[0] == d.keys[1] == "a" && d.edges[0] == ("a", "a");
    SelfLoopIsCycle(d, "a");
    IndicesContiguousIffTailKeysUnique(d, index);
  }
}
