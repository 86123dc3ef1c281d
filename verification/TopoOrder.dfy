/**
 The order of a workflow definition: breadth-first topological ordering that takes the nodes it
 cannot order, those on or behind a cycle, last and in the order of the definition.
 Definitions may have cycles, self-loops, repeated edges, edges to unknown nodes and repeated keys.
 */
module TopoOrder {
  import opened Finite

  type Key = string

  datatype Definition = Definition(keys: seq<Key>, edges: seq<(Key, Key)>)

  /** Edges to or from unknown nodes are ignored. */
  predicate Edge(d: Definition, u: Key, v: Key) {
    u in d.keys && v in d.keys && (u, v) in d.edges
  }

  ghost predicate Walk(d: Definition, p: seq<Key>) {
    && p != []
    && (forall i :: 0 <= i < |p| ==> p[i] in d.keys)
    && (forall i, j :: 0 <= i && j == i + 1 && j < |p| ==> Edge(d, p[i], p[j]))
  }

  /** On a cycle or downstream of one: some walk to the node passes a node twice. */
  ghost predicate BehindCycle(d: Definition, k: Key) {
    exists p :: Walk(d, p) && p[|p| - 1] == k && !Distinct(p)
  }

  // ---------- what the ordering promises ----------

  /** Every predecessor of an ordered node comes before it. */
  ghost predicate PredecessorsFirst(d: Definition, head: seq<Key>) {
    forall j, u :: 0 <= j < |head| && Edge(d, u, head[j]) ==> u in head[..j]
  }

  /** First in, first out: of two ordered nodes, the later one waited for a predecessor at least as late. */
  ghost predicate Fifo(d: Definition, s: seq<Key>) {
    forall i, j, p {:trigger Edge(d, s[p], s[i]), WaitsAsLate(d, s, p, j)} ::
      0 <= i < j < |s| && 0 <= p < |s| && Edge(d, s[p], s[i]) ==> WaitsAsLate(d, s, p, j)
  }

  ghost predicate WaitsAsLate(d: Definition, s: seq<Key>, p: nat, j: nat)
    requires j < |s|
  {
    exists r :: p <= r < |s| && Edge(d, s[r], s[j])
  }

  /** All predecessors have been taken from the queue. */
  ghost predicate Ready(d: Definition, taken: seq<Key>, v: Key) {
    forall u :: Edge(d, u, v) ==> u in taken
  }

  /** The names that no edge enters, in the order of the names. */
  ghost function Sources(d: Definition, names: seq<Key>): seq<Key> {
    if names == [] then []
    else
      var before, k := Sources(d, names[..|names| - 1]), names[|names| - 1];
      if Ready(d, [], k) then before + [k] else before
  }

  /** The successors that waited for the node taken last, in the order of their last edge from it. */
  ghost function Freed(d: Definition, taken: seq<Key>, successors: seq<Key>, j: nat): seq<Key>
    requires j <= |successors|
  {
    if j == 0 then []
    else
      var before, v := Freed(d, taken, successors, j - 1), successors[j - 1];
      if Ready(d, taken, v) && v !in successors[j..] then before + [v] else before
  }

  /** All nodes queued until `n` of them were taken: the sources, then what each node taken has freed. */
  ghost function Queued(d: Definition, n: nat): seq<Key> {
    if n == 0 then Sources(d, FirstOccurrences(d.keys))
    else
      var s := Queued(d, n - 1);
      if n > |s| then s
      else
        var successors := Successors(d.keys, d.edges, s[n - 1]);
        s + Freed(d, s[..n], successors, |successors|)
  }

  function Rest(keys: seq<Key>, head: seq<Key>): seq<Key> {
    if keys == [] then []
    else
      var before, k := Rest(keys[..|keys| - 1], head), keys[|keys| - 1];
      if k in head then before else before + [k]
  }

  ghost predicate LastIndex(order: seq<Key>, k: Key, i: nat) {
    && i < |order| && order[i] == k
    && forall j :: i < j < |order| ==> order[j] != k
  }

  ghost predicate Ordered(d: Definition, head: seq<Key>, index: map<Key, nat>) {
    var order := head + Rest(d.keys, head);
    && Distinct(head) && (forall k :: k in head ==> k in d.keys)
    && PredecessorsFirst(d, head) && Fifo(d, head)
    && (forall k {:trigger BehindCycle(d, k)} :: k in d.keys ==> (k in head <==> !BehindCycle(d, k)))
    && (forall k :: k in index <==> k in d.keys)
    && (forall k :: k in index ==> LastIndex(order, k, index[k]))
  }

  /** The index of some such order: the nodes the queue reaches, then the others. */
  ghost predicate Topological(d: Definition, index: map<Key, nat>) {
    exists head :: Ordered(d, head, index)
  }

  /** The index of the very order in which the queue loop takes the nodes. */
  ghost predicate QueueOrder(d: Definition, index: map<Key, nat>) {
    exists head :: Ordered(d, head, index) && head == Queued(d, |head|)
  }

  // ---------- counting incoming edges ----------

  /** Edges into `v` whose source is not in `done`. */
  ghost function Waiting(keys: seq<Key>, edges: seq<(Key, Key)>, done: seq<Key>, v: Key): nat {
    if edges == [] then 0
    else
      var e := edges[|edges| - 1];
      Waiting(keys, edges[..|edges| - 1], done, v) +
      if e.0 in keys && e.1 in keys && e.1 == v && e.0 !in done then 1 else 0
  }

  /** The successor list of `k`, one entry an edge. */
  ghost function Successors(keys: seq<Key>, edges: seq<(Key, Key)>, k: Key): seq<Key> {
    if edges == [] then []
    else
      var e := edges[|edges| - 1];
      var before := Successors(keys, edges[..|edges| - 1], k);
      if e.0 in keys && e.1 in keys && e.0 == k then before + [e.1] else before
  }

  function Occurrences(s: seq<Key>, v: Key): nat {
    if s == [] then 0 else Occurrences(s[..|s| - 1], v) + if s[|s| - 1] == v then 1 else 0
  }

  lemma {:induction false} OccurrencesPrefix(s: seq<Key>, j: nat, v: Key)
    requires j <= |s|
    ensures Occurrences(s[..j], v) <= Occurrences(s, v)
    ensures Occurrences(s[..j], v) == Occurrences(s, v) <==> v !in s[j..]
  {
    if j == |s| {
      assert s[..j] == s;
    } else {
      var init := s[..|s| - 1];
      OccurrencesPrefix(init, j, v);
      assert init[..j] == s[..j] && s[j..] == init[j..] + [s[|s| - 1]];
    }
  }

  /** Ordering `k` takes its own edges off the count of every node. */
  lemma {:induction false} WaitingDone(keys: seq<Key>, edges: seq<(Key, Key)>, done: seq<Key>, k: Key, v: Key)
    requires k !in done && v in keys
    ensures Waiting(keys, edges, done + [k], v) + Occurrences(Successors(keys, edges, k), v) ==
            Waiting(keys, edges, done, v)
  {
    if edges != [] {
      var init, e := edges[..|edges| - 1], edges[|edges| - 1];
      WaitingDone(keys, init, done, k, v);
      assert e.0 in done + [k] <==> e.0 in done || e.0 == k;
    }
  }

  lemma {:induction false} WaitingZero(d: Definition, edges: seq<(Key, Key)>, done: seq<Key>, v: Key)
    requires v in d.keys
    ensures Waiting(d.keys, edges, done, v) == 0 <==>
      forall u :: u in d.keys && (u, v) in edges ==> u in done
  {
    if edges != [] {
      var init, e := edges[..|edges| - 1], edges[|edges| - 1];
      WaitingZero(d, init, done, v);
      assert edges == init + [e];
      assert forall x :: x in edges <==> x in init || x == e;
      if e.1 == v && e.0 in d.keys && e.0 !in done {
        assert (e.0, v) in edges;
      }
      if Waiting(d.keys, init, done, v) != 0 {
        var u :| u in d.keys && (u, v) in init && u !in done;
        assert (u, v) in edges;
      }
    }
  }

  lemma {:induction false} SuccessorsAreEdges(d: Definition, edges: seq<(Key, Key)>, k: Key)
    ensures forall v :: v in Successors(d.keys, edges, k) ==> k in d.keys && v in d.keys && (k, v) in edges
  {
    if edges != [] {
      var init, e := edges[..|edges| - 1], edges[|edges| - 1];
      SuccessorsAreEdges(d, init, k);
      assert edges == init + [e];
      assert forall v :: v in Successors(d.keys, edges, k) ==>
        v in Successors(d.keys, init, k) || (v == e.1 && e.0 == k && e == (k, v));
    }
  }

  // ---------- cycles ----------

  /** A walk into an ordered node stays among ordered nodes and never passes one twice. */
  lemma {:induction false} WalkIntoHead(d: Definition, head: seq<Key>, p: seq<Key>, i: nat, j: nat)
    requires Distinct(head) && PredecessorsFirst(d, head)
    requires Walk(d, p) && i < j < |p| && p[|p| - 1] in head
    ensures p[i] != p[j]
  {
    WalkStays(d, head, p, j);
    var n :| 0 <= n < |head| && head[n] == p[j];
    WalkDescends(d, head, p, i, j, n);
  }

  lemma {:induction false} WalkStays(d: Definition, head: seq<Key>, p: seq<Key>, j: nat)
    requires PredecessorsFirst(d, head)
    requires Walk(d, p) && j < |p| && p[|p| - 1] in head
    ensures p[j] in head
    decreases |p| - j
  {
    if j < |p| - 1 {
      WalkStays(d, head, p, j + 1);
      var n :| 0 <= n < |head| && head[n] == p[j + 1];
      assert Edge(d, p[j], head[n]);
      assert p[j] in head[..n];
    }
  }

  lemma {:induction false} WalkDescends(d: Definition, head: seq<Key>, p: seq<Key>, i: nat, j: nat, n: nat)
    requires PredecessorsFirst(d, head) && Distinct(head)
    requires Walk(d, p) && i < j < |p| && n < |head| && head[n] == p[j]
    ensures p[i] in head[..n] && p[i] != p[j]
    decreases j
  {
    assert Edge(d, p[j - 1], head[n]);
    assert p[j - 1] in head[..n];
    if i < j - 1 {
      var m :| 0 <= m < n && head[m] == p[j - 1];
      WalkDescends(d, head, p, i, j - 1, m);
      assert p[i] in head[..m];
    }
  }

  /** The node has a predecessor outside `head`. */
  ghost predicate Waits(d: Definition, head: seq<Key>, v: Key) {
    exists u :: Edge(d, u, v) && u !in head
  }

  /** Every node left over waits for another one. */
  ghost predicate AllWait(d: Definition, head: seq<Key>) {
    forall v {:trigger Waits(d, head, v)} :: v in d.keys && v !in head ==> Waits(d, head, v)
  }

  /** A walk of any length backwards through nodes that are left over. */
  lemma {:induction false} BackwardWalk(d: Definition, head: seq<Key>, k: Key, n: nat) returns (p: seq<Key>)
    requires k in d.keys && k !in head
    requires AllWait(d, head)
    ensures Walk(d, p) && |p| == n + 1 && p[n] == k && p[0] !in head
  {
    if n == 0 {
      p := [k];
    } else {
      var q := BackwardWalk(d, head, k, n - 1);
      assert Waits(d, head, q[0]);
      var u :| Edge(d, u, q[0]) && u !in head;
      p := [u] + q;
      forall i, j | 0 <= i && j == i + 1 && j < |p| ensures Edge(d, p[i], p[j]) {
        if i > 0 {
          assert Edge(d, q[i - 1], q[j - 1]);
        }
      }
    }
  }

  lemma LeftOverBehindCycle(d: Definition, head: seq<Key>, k: Key)
    requires k in d.keys && k !in head
    requires AllWait(d, head)
    ensures BehindCycle(d, k)
  {
    var all := set x | x in d.keys;
    var p := BackwardWalk(d, head, k, |all|);
    var i, j := Pigeonhole(p, all);
    assert !Distinct(p);
  }

  lemma OrderedNotBehindCycle(d: Definition, head: seq<Key>, k: Key)
    requires Distinct(head) && PredecessorsFirst(d, head) && k in head
    ensures !BehindCycle(d, k)
  {
    forall p | Walk(d, p) && p[|p| - 1] == k ensures Distinct(p) {
      forall i, j | 0 <= i < j < |p| ensures p[i] != p[j] {
        WalkIntoHead(d, head, p, i, j);
      }
    }
  }

  // ---------- the algorithm ----------

  /** What the queue loop keeps: `order` is done, `q` is waiting to be processed, `visited` is both. */
  ghost predicate QueueOk(d: Definition, order: seq<Key>, q: seq<Key>, visited: set<Key>, indeg: map<Key, int>) {
    && Distinct(order + q)
    && (forall k :: k in visited <==> k in order + q)
    && (forall k :: k in visited ==> k in d.keys)
    && PredecessorsFirst(d, order) && Fifo(d, order + q)
    && (forall k :: k in indeg <==> k in d.keys)
    && (forall v :: v in d.keys ==> indeg[v] == Waiting(d.keys, d.edges, order, v))
    && (forall v :: v in d.keys ==> (v in visited <==> indeg[v] == 0))
  }

  /** Entries of a dictionary built from the keys: every key once, in the order of the definition. */
  method DistinctKeys(keys: seq<Key>) returns (names: seq<Key>)
    ensures names == FirstOccurrences(keys)
  {
    names := [];
    for i := 0 to |keys|
      invariant names == FirstOccurrences(keys[..i])
    {
      assert keys[..i + 1][..i] == keys[..i];
      if keys[i] !in names {
        names := names + [keys[i]];
      }
    }
    assert keys[..|keys|] == keys;
  }

  /** The graph of the first `i` edges. */
  ghost predicate GraphOf(d: Definition, i: nat, forward: map<Key, seq<Key>>, indeg: map<Key, int>)
    requires i <= |d.edges|
  {
    && (forall k :: k in forward <==> k in d.keys)
    && (forall k :: k in indeg <==> k in d.keys)
    && (forall k :: k in d.keys ==> forward[k] == Successors(d.keys, d.edges[..i], k))
    && (forall v :: v in d.keys ==> indeg[v] == Waiting(d.keys, d.edges[..i], [], v))
  }

  lemma GraphSnoc(d: Definition, i: nat, forward: map<Key, seq<Key>>, indeg: map<Key, int>)
    requires i < |d.edges| && GraphOf(d, i, forward, indeg)
    ensures var (src, dst) := d.edges[i];
      if src in d.keys && dst in d.keys
      then GraphOf(d, i + 1, forward[src := forward[src] + [dst]], indeg[dst := indeg[dst] + 1])
      else GraphOf(d, i + 1, forward, indeg)
  {
    assert d.edges[..i + 1][..i] == d.edges[..i];
  }

  method BuildGraph(d: Definition) returns (forward: map<Key, seq<Key>>, indeg: map<Key, int>)
    ensures GraphOf(d, |d.edges|, forward, indeg)
  {
    forward := map k | k in d.keys :: [];
    indeg := map k | k in d.keys :: 0;
    for i := 0 to |d.edges|
      invariant GraphOf(d, i, forward, indeg)
    {
      var (src, dst) := d.edges[i];
      GraphSnoc(d, i, forward, indeg);
      if src in indeg && dst in indeg {
        forward := forward[src := forward[src] + [dst]];
        indeg := indeg[dst := indeg[dst] + 1];
      }
    }
  }

  /** The nodes without incoming edges start the queue. */
  method StartQueue(d: Definition, indeg: map<Key, int>) returns (q: seq<Key>, visited: set<Key>)
    requires forall k :: k in indeg <==> k in d.keys
    requires forall v :: v in d.keys ==> indeg[v] == Waiting(d.keys, d.edges, [], v)
    ensures QueueOk(d, [], q, visited, indeg) && q == Queued(d, 0)
  {
    var names := DistinctKeys(d.keys);
    FirstOccurrencesOnce(d.keys);
    q, visited := [], {};
    for i := 0 to |names|
      invariant q == Sources(d, names[..i])
      invariant forall k :: k in visited <==> k in q
    {
      assert names[..i + 1][..i] == names[..i] && names[i] in names;
      WaitingZero(d, d.edges, [], names[i]);
      if indeg[names[i]] == 0 {
        q := q + [names[i]];
        visited := visited + {names[i]};
      }
    }
    assert names[..|names|] == names;
    SourcesAre(d, names);
    StartOk(d, q, visited, indeg);
  }

  lemma {:induction false} SourcesAre(d: Definition, names: seq<Key>)
    ensures forall k :: k in Sources(d, names) <==> k in names && Ready(d, [], k)
    ensures Distinct(names) ==> Distinct(Sources(d, names))
  {
    if names != [] {
      var init, k := names[..|names| - 1], names[|names| - 1];
      SourcesAre(d, init);
      assert names == init + [k];
      assert Distinct(names) ==> k !in init;
    }
  }

  lemma StartOk(d: Definition, q: seq<Key>, visited: set<Key>, indeg: map<Key, int>)
    requires Distinct(q) && forall k :: k in q <==> k in d.keys && Ready(d, [], k)
    requires forall k :: k in visited <==> k in q
    requires forall k :: k in indeg <==> k in d.keys
    requires forall v :: v in d.keys ==> indeg[v] == Waiting(d.keys, d.edges, [], v)
    ensures QueueOk(d, [], q, visited, indeg)
  {
    assert [] + q == q;
    forall v | v in d.keys ensures v in visited <==> indeg[v] == 0 {
      WaitingZero(d, d.edges, [], v);
    }
    SourcesFifo(d, q);
  }

  lemma SourcesFifo(d: Definition, q: seq<Key>)
    requires forall k :: k in q ==> Ready(d, [], k)
    ensures Fifo(d, q)
  {
    forall i, p | 0 <= i < |q| && 0 <= p < |q| ensures !Edge(d, q[p], q[i]) {
      assert q[i] in q && Ready(d, [], q[i]);
    }
  }

  /** A visited node has all its predecessors among the nodes already taken from the queue. */
  lemma ReadyWhenZero(d: Definition, order: seq<Key>, k: Key, j: nat, v: Key)
    requires k in d.keys && k !in order && v in d.keys
    requires j <= |Successors(d.keys, d.edges, k)|
    requires Waiting(d.keys, d.edges, order, v) <= Occurrences(Successors(d.keys, d.edges, k)[..j], v)
    ensures Ready(d, order + [k], v)
  {
    WaitingDone(d.keys, d.edges, order, k, v);
    OccurrencesPrefix(Successors(d.keys, d.edges, k), j, v);
    WaitingZero(d, d.edges, order + [k], v);
  }

  lemma FifoSnoc(d: Definition, taken: seq<Key>, q: seq<Key>, nb: Key)
    requires taken != [] && Distinct(taken + q) && nb !in taken + q
    requires Fifo(d, taken + q) && Edge(d, taken[|taken| - 1], nb)
    requires forall v :: v in taken + q ==> Ready(d, taken, v)
    ensures Fifo(d, taken + (q + [nb]))
  {
    var s, t := taken + q, taken + (q + [nb]);
    assert t == s + [nb];
    forall i, j, p | 0 <= i < j < |t| && 0 <= p < |t| && Edge(d, t[p], t[i])
      ensures WaitsAsLate(d, t, p, j)
    {
      assert t[i] == s[i] && s[i] in s && Ready(d, taken, s[i]);
      assert t[p] in taken;
      var m :| 0 <= m < |taken| && taken[m] == t[p];
      assert s[m] == taken[m] && p == m;
      if j < |s| {
        assert Edge(d, s[p], s[i]) && WaitsAsLate(d, s, p, j);
        var r :| p <= r < |s| && Edge(d, s[r], s[j]);
        assert t[r] == s[r];
      } else {
        assert t[|taken| - 1] == taken[|taken| - 1];
      }
    }
  }

  lemma QueueFront(order: seq<Key>, q: seq<Key>)
    requires q != [] && Distinct(order + q)
    ensures order + [q[0]] + q[1..] == order + q
    ensures q[0] !in order && q[0] in order + q
  {
    assert (order + q)[|order|] == q[0];
    assert forall i :: 0 <= i < |order| ==> (order + q)[i] == order[i];
  }

  ghost predicate QueueShape(d: Definition, taken: seq<Key>, q: seq<Key>, visited: set<Key>) {
    && Distinct(taken + q) && Fifo(d, taken + q)
    && (forall x :: x in visited <==> x in taken + q)
    && (forall x :: x in visited ==> x in d.keys)
  }

  ghost predicate Released(d: Definition, order: seq<Key>, k: Key, j: nat, visited: set<Key>, indeg: map<Key, int>)
    requires j <= |Successors(d.keys, d.edges, k)|
  {
    && (forall x :: x in indeg <==> x in d.keys)
    && (forall v :: v in d.keys ==>
          indeg[v] == Waiting(d.keys, d.edges, order, v) - Occurrences(Successors(d.keys, d.edges, k)[..j], v))
    && (forall v :: v in d.keys ==> (v in visited <==> indeg[v] == 0))
  }

  lemma OccurrencesNext(s: seq<Key>, j: nat)
    requires j < |s|
    ensures forall v :: Occurrences(s[..j + 1], v) == Occurrences(s[..j], v) + if v == s[j] then 1 else 0
  {
    forall v ensures Occurrences(s[..j + 1], v) == Occurrences(s[..j], v) + if v == s[j] then 1 else 0 {
      assert s[..j + 1] == s[..j] + [s[j]];
    }
  }

  lemma ReleaseCount(d: Definition, order: seq<Key>, k: Key, j: nat, visited: set<Key>, indeg: map<Key, int>)
    requires k in d.keys && k !in order && j < |Successors(d.keys, d.edges, k)|
    requires Released(d, order, k, j, visited, indeg)
    ensures var nb := Successors(d.keys, d.edges, k)[j];
      nb in d.keys && indeg[nb] > 0 && nb !in visited &&
      var n := indeg[nb] - 1;
      Released(d, order, k, j + 1, if n == 0 then visited + {nb} else visited, indeg[nb := n])
  {
    var succ := Successors(d.keys, d.edges, k);
    SuccessorsAreEdges(d, d.edges, k);
    OccurrencesNext(succ, j);
    WaitingDone(d.keys, d.edges, order, k, succ[j]);
    OccurrencesPrefix(succ, j, succ[j]);
    assert succ[j..][0] == succ[j];
  }

  lemma ReleaseShape(d: Definition, order: seq<Key>, k: Key, j: nat, q: seq<Key>, visited: set<Key>,
                     indeg: map<Key, int>)
    requires k in d.keys && k !in order && j < |Successors(d.keys, d.edges, k)|
    requires Released(d, order, k, j, visited, indeg) && QueueShape(d, order + [k], q, visited)
    requires var nb := Successors(d.keys, d.edges, k)[j]; nb !in visited
    ensures var nb := Successors(d.keys, d.edges, k)[j];
      QueueShape(d, order + [k], q + [nb], visited + {nb})
  {
    var taken, nb := order + [k], Successors(d.keys, d.edges, k)[j];
    SuccessorsAreEdges(d, d.edges, k);
    forall v | v in taken + q ensures Ready(d, taken, v) {
      ReadyWhenZero(d, order, k, j, v);
    }
    assert Edge(d, k, nb);
    FifoSnoc(d, taken, q, nb);
    assert taken + (q + [nb]) == taken + q + [nb];
  }

  /** Nothing is waiting for the remaining edges exactly if this was the last edge and all predecessors are taken. */
  lemma ReleaseFrees(d: Definition, order: seq<Key>, k: Key, j: nat, visited: set<Key>, indeg: map<Key, int>)
    requires k in d.keys && k !in order && j < |Successors(d.keys, d.edges, k)|
    requires Released(d, order, k, j, visited, indeg)
    requires Successors(d.keys, d.edges, k)[j] in d.keys
    ensures var succ := Successors(d.keys, d.edges, k);
      indeg[succ[j]] == 1 <==> Ready(d, order + [k], succ[j]) && succ[j] !in succ[j + 1..]
  {
    var succ := Successors(d.keys, d.edges, k);
    OccurrencesNext(succ, j);
    WaitingDone(d.keys, d.edges, order, k, succ[j]);
    WaitingZero(d, d.edges, order + [k], succ[j]);
    OccurrencesPrefix(succ, j + 1, succ[j]);
  }

  /** Taking the first node off the queue: its edges are released one by one. */
  method Release(d: Definition, ghost order: seq<Key>, q0: seq<Key>, visited0: set<Key>, indeg0: map<Key, int>,
                 successors: seq<Key>)
    returns (q: seq<Key>, visited: set<Key>, indeg: map<Key, int>)
    requires q0 != [] && QueueOk(d, order, q0, visited0, indeg0)
    requires successors == Successors(d.keys, d.edges, q0[0])
    ensures QueueOk(d, order + [q0[0]], q, visited, indeg)
    ensures q == q0[1..] + Freed(d, order + [q0[0]], successors, |successors|)
  {
    ReleaseStart(d, order, q0, visited0, indeg0);
    q, visited, indeg := ReleaseAll(d, order, q0[0], q0[1..], visited0, indeg0, successors);
    ReleaseEnd(d, order, q0[0], q, visited, indeg);
  }

  method ReleaseAll(d: Definition, ghost order: seq<Key>, k: Key, q0: seq<Key>, visited0: set<Key>,
                    indeg0: map<Key, int>, successors: seq<Key>)
    returns (q: seq<Key>, visited: set<Key>, indeg: map<Key, int>)
    requires k in d.keys && k !in order && successors == Successors(d.keys, d.edges, k)
    requires QueueShape(d, order + [k], q0, visited0) && Released(d, order, k, 0, visited0, indeg0)
    ensures QueueShape(d, order + [k], q, visited) && Released(d, order, k, |successors|, visited, indeg)
    ensures q == q0 + Freed(d, order + [k], successors, |successors|)
  {
    q, visited, indeg := q0, visited0, indeg0;
    for j := 0 to |successors|
      invariant QueueShape(d, order + [k], q, visited) && Released(d, order, k, j, visited, indeg)
      invariant q == q0 + Freed(d, order + [k], successors, j)
    {
      var nb := successors[j];
      ReleaseCount(d, order, k, j, visited, indeg);
      ReleaseFrees(d, order, k, j, visited, indeg);
      ReleaseShape(d, order, k, j, q, visited, indeg);
      indeg := indeg[nb := indeg[nb] - 1];
      if indeg[nb] == 0 && nb !in visited {
        visited := visited + {nb};
        q := q + [nb];
      }
    }
  }

  lemma ReleaseStart(d: Definition, order: seq<Key>, q: seq<Key>, visited: set<Key>, indeg: map<Key, int>)
    requires q != [] && QueueOk(d, order, q, visited, indeg)
    ensures q[0] in d.keys && q[0] !in order && Waiting(d.keys, d.edges, order, q[0]) == 0
    ensures QueueShape(d, order + [q[0]], q[1..], visited) && Released(d, order, q[0], 0, visited, indeg)
  {
    QueueFront(order, q);
  }

  lemma ReleaseEnd(d: Definition, order: seq<Key>, k: Key, q: seq<Key>, visited: set<Key>, indeg: map<Key, int>)
    requires k in d.keys && k !in order && PredecessorsFirst(d, order)
    requires Waiting(d.keys, d.edges, order, k) == 0
    requires QueueShape(d, order + [k], q, visited)
    requires Released(d, order, k, |Successors(d.keys, d.edges, k)|, visited, indeg)
    ensures QueueOk(d, order + [k], q, visited, indeg)
  {
    var succ, taken := Successors(d.keys, d.edges, k), order + [k];
    assert succ[..|succ|] == succ;
    forall v | v in d.keys ensures indeg[v] == Waiting(d.keys, d.edges, taken, v) {
      WaitingDone(d.keys, d.edges, order, k, v);
    }
    WaitingZero(d, d.edges, order, k);
    forall j, u | 0 <= j < |taken| && Edge(d, u, taken[j]) ensures u in taken[..j] {
      if j < |order| {
        assert taken[j] == order[j] && taken[..j] == order[..j];
      } else {
        assert taken[..j] == order;
      }
    }
  }

  /** When the queue is empty, what is left over waits for ever: it is on or behind a cycle. */
  lemma QueueEmpty(d: Definition, order: seq<Key>, visited: set<Key>, indeg: map<Key, int>)
    requires QueueOk(d, order, [], visited, indeg)
    ensures forall k {:trigger BehindCycle(d, k)} :: k in d.keys ==> (k in order <==> !BehindCycle(d, k))
  {
    assert order + [] == order;
    assert AllWait(d, order) by {
      forall v | v in d.keys && v !in order ensures Waits(d, order, v) {
        WaitingZero(d, d.edges, order, v);
        var u :| u in d.keys && (u, v) in d.edges && u !in order;
        assert Edge(d, u, v);
      }
    }
    forall k | k in d.keys ensures k in order <==> !BehindCycle(d, k) {
      if k in order {
        OrderedNotBehindCycle(d, order, k);
      } else {
        LeftOverBehindCycle(d, order, k);
      }
    }
  }

  lemma QueuedStep(d: Definition, n: nat, successors: seq<Key>)
    requires n < |Queued(d, n)| && successors == Successors(d.keys, d.edges, Queued(d, n)[n])
    ensures Queued(d, n + 1) == Queued(d, n) + Freed(d, Queued(d, n)[..n + 1], successors, |successors|)
  {
  }

  lemma QueueMoves(order: seq<Key>, q: seq<Key>, freed: seq<Key>)
    requires q != []
    ensures (order + q)[|order|] == q[0] && (order + q)[..|order| + 1] == order + [q[0]]
    ensures order + [q[0]] + (q[1..] + freed) == order + q + freed
  {
  }

  /** The queue loop. */
  method Drain(d: Definition, forward: map<Key, seq<Key>>, indeg0: map<Key, int>, q0: seq<Key>, visited0: set<Key>)
    returns (order: seq<Key>, visited: set<Key>)
    requires QueueOk(d, [], q0, visited0, indeg0) && q0 == Queued(d, 0)
    requires GraphOf(d, |d.edges|, forward, indeg0)
    ensures Distinct(order) && PredecessorsFirst(d, order) && Fifo(d, order) && order == Queued(d, |order|)
    ensures forall k :: k in visited <==> k in order
    ensures forall k :: k in order ==> k in d.keys
    ensures forall k {:trigger BehindCycle(d, k)} :: k in d.keys ==> (k in order <==> !BehindCycle(d, k))
  {
    var q, indeg := q0, indeg0;
    visited, order := visited0, [];
    ghost var all := set k | k in d.keys;
    assert d.edges[..|d.edges|] == d.edges;
    assert order + q == q;
    while q != []
      invariant QueueOk(d, order, q, visited, indeg)
      invariant order + q == Queued(d, |order|)
      decreases |all| - |order|
    {
      DistinctWithin(order + q, all);
      QueueFront(order, q);
      var k := q[0];
      QueueMoves(order, q, Freed(d, order + [k], forward[k], |forward[k]|));
      QueuedStep(d, |order|, forward[k]);
      q, visited, indeg := Release(d, order, q, visited, indeg, forward[k]);
      order := order + [k];
    }
    QueueEmpty(d, order, visited, indeg);
    assert order + [] == order;
  }

  /** The index of every node of a definition. */
  method TopoIndex(d: Definition) returns (index: map<Key, nat>)
    ensures Topological(d, index) && QueueOrder(d, index)
  {
    var forward, indeg := BuildGraph(d);
    assert d.edges[..|d.edges|] == d.edges;
    var q, visited := StartQueue(d, indeg);
    var order;
    order, visited := Drain(d, forward, indeg, q, visited);
    ghost var head := order;
    order := AppendRest(d.keys, order, visited);
    OrderCovers(d.keys, head);
    index := Enumerate(order);
    assert Ordered(d, head, index);
  }

  /** The nodes never visited, in the order of the definition. */
  method AppendRest(keys: seq<Key>, head: seq<Key>, visited: set<Key>) returns (order: seq<Key>)
    requires forall k :: k in visited <==> k in head
    ensures order == head + Rest(keys, head)
  {
    order := head;
    for i := 0 to |keys|
      invariant order == head + Rest(keys[..i], head)
    {
      assert keys[..i + 1][..i] == keys[..i];
      if keys[i] !in visited {
        order := order + [keys[i]];
      }
    }
    assert keys[..|keys|] == keys;
  }

  lemma {:induction false} OrderCovers(keys: seq<Key>, head: seq<Key>)
    ensures forall k :: k in Rest(keys, head) <==> k in keys && k !in head
  {
    if keys != [] {
      OrderCovers(keys[..|keys| - 1], head);
      assert keys == keys[..|keys| - 1] + [keys[|keys| - 1]];
    }
  }

  /** A later position of the same key replaces an earlier one. */
  method Enumerate(order: seq<Key>) returns (index: map<Key, nat>)
    ensures forall k :: k in index <==> k in order
    ensures forall k :: k in index ==> LastIndex(order, k, index[k])
  {
    index := map[];
    for i := 0 to |order|
      invariant forall k :: k in index <==> k in order[..i]
      invariant forall k :: k in index ==> LastIndex(order[..i], k, index[k])
    {
      assert order[..i + 1] == order[..i] + [order[i]];
      index := index[order[i] := i];
    }
    assert order[..|order|] == order;
  }
}
