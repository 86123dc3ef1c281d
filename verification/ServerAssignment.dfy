/** Assigning a heartbeat server to a host: longest matching subnet first, else weighted load balancing. */
module ServerAssignment {
  import opened Wrappers

  // ---------- addresses and networks ----------

  datatype Address = Address(version: nat, value: nat)

  /** The base may have host bits set; they are masked off. */
  datatype Network = Network(version: nat, base: nat, prefix: nat) {
    predicate Ok() { prefix <= Width(version) }
  }

  function Width(version: nat): nat {
    if version == 4 then 32 else 128
  }

  function Pow2(n: nat): nat
    ensures Pow2(n) > 0
  {
    if n == 0 then 1 else 2 * Pow2(n - 1)
  }

  /** The network part of a value: what is left of it without its host bits. */
  function NetworkPart(version: nat, prefix: nat, value: nat): int
    requires prefix <= Width(version)
  {
    var hosts := Pow2(Width(version) - prefix);
    value / hosts
  }

  predicate Contains(n: Network, a: Address)
    requires n.Ok()
  {
    n.version == a.version && NetworkPart(n.version, n.prefix, n.base) == NetworkPart(n.version, n.prefix, a.value)
  }

  lemma DivUnique(x: nat, d: nat, q: nat, r: nat)
    requires d > 0 && x == d * q + r && r < d
    ensures x / d == q
  {
    QuotientNotAbove(d, q, r, x / d, x % d);
    QuotientNotAbove(d, x / d, x % d, q, r);
  }

  lemma QuotientNotAbove(d: nat, q: nat, r: nat, p: nat, s: nat)
    requires r < d && d * q + r == d * p + s
    ensures p <= q
  {
    if p > q {
      MulMonotone(d, q + 1, p);
    }
  }

  lemma MulMonotone(k: nat, v: nat, w: nat)
    requires v <= w
    ensures k * v <= k * w
  {
  }

  lemma TwoLevelDivision(x: nat, k: nat, l: nat, q: nat, r: nat, u: nat, v: nat)
    requires x == k * q + r && q == l * u + v && r < k && v < l
    ensures x == (k * l) * u + (k * v + r) && k * v + r < k * l
  {
    assert k * q == k * (l * u) + k * v;
    assert k * (l * u) == (k * l) * u;
    MulMonotone(k, v, l - 1);
    assert k * (l - 1) == k * l - k;
  }

  lemma DivDiv(x: nat, k: nat, l: nat)
    requires k > 0 && l > 0 && k * l > 0
    ensures x / (k * l) == (x / k) / l
  {
    var q, r := x / k, x % k;
    var u, v := q / l, q % l;
    TwoLevelDivision(x, k, l, q, r, u, v);
    DivUnique(x, k * l, u, k * v + r);
  }

  lemma QuotientMeans(x: nat, d: nat, q: int)
    requires d > 0
    ensures x / d == q <==> q >= 0 && q * d <= x < (q + 1) * d
  {
    assert x == d * (x / d) + x % d;
    if q >= 0 && q * d <= x < (q + 1) * d {
      DivUnique(x, d, q, x - q * d);
    }
  }

  /** The value lies in the `q`-th block of that many values. */
  predicate Spans(q: nat, size: nat, value: nat) {
    q * size <= value < (q + 1) * size
  }

  ghost predicate SameBlock(size: nat, x: nat, y: nat) {
    exists q: nat :: Spans(q, size, x) && Spans(q, size, y)
  }

  lemma BlockMeans(x: nat, y: nat, size: nat)
    requires size > 0
    ensures x / size == y / size <==> SameBlock(size, x, y)
  {
    QuotientMeans(x, size, x / size);
    QuotientMeans(y, size, y / size);
    if x / size == y / size {
      assert Spans(x / size, size, x) && Spans(x / size, size, y);
    }
    if q: nat :| Spans(q, size, x) && Spans(q, size, y) {
      QuotientMeans(x, size, q);
      QuotientMeans(y, size, q);
    }
  }

  /** A network is an interval of addresses of its version: as many as there are values of the host bits. */
  lemma NetworkIsInterval(n: Network, a: Address)
    requires n.Ok()
    ensures var size := Pow2((if n.version == 4 then 32 else 128) - n.prefix);
      Contains(n, a) <==> a.version == n.version && SameBlock(size, n.base, a.value)
  {
    var size := Pow2((if n.version == 4 then 32 else 128) - n.prefix);
    BlockMeans(n.base, a.value, size);
    assert NetworkPart(n.version, n.prefix, n.base) == n.base / size;
    assert NetworkPart(n.version, n.prefix, a.value) == a.value / size;
  }

  /** Sizes of networks: one more host bit doubles it, and eight of them make 256. */
  lemma Sizes(n: nat)
    ensures Pow2(0) == 1 && Pow2(n + 1) == 2 * Pow2(n) && Pow2(8) == 256
  {
    assert Pow2(4) == 16;
    Pow2Sum(4, 4);
  }

  lemma {:induction false} Pow2Sum(m: nat, n: nat)
    ensures Pow2(m + n) == Pow2(m) * Pow2(n)
  {
    if m > 0 {
      Pow2Sum(m - 1, n);
    }
  }

  /**
   Longest match, section 5.1 of RFC 4632: of two networks that contain an address, the one with
   the longer prefix lies inside the other.
   */
  lemma LongerPrefixIsInside(n: Network, m: Network, a: Address, b: Address)
    requires n.Ok() && m.Ok() && Contains(n, a) && Contains(m, a) && n.prefix >= m.prefix
    requires Contains(n, b)
    ensures Contains(m, b)
  {
    var w := Width(n.version);
    var k, l := Pow2(w - n.prefix), Pow2(n.prefix - m.prefix);
    Pow2Sum(w - n.prefix, n.prefix - m.prefix);
    assert Pow2(w - m.prefix) == k * l;
    DivDiv(a.value, k, l);
    DivDiv(b.value, k, l);
  }

  // ---------- servers ----------

  /** The subnet column: empty, not a network, or a network. */
  datatype Subnet = NoSubnet | Unreadable | Subnet(network: Network)

  datatype Server = Server(name: string, subnet: Subnet, maxConnections: int, currentConnections: int,
                           weight: int, active: bool)

  function LoadRatio(s: Server): real {
    if s.maxConnections <= 0 then 1.0
    else
      var ratio := s.currentConnections as real / s.maxConnections as real;
      if ratio < 1.0 then ratio else 1.0
  }

  function Score(s: Server): real {
    s.weight as real * (1.0 - LoadRatio(s))
  }

  /** Load is the share of the connections in use, at most all of them; without a limit above zero it is full. */
  lemma LoadMeans(s: Server)
    ensures s.maxConnections <= 0 ==> LoadRatio(s) == 1.0
    ensures s.maxConnections > 0 ==>
      LoadRatio(s) * (s.maxConnections as real) ==
      (if s.currentConnections < s.maxConnections then s.currentConnections else s.maxConnections) as real
  {
  }

  /** The score is the weight times the free share of the connections. */
  lemma ScoreMeans(s: Server)
    ensures s.maxConnections <= 0 ==> Score(s) == 0.0
    ensures s.maxConnections > 0 ==>
      Score(s) * (s.maxConnections as real) ==
      s.weight as real *
      (if s.currentConnections < s.maxConnections then s.maxConnections - s.currentConnections else 0) as real
  {
    LoadMeans(s);
    if s.maxConnections > 0 {
      var m, l, w := s.maxConnections as real, LoadRatio(s), s.weight as real;
      assert (w * (1.0 - l)) * m == w * (m - l * m);
    }
  }

  predicate Matches(s: Server, ip: Option<Address>) {
    && s.active && ip.Some? && s.subnet.Subnet? && s.subnet.network.Ok()
    && Contains(s.subnet.network, ip.value)
  }

  ghost predicate AnyMatch(servers: seq<Server>, ip: Option<Address>) {
    exists i :: 0 <= i < |servers| && Matches(servers[i], ip)
  }

  /** Sort key of a matching server: longer prefix first, then lower load. */
  predicate Precedes(s: Server, t: Server)
    requires s.subnet.Subnet? && t.subnet.Subnet?
  {
    || s.subnet.network.prefix > t.subnet.network.prefix
    || (s.subnet.network.prefix == t.subnet.network.prefix && LoadRatio(s) < LoadRatio(t))
  }

  /** No match is better, and none as good comes earlier in query order. */
  ghost predicate BestMatch(servers: seq<Server>, ip: Option<Address>, i: nat) {
    && i < |servers| && Matches(servers[i], ip)
    && forall j :: 0 <= j < |servers| && Matches(servers[j], ip) ==>
         !Precedes(servers[j], servers[i]) && (j < i ==> Precedes(servers[i], servers[j]))
  }

  ghost predicate AnyFallback(servers: seq<Server>) {
    exists i :: 0 <= i < |servers| && servers[i].active && servers[i].subnet.NoSubnet?
  }

  /** The servers balanced over: active ones without a subnet, or all active ones if there are none. */
  ghost predicate InPool(servers: seq<Server>, i: int) {
    && 0 <= i < |servers| && servers[i].active
    && (AnyFallback(servers) ==> servers[i].subnet.NoSubnet?)
  }

  ghost predicate BestScore(servers: seq<Server>, i: int) {
    && InPool(servers, i) && Score(servers[i]) > -1.0
    && forall j :: InPool(servers, j) ==>
         Score(servers[j]) <= Score(servers[i]) && (j < i ==> Score(servers[j]) < Score(servers[i]))
  }

  ghost predicate Assigned(servers: seq<Server>, ip: Option<Address>, r: Option<nat>) {
    if AnyMatch(servers, ip) then r.Some? && BestMatch(servers, ip, r.value)
    else match r
      case Some(i) => BestScore(servers, i)
      case None => forall j :: InPool(servers, j) ==> Score(servers[j]) <= -1.0
  }

  /** The servers whose subnet contains the address, in query order. */
  method MatchingServers(servers: seq<Server>, ip: Option<Address>) returns (matched: seq<nat>)
    ensures forall i :: i in matched <==> 0 <= i < |servers| && Matches(servers[i], ip)
    ensures forall m, n :: 0 <= m < n < |matched| ==> matched[m] < matched[n]
  {
    matched := [];
    for i := 0 to |servers|
      invariant forall j :: j in matched <==> 0 <= j < i && Matches(servers[j], ip)
      invariant forall m, n :: 0 <= m < n < |matched| ==> matched[m] < matched[n]
      invariant forall m :: 0 <= m < |matched| ==> matched[m] < i
    {
      if Matches(servers[i], ip) {
        matched := matched + [i];
      }
    }
  }

  /** The first element that a stable sort by `Precedes` would put in front. */
  method FirstByKey(servers: seq<Server>, ip: Option<Address>, matched: seq<nat>) returns (best: nat)
    requires matched != []
    requires forall i :: i in matched <==> 0 <= i < |servers| && Matches(servers[i], ip)
    requires forall m, n :: 0 <= m < n < |matched| ==> matched[m] < matched[n]
    ensures BestMatch(servers, ip, best)
  {
    assert forall m :: 0 <= m < |matched| ==> matched[m] in matched;
    best := matched[0];
    for n := 1 to |matched|
      invariant best in matched[..n]
      invariant forall m :: 0 <= m < n ==>
        && !Precedes(servers[matched[m]], servers[best])
        && (matched[m] < best ==> Precedes(servers[best], servers[matched[m]]))
    {
      if Precedes(servers[matched[n]], servers[best]) {
        best := matched[n];
      }
    }
    forall j | 0 <= j < |servers| && Matches(servers[j], ip)
      ensures !Precedes(servers[j], servers[best]) && (j < best ==> Precedes(servers[best], servers[j]))
    {
      assert j in matched;
      var m :| 0 <= m < |matched| && matched[m] == j;
    }
  }

  method FallbackPool(servers: seq<Server>) returns (pool: seq<nat>)
    ensures forall i :: i in pool <==> InPool(servers, i)
    ensures forall m, n :: 0 <= m < n < |pool| ==> pool[m] < pool[n]
  {
    var free: seq<nat>, active: seq<nat> := [], [];
    for i := 0 to |servers|
      invariant forall j :: j in free <==> 0 <= j < i && servers[j].active && servers[j].subnet.NoSubnet?
      invariant forall j :: j in active <==> 0 <= j < i && servers[j].active
      invariant forall m, n :: 0 <= m < n < |free| ==> free[m] < free[n]
      invariant forall m, n :: 0 <= m < n < |active| ==> active[m] < active[n]
      invariant (forall m :: 0 <= m < |free| ==> free[m] < i) && (forall m :: 0 <= m < |active| ==> active[m] < i)
    {
      if servers[i].active {
        active := active + [i];
        if servers[i].subnet.NoSubnet? {
          free := free + [i];
        }
      }
    }
    if free != [] {
      assert free[0] in free;
      pool := free;
    } else {
      pool := active;
    }
  }

  /** Strictly higher scores win, starting from -1. */
  method HighestScore(servers: seq<Server>, pool: seq<nat>) returns (best: Option<nat>)
    requires forall i :: i in pool <==> InPool(servers, i)
    requires forall m, n :: 0 <= m < n < |pool| ==> pool[m] < pool[n]
    ensures match best
      case Some(i) => BestScore(servers, i)
      case None => forall j :: InPool(servers, j) ==> Score(servers[j]) <= -1.0
  {
    assert forall m :: 0 <= m < |pool| ==> pool[m] in pool;
    best := None;
    var bestScore := -1.0;
    for n := 0 to |pool|
      invariant best.Some? ==> best.value in pool[..n] && bestScore == Score(servers[best.value]) && bestScore > -1.0
      invariant best.None? ==> bestScore == -1.0
      invariant forall m :: 0 <= m < n ==> Score(servers[pool[m]]) <= bestScore
      invariant best.Some? ==> forall m :: 0 <= m < n && pool[m] < best.value ==> Score(servers[pool[m]]) < bestScore
    {
      var score := Score(servers[pool[n]]);
      if score > bestScore {
        bestScore := score;
        best := Some(pool[n]);
      }
    }
    forall j | InPool(servers, j)
      ensures Score(servers[j]) <= bestScore && (best.Some? && j < best.value ==> Score(servers[j]) < bestScore)
    {
      assert j in pool;
      var m :| 0 <= m < |pool| && pool[m] == j;
    }
  }

  /** Of the matching servers: the longest prefix, then the least load, then the first in query order. */
  ghost predicate MostSpecific(servers: seq<Server>, ip: Option<Address>, i: nat) {
    && i < |servers| && Matches(servers[i], ip)
    && forall j :: 0 <= j < |servers| && Matches(servers[j], ip) ==>
         && servers[j].subnet.network.prefix <= servers[i].subnet.network.prefix
         && (servers[j].subnet.network.prefix == servers[i].subnet.network.prefix ==>
               LoadRatio(servers[i]) < LoadRatio(servers[j])
               || (LoadRatio(servers[i]) == LoadRatio(servers[j]) && i <= j))
  }

  lemma BestMatchMeans(servers: seq<Server>, ip: Option<Address>, i: nat)
    ensures BestMatch(servers, ip, i) <==> MostSpecific(servers, ip, i)
  {
  }

  /** `ip` is absent when the address cannot be read. */
  method AssignForHost(servers: seq<Server>, ip: Option<Address>) returns (r: Option<nat>)
    ensures Assigned(servers, ip, r)
    ensures AnyMatch(servers, ip) ==> r.Some? && MostSpecific(servers, ip, r.value)
  {
    var matched := MatchingServers(servers, ip);
    if matched != [] {
      assert matched[0] in matched;
      var i := FirstByKey(servers, ip, matched);
      BestMatchMeans(servers, ip, i);
      return Some(i);
    }
    var pool := FallbackPool(servers);
    r := HighestScore(servers, pool);
  }

  // ---------- what an assignment means ----------

  /** The choice is determined by the servers and the address. */
  lemma AssignmentUnique(servers: seq<Server>, ip: Option<Address>, r: Option<nat>, q: Option<nat>)
    requires Assigned(servers, ip, r) && Assigned(servers, ip, q)
    ensures r == q
  {
  }

  /** The network of the assigned server lies inside every other matching network. */
  lemma AssignedNetworkMostSpecific(servers: seq<Server>, ip: Option<Address>, r: Option<nat>, j: nat, b: Address)
    requires Assigned(servers, ip, r) && j < |servers| && Matches(servers[j], ip)
    ensures r.Some? && r.value < |servers| && Matches(servers[r.value], ip)
    ensures Contains(servers[r.value].subnet.network, b) ==> Contains(servers[j].subnet.network, b)
  {
    assert !Precedes(servers[j], servers[r.value]);
    if Contains(servers[r.value].subnet.network, b) {
      LongerPrefixIsInside(servers[r.value].subnet.network, servers[j].subnet.network, ip.value, b);
    }
  }

  lemma ScoreNonNegative(s: Server)
    requires s.weight >= 0
    ensures Score(s) >= 0.0
  {
    assert LoadRatio(s) <= 1.0;
  }

  ghost predicate AnyActive(servers: seq<Server>) {
    exists i :: 0 <= i < |servers| && servers[i].active
  }

  lemma PoolNonEmpty(servers: seq<Server>)
    requires AnyActive(servers)
    ensures exists j :: InPool(servers, j)
  {
    var i :| 0 <= i < |servers| && servers[i].active;
    if AnyFallback(servers) {
      var f :| 0 <= f < |servers| && servers[f].active && servers[f].subnet.NoSubnet?;
      assert InPool(servers, f);
    } else {
      assert InPool(servers, i);
    }
  }

  /** Whatever the weights, nothing is assigned exactly when nothing matches and no pool score exceeds -1. */
  lemma AssignedIff(servers: seq<Server>, ip: Option<Address>, r: Option<nat>)
    requires Assigned(servers, ip, r)
    ensures r.Some? <==> AnyMatch(servers, ip) || exists j :: InPool(servers, j) && Score(servers[j]) > -1.0
    ensures r.Some? ==> r.value < |servers| && servers[r.value].active
  {
  }

  /** With non-negative weights a server is assigned if and only if some server is active. */
  lemma AssignedIffAnyActive(servers: seq<Server>, ip: Option<Address>, r: Option<nat>)
    requires Assigned(servers, ip, r)
    requires forall i :: 0 <= i < |servers| ==> servers[i].weight >= 0
    ensures r.Some? <==> AnyActive(servers)
    ensures r.Some? ==> r.value < |servers| && servers[r.value].active
  {
    if AnyActive(servers) && r.None? {
      PoolNonEmpty(servers);
      var j :| InPool(servers, j);
      ScoreNonNegative(servers[j]);
      assert false;
    }
  }

  /** An active server that takes part in the balancing but is never chosen: its weight is below -1. */
  lemma NegativeWeightUnassigned(r: Option<nat>)
    requires Assigned([Server("s", NoSubnet, 10, 0, -5, true)], None, r)
    ensures r == None && AnyActive([Server("s", NoSubnet, 10, 0, -5, true)])
  {
    var servers := [Server("s", NoSubnet, 10, 0, -5, true)];
    assert servers[0].active && Score(servers[0]) == -5.0;
  }
}
