/** The distance-vector protocol as a whole: every router runs the table of DvRib.

    The central fact is that the advertised pair (best cost, second-best cost) lets a router
    compute the neighbour's best cost among the hops other than itself. One round of
    advertisements is therefore one step of a shortest-walk computation over walks that never
    turn straight back, which gives convergence from every initial state, silence afterwards, and
    safety of arbitrary asynchronous runs. */
module DvNetwork {
  import opened DvRib

  // ----- Walks -----

  datatype Graph = Graph(nodes: set<RouterId>, links: set<(RouterId, RouterId)>)

  predicate Link(g: Graph, a: RouterId, b: RouterId) {
    (a, b) in g.links
  }

  ghost predicate ValidGraph(g: Graph) {
    forall a, b :: Link(g, a, b) ==> a != b && a in g.nodes && b in g.nodes && Link(g, b, a)
  }

  ghost predicate IsWalk(g: Graph, w: seq<RouterId>) {
    |w| > 0 && forall i :: 0 <= i < |w| - 1 ==> Link(g, w[i], w[i + 1])
  }

  predicate NoUTurn(w: seq<RouterId>) {
    forall i :: 0 <= i < |w| - 2 ==> w[i] != w[i + 2]
  }

  /** The next hop a walk uses; the walk that stays at its source uses the source itself. */
  function FirstHop(w: seq<RouterId>): RouterId
    requires |w| > 0
  {
    if |w| == 1 then w[0] else w[1]
  }

  ghost predicate Leads(g: Graph, w: seq<RouterId>, src: RouterId, hop: RouterId, dst: RouterId, len: nat) {
    && IsWalk(g, w) && NoUTurn(w) && |w| == len + 1
    && w[0] == src && w[len] == dst && FirstHop(w) == hop
  }

  /** A walk of length `len` from `src` through `hop` to `dst` that never turns straight back. */
  ghost predicate HasWalk(g: Graph, src: RouterId, hop: RouterId, dst: RouterId, len: nat) {
    exists w :: Leads(g, w, src, hop, dst, len)
  }

  ghost predicate ShortestWalk(g: Graph, src: RouterId, hop: RouterId, dst: RouterId, len: nat) {
    HasWalk(g, src, hop, dst, len) && forall l: nat :: l < len ==> !HasWalk(g, src, hop, dst, l)
  }

  /** A walk from `src` to `dst` that does not set out towards `avoid`. */
  ghost predicate HasWalkAvoiding(g: Graph, avoid: RouterId, src: RouterId, dst: RouterId, len: nat) {
    exists hop :: hop != avoid && HasWalk(g, src, hop, dst, len)
  }

  lemma WalkZero(g: Graph, src: RouterId, hop: RouterId, dst: RouterId)
    ensures HasWalk(g, src, hop, dst, 0) <==> src == hop == dst
  {
    if src == hop == dst {
      assert Leads(g, [src], src, hop, dst, 0);
    }
  }

  /** A walk is a link followed by a walk of the neighbour that does not come back to us. */
  lemma WalkStep(g: Graph, src: RouterId, hop: RouterId, dst: RouterId, len: nat)
    requires ValidGraph(g) && len > 0
    ensures HasWalk(g, src, hop, dst, len) <==> Link(g, src, hop) && HasWalkAvoiding(g, src, hop, dst, len - 1)
  {
    if HasWalk(g, src, hop, dst, len) {
      var w :| Leads(g, w, src, hop, dst, len);
      var rest := w[1..];
      assert Link(g, w[0], w[1]);
      assert IsWalk(g, rest) by {
        forall i | 0 <= i < |rest| - 1 ensures Link(g, rest[i], rest[i + 1]) { assert Link(g, w[i + 1], w[i + 2]); }
      }
      assert NoUTurn(rest) by {
        forall i | 0 <= i < |rest| - 2 ensures rest[i] != rest[i + 2] { assert w[i + 1] != w[i + 3]; }
      }
      assert Leads(g, rest, hop, FirstHop(rest), dst, len - 1);
      assert FirstHop(rest) != src by {
        if |rest| > 1 { assert w[0] != w[2]; }
      }
      assert HasWalk(g, hop, FirstHop(rest), dst, len - 1);
    }
    if Link(g, src, hop) && HasWalkAvoiding(g, src, hop, dst, len - 1) {
      var next :| next != src && HasWalk(g, hop, next, dst, len - 1);
      var rest :| Leads(g, rest, hop, next, dst, len - 1);
      var w := [src] + rest;
      assert IsWalk(g, w) by {
        forall i | 0 <= i < |w| - 1 ensures Link(g, w[i], w[i + 1]) { assert i > 0 ==> Link(g, rest[i - 1], rest[i]); }
      }
      assert NoUTurn(w) by {
        forall i | 0 <= i < |w| - 2 ensures w[i] != w[i + 2] { assert i > 0 ==> rest[i - 1] != rest[i + 1]; }
      }
      assert Leads(g, w, src, hop, dst, len);
    }
  }

  // ----- What a neighbour learns from an advertisement -----

  /** `m` is the least cost to `d` among the hops other than `r`. */
  ghost predicate IsLeastExcept(t: Table, d: RouterId, r: RouterId, m: nat) {
    && m <= COST_INFINITY
    && (forall h :: h != r ==> m <= Cost(t, d, h))
    && (m < COST_INFINITY ==> exists h :: h != r && Cost(t, d, h) == m)
  }

  /** Poison reverse with a second-best cost: what router `r` is offered is one more than the
      sender's least cost over routes that do not lead back to `r`. */
  lemma OfferIsLeastExcept(t: Table, adv: seq<AdvEntry>, r: RouterId, d: RouterId) returns (m: nat)
    requires WellFormed(t) && IsAdvertOf(t, adv)
    ensures IsLeastExcept(t, d, r, m)
    ensures LastOffer(r, adv, d) == if m + 1 < COST_INFINITY then m + 1 else COST_INFINITY
  {
    if !Lists(adv, d) {
      LastOfferUnlisted(r, adv, d);
      m := COST_INFINITY;
    } else {
      var i :| 0 <= i < |adv| && adv[i].destination == d;
      LastOfferListed(r, adv, i);
      m := AdvertisedLeast(t, d, adv[i], r);
    }
  }

  lemma AdvertisedLeast(t: Table, d: RouterId, e: AdvEntry, r: RouterId) returns (m: nat)
    requires WellFormed(t) && d in t && Advertises(t[d], e)
    ensures m == if e.nextHop == r then e.otherCost else e.cost
    ensures IsLeastExcept(t, d, r, m)
    ensures Offer(r, e) == if m < COST_INFINITY then m + 1 else COST_INFINITY
  {
    hide IsBestTwo;
    var costs := t[d];
    m := if e.nextHop == r then e.otherCost else e.cost;
    var hop2 :| IsBestTwo(costs, costs.Keys, Best(e.nextHop, hop2, e.cost, e.otherCost));
    var b := Best(e.nextHop, hop2, e.cost, e.otherCost);
    assert Reaches(costs);
    BestTwoValues(costs, b);
    forall h | h != r
      ensures m <= Cost(t, d, h)
    {
      assert Cost(t, d, h) <= COST_INFINITY;
      assert h in costs && costs[h] < COST_INFINITY ==> b.cost1 <= costs[h] && (h != b.hop1 ==> b.cost2 <= costs[h]);
    }
    assert Cost(t, d, b.hop1) == b.cost1;
    assert b.cost2 < COST_INFINITY ==> Cost(t, d, b.hop2) == b.cost2;
  }

  lemma BestTwoValues(costs: map<RouterId, nat>, b: Best)
    requires Reaches(costs) && IsBestTwo(costs, costs.Keys, b)
    ensures b.hop1 in costs && costs[b.hop1] == b.cost1 < COST_INFINITY
    ensures b.cost2 <= COST_INFINITY
    ensures b.cost2 < COST_INFINITY ==> b.hop2 in costs && costs[b.hop2] == b.cost2 && b.hop2 != b.hop1
    ensures forall h :: h in costs && costs[h] < COST_INFINITY ==> b.cost1 <= costs[h] && (h != b.hop1 ==> b.cost2 <= costs[h])
  {
    var any :| any in costs && costs[any] < COST_INFINITY;
    assert Live(costs, any);
    forall h | h in costs && costs[h] < COST_INFINITY
      ensures b.cost1 <= costs[h] && (h != b.hop1 ==> b.cost2 <= costs[h])
    {
      assert Live(costs, h);
      assert h != b.hop1 ==> h in costs.Keys - {b.hop1};
    }
  }

  lemma {:induction false} LastOfferUnlisted(self: RouterId, adv: seq<AdvEntry>, d: RouterId)
    requires !Lists(adv, d)
    ensures LastOffer(self, adv, d) == COST_INFINITY
  {
    if adv != [] {
      var rest, e := adv[..|adv| - 1], adv[|adv| - 1];
      assert rest + [e] == adv;
      ListsAppend(rest, e);
      LastOfferUnlisted(self, rest, d);
    }
  }

  lemma {:induction false} LastOfferListed(self: RouterId, adv: seq<AdvEntry>, i: nat)
    requires i < |adv| && DistinctDestinations(adv)
    ensures LastOffer(self, adv, adv[i].destination)
            == if Offer(self, adv[i]) < COST_INFINITY then Offer(self, adv[i]) else COST_INFINITY
  {
    var rest := adv[..|adv| - 1];
    if i == |adv| - 1 {
      LastOfferUnlisted(self, rest, adv[i].destination);
    } else {
      LastOfferListed(self, rest, i);
    }
  }

  lemma {:induction false} LeastExists(costs: map<RouterId, nat>, among: set<RouterId>) returns (c: nat, h: RouterId)
    ensures IsLeast(costs, among, c, h)
    decreases among
  {
    if among == {} {
      c, h := COST_INFINITY, 0;
    } else {
      var x :| x in among;
      c, h := LeastExists(costs, among - {x});
      assert forall y :: y in among <==> y == x || y in among - {x};
      if Live(costs, x) && (c == COST_INFINITY || Before(costs[x], x, c, h)) {
        c, h := costs[x], x;
      }
    }
  }

  /** Every table can be advertised. */
  lemma AdvertExists(t: Table) returns (adv: seq<AdvEntry>)
    ensures IsAdvertOf(t, adv)
  {
    adv := AdvertOver(t, t.Keys);
  }

  lemma {:induction false} AdvertOver(t: Table, dests: set<RouterId>) returns (adv: seq<AdvEntry>)
    requires dests <= t.Keys
    ensures DistinctDestinations(adv) && forall d :: Lists(adv, d) <==> d in dests
    ensures forall i :: 0 <= i < |adv| && adv[i].destination in t ==> Advertises(t[adv[i].destination], adv[i])
    decreases dests
  {
    hide Advertises, IsLeast;
    if dests == {} {
      adv := [];
    } else {
      var d :| d in dests;
      var rest := AdvertOver(t, dests - {d});
      var c1, h1 := LeastExists(t[d], t[d].Keys);
      var c2, h2 := LeastExists(t[d], t[d].Keys - {h1});
      var e := AdvEntry(d, h1, c1, c2);
      assert Advertises(t[d], e) by { BestTwoAdvertised(t[d], e, h2); }
      ListsAppend(rest, e);
      assert forall i :: 0 <= i < |rest| ==> Lists(rest, rest[i].destination);
      adv := rest + [e];
    }
  }

  lemma BestTwoAdvertised(costs: map<RouterId, nat>, e: AdvEntry, hop2: RouterId)
    requires IsLeast(costs, costs.Keys, e.cost, e.nextHop) && IsLeast(costs, costs.Keys - {e.nextHop}, e.otherCost, hop2)
    ensures Advertises(costs, e)
  {
    assert IsBestTwo(costs, costs.Keys, Best(e.nextHop, hop2, e.cost, e.otherCost));
  }

  // ----- Rounds -----

  type Net = map<RouterId, Table>

  /** Router `r` holds its own route at cost 0 and otherwise only routes through neighbours, at
      a cost of at least 1. Nothing is said about whether these costs are right. */
  ghost predicate TableOk(g: Graph, r: RouterId, t: Table) {
    && WellFormed(t)
    && Cost(t, r, r) == 0
    && (forall d :: d != r ==> Cost(t, d, r) == COST_INFINITY)
    && (forall d, h :: h != r && Cost(t, d, h) < COST_INFINITY ==> Link(g, r, h) && Cost(t, d, h) >= 1)
  }

  ghost predicate NetOk(g: Graph, net: Net) {
    net.Keys == g.nodes && forall r :: r in g.nodes ==> TableOk(g, r, net[r])
  }

  ghost predicate IsOrder(g: Graph, r: RouterId, order: seq<RouterId>) {
    && (forall i, j :: 0 <= i < j < |order| ==> order[i] != order[j])
    && (forall n :: n in order <==> Link(g, r, n))
  }

  function ProcessAll(t: Table, self: RouterId, order: seq<RouterId>, advs: map<RouterId, seq<AdvEntry>>): Table
    requires forall n :: n in order ==> n in advs
  {
    if order == [] then t
    else
      var n := order[|order| - 1];
      Updated(ProcessAll(t, self, order[..|order| - 1], advs), self, n, advs[n])
  }

  /** Every router processes one advertisement of each neighbour, made from the tables before the
      round, in an order of its own. */
  ghost predicate RoundBy(g: Graph, net: Net, net': Net, advs: map<RouterId, seq<AdvEntry>>, orders: map<RouterId, seq<RouterId>>)
    requires ValidGraph(g) && net.Keys == g.nodes
  {
    && net'.Keys == advs.Keys == orders.Keys == g.nodes
    && (forall r :: r in g.nodes ==> IsAdvertOf(net[r], advs[r]) && IsOrder(g, r, orders[r]))
    && (forall r :: r in g.nodes ==> net'[r] == ProcessAll(net[r], r, orders[r], advs))
  }

  ghost predicate IsRound(g: Graph, net: Net, net': Net)
    requires ValidGraph(g) && net.Keys == g.nodes
  {
    exists advs, orders :: RoundBy(g, net, net', advs, orders)
  }

  /** A round can be taken from every state of the network. */
  lemma RoundExists(g: Graph, net: Net) returns (net': Net)
    requires ValidGraph(g) && net.Keys == g.nodes
    ensures IsRound(g, net, net')
  {
    hide IsAdvertOf, IsOrder, ProcessAll;
    forall r | r in g.nodes ensures exists adv :: IsAdvertOf(net[r], adv) { var adv := AdvertExists(net[r]); }
    forall r | r in g.nodes ensures exists order :: IsOrder(g, r, order) { var order := OrderExists(g, r); }
    var advs: map<RouterId, seq<AdvEntry>> := map r | r in g.nodes :: var adv :| IsAdvertOf(net[r], adv); adv;
    var orders: map<RouterId, seq<RouterId>> := map r | r in g.nodes :: var order :| IsOrder(g, r, order); order;
    forall r, n | r in g.nodes && n in orders[r] ensures n in advs { OrderInGraph(g, r, orders[r]); }
    net' := map r | r in g.nodes :: ProcessAll(net[r], r, orders[r], advs);
    assert RoundBy(g, net, net', advs, orders);
  }

  lemma OrderInGraph(g: Graph, r: RouterId, order: seq<RouterId>)
    requires ValidGraph(g) && IsOrder(g, r, order)
    ensures forall n :: n in order ==> n in g.nodes
  {
  }

  lemma OrderExists(g: Graph, r: RouterId) returns (order: seq<RouterId>)
    requires ValidGraph(g)
    ensures IsOrder(g, r, order)
  {
    order := Enumerate(set n | n in g.nodes && Link(g, r, n));
  }

  lemma {:induction false} Enumerate(s: set<RouterId>) returns (order: seq<RouterId>)
    ensures forall i, j :: 0 <= i < j < |order| ==> order[i] != order[j]
    ensures forall n :: n in order <==> n in s
    decreases s
  {
    if s == {} {
      order := [];
    } else {
      var n :| n in s;
      order := Enumerate(s - {n}) ;
      assert forall i :: 0 <= i < |order| ==> order[i] in order;
      order := order + [n];
    }
  }

  lemma {:induction false} ProcessAllCosts(t: Table, self: RouterId, order: seq<RouterId>, advs: map<RouterId, seq<AdvEntry>>)
    requires forall n :: n in order ==> n in advs
    requires forall i, j :: 0 <= i < j < |order| ==> order[i] != order[j]
    requires WellFormed(t)
    ensures WellFormed(ProcessAll(t, self, order, advs))
    ensures forall d, h :: Cost(ProcessAll(t, self, order, advs), d, h)
                           == if h in order then LastOffer(self, advs[h], d) else Cost(t, d, h)
  {
    if order != [] {
      var rest, n := order[..|order| - 1], order[|order| - 1];
      assert order == rest + [n];
      ProcessAllCosts(t, self, rest, advs);
      UpdatedCosts(ProcessAll(t, self, rest, advs), self, n, advs[n]);
    }
  }

  /** The new cost through a neighbour is one more than its least cost that avoids us. */
  lemma RoundCost(g: Graph, net: Net, net': Net, r: RouterId, d: RouterId, h: RouterId) returns (m: nat)
    requires ValidGraph(g) && NetOk(g, net) && IsRound(g, net, net') && r in g.nodes
    ensures net'.Keys == g.nodes && WellFormed(net'[r])
    ensures !Link(g, r, h) ==> Cost(net'[r], d, h) == Cost(net[r], d, h)
    ensures Link(g, r, h) ==> h in net && IsLeastExcept(net[h], d, r, m)
    ensures Link(g, r, h) ==> Cost(net'[r], d, h) == if m + 1 < COST_INFINITY then m + 1 else COST_INFINITY
  {
    hide IsLeastExcept, RoundBy, TableOk, WellFormed, Cost;
    var advs, orders :| RoundBy(g, net, net', advs, orders);
    m := RoundByCost(g, net, net', advs, orders, r, d, h);
  }

  lemma RoundByCost(g: Graph, net: Net, net': Net, advs: map<RouterId, seq<AdvEntry>>, orders: map<RouterId, seq<RouterId>>,
                    r: RouterId, d: RouterId, h: RouterId) returns (m: nat)
    requires ValidGraph(g) && NetOk(g, net) && RoundBy(g, net, net', advs, orders) && r in g.nodes
    ensures net'.Keys == g.nodes && WellFormed(net'[r])
    ensures !Link(g, r, h) ==> Cost(net'[r], d, h) == Cost(net[r], d, h)
    ensures Link(g, r, h) ==> h in net && IsLeastExcept(net[h], d, r, m)
    ensures Link(g, r, h) ==> Cost(net'[r], d, h) == if m + 1 < COST_INFINITY then m + 1 else COST_INFINITY
  {
    hide IsAdvertOf, WellFormed, IsLeastExcept, Cost, LastOffer, ProcessAll, RoundBy, TableOk;
    RoundParts(g, net, net', advs, orders, r);
    NetTable(g, net, r);
    TableFormed(g, r, net[r]);
    ProcessAllCosts(net[r], r, orders[r], advs);
    m := 0;
    if Link(g, r, h) {
      NetTable(g, net, h);
      TableFormed(g, h, net[h]);
      m := OfferIsLeastExcept(net[h], advs[h], r, d);
    }
  }

  lemma RoundParts(g: Graph, net: Net, net': Net, advs: map<RouterId, seq<AdvEntry>>, orders: map<RouterId, seq<RouterId>>, r: RouterId)
    requires ValidGraph(g) && net.Keys == g.nodes && RoundBy(g, net, net', advs, orders) && r in g.nodes
    ensures net'.Keys == advs.Keys == orders.Keys == g.nodes && IsOrder(g, r, orders[r])
    ensures forall n :: n in orders[r] ==> n in advs
    ensures net'[r] == ProcessAll(net[r], r, orders[r], advs)
    ensures forall n :: n in g.nodes ==> IsAdvertOf(net[n], advs[n])
  {
    hide IsAdvertOf, ProcessAll;
  }

  lemma TableFormed(g: Graph, r: RouterId, t: Table)
    requires TableOk(g, r, t)
    ensures WellFormed(t)
  {
  }

  lemma RoundKeepsNetOk(g: Graph, net: Net, net': Net)
    requires ValidGraph(g) && NetOk(g, net) && IsRound(g, net, net')
    ensures NetOk(g, net')
  {
    assert net'.Keys == g.nodes by {
      var advs, orders :| RoundBy(g, net, net', advs, orders);
    }
    hide IsRound, TableOk;
    forall r | r in g.nodes
      ensures TableOk(g, r, net'[r])
    {
      RoundKeepsTableOk(g, net, net', r);
    }
  }

  lemma RoundKeepsTableOk(g: Graph, net: Net, net': Net, r: RouterId)
    requires ValidGraph(g) && NetOk(g, net) && IsRound(g, net, net') && r in g.nodes
    ensures net'.Keys == g.nodes && TableOk(g, r, net'[r])
  {
    hide IsRound, IsLeastExcept, WellFormed, NetOk, Cost;
    var m := RoundCost(g, net, net', r, r, r);
    assert TableOk(g, r, net[r]) by { NetTable(g, net, r); }
    forall d
      ensures Cost(net'[r], d, r) == Cost(net[r], d, r)
    {
      var m := RoundCost(g, net, net', r, d, r);
    }
    forall d, h | h != r && Cost(net'[r], d, h) < COST_INFINITY
      ensures Link(g, r, h) && Cost(net'[r], d, h) >= 1
    {
      var m := RoundCost(g, net, net', r, d, h);
    }
  }

  lemma NetTable(g: Graph, net: Net, r: RouterId)
    requires NetOk(g, net) && r in g.nodes
    ensures r in net && TableOk(g, r, net[r])
  {
  }

  // ----- Exactness -----

  ghost predicate ExactAt(g: Graph, net: Net, r: RouterId, d: RouterId, h: RouterId, c: nat)
    requires r in net
  {
    Cost(net[r], d, h) == c <==> ShortestWalk(g, r, h, d, c)
  }

  /** Below `k`, stored costs are the lengths of shortest walks without U-turns, and every such
      length is stored. */
  ghost predicate ExactBelow(g: Graph, net: Net, k: nat)
    requires net.Keys == g.nodes
  {
    forall r, d, h, c: nat :: r in g.nodes && c < k && c < COST_INFINITY ==> ExactAt(g, net, r, d, h, c)
  }

  /** A network in any state is exact at cost 0. */
  lemma ExactAtStart(g: Graph, net: Net)
    requires ValidGraph(g) && NetOk(g, net)
    ensures ExactBelow(g, net, 1)
  {
    forall r, d, h | r in g.nodes
      ensures ExactAt(g, net, r, d, h, 0)
    {
      WalkZero(g, r, h, d);
    }
  }

  /** One round extends exactness by one hop. */
  lemma RoundExtendsExactness(g: Graph, net: Net, net': Net, k: nat)
    requires ValidGraph(g) && NetOk(g, net) && IsRound(g, net, net')
    requires ExactBelow(g, net, k)
    ensures net'.Keys == g.nodes && ExactBelow(g, net', k + 1)
  {
    RoundKeepsNetOk(g, net, net');
    ExactAtStart(g, net');
    forall r, d, h, c: nat | r in g.nodes && c < k + 1 && c < COST_INFINITY
      ensures ExactAt(g, net', r, d, h, c)
    {
      if c > 0 {
        RoundExactAt(g, net, net', k, r, d, h, c);
      }
    }
  }

  lemma RoundExactAt(g: Graph, net: Net, net': Net, k: nat, r: RouterId, d: RouterId, h: RouterId, c: nat)
    requires ValidGraph(g) && NetOk(g, net) && IsRound(g, net, net')
    requires ExactBelow(g, net, k) && r in g.nodes && 0 < c < k + 1 && c < COST_INFINITY
    ensures ExactAt(g, net', r, d, h, c)
  {
    hide IsRound, IsLeastExcept, WellFormed, HasWalk, HasWalkAvoiding, ExactBelow;
    var m := RoundCost(g, net, net', r, d, h);
    WalkStep(g, r, h, d, c);
    if Link(g, r, h) {
      LeastIsShortest(g, net, k, r, d, h, m, c - 1);
      ShortestStep(g, r, h, d, c);
    }
  }

  /** The shortest walk from `h` to `d` that does not set out towards `r` has length `c`. */
  ghost predicate ShortestAvoiding(g: Graph, r: RouterId, h: RouterId, d: RouterId, c: nat) {
    HasWalkAvoiding(g, r, h, d, c) && forall l: nat :: l < c ==> !HasWalkAvoiding(g, r, h, d, l)
  }

  lemma ShortestStep(g: Graph, r: RouterId, h: RouterId, d: RouterId, c: nat)
    requires ValidGraph(g) && Link(g, r, h) && c > 0
    ensures ShortestWalk(g, r, h, d, c) <==> ShortestAvoiding(g, r, h, d, c - 1)
  {
    hide HasWalk, HasWalkAvoiding;
    WalkZero(g, r, h, d);
    forall l: nat
      ensures HasWalk(g, r, h, d, l + 1) <==> HasWalkAvoiding(g, r, h, d, l)
    {
      WalkStep(g, r, h, d, l + 1);
    }
    if ShortestAvoiding(g, r, h, d, c - 1) {
      forall l: nat | l < c ensures !HasWalk(g, r, h, d, l) {
        if l > 0 { assert HasWalk(g, r, h, d, l - 1 + 1) <==> HasWalkAvoiding(g, r, h, d, l - 1); }
      }
    }
    if ShortestWalk(g, r, h, d, c) {
      forall l: nat | l < c - 1 ensures !HasWalkAvoiding(g, r, h, d, l) {
        assert HasWalk(g, r, h, d, l + 1) <==> HasWalkAvoiding(g, r, h, d, l);
      }
    }
  }

  lemma LeastIsShortest(g: Graph, net: Net, k: nat, r: RouterId, d: RouterId, h: RouterId, m: nat, c: nat)
    requires ValidGraph(g) && NetOk(g, net) && ExactBelow(g, net, k)
    requires Link(g, r, h) && IsLeastExcept(net[h], d, r, m) && c < k && c < COST_INFINITY
    ensures m == c <==> ShortestAvoiding(g, r, h, d, c)
  {
    hide HasWalkAvoiding, NetOk, ExactBelow;
    if m <= c {
      LeastHasWalk(g, net, k, r, d, h, m);
    }
    forall l: nat | l <= c && HasWalkAvoiding(g, r, h, d, l)
      ensures m <= l
    {
      LeastBoundsWalk(g, net, k, r, d, h, m, l);
    }
  }

  lemma LeastHasWalk(g: Graph, net: Net, k: nat, r: RouterId, d: RouterId, h: RouterId, m: nat)
    requires ValidGraph(g) && NetOk(g, net) && ExactBelow(g, net, k)
    requires Link(g, r, h) && IsLeastExcept(net[h], d, r, m) && m < k && m < COST_INFINITY
    ensures HasWalkAvoiding(g, r, h, d, m)
  {
    hide HasWalk, TableOk, Cost;
    var next :| next != r && Cost(net[h], d, next) == m;
    assert ExactAt(g, net, h, d, next, m);
  }

  lemma LeastBoundsWalk(g: Graph, net: Net, k: nat, r: RouterId, d: RouterId, h: RouterId, m: nat, l: nat)
    requires ValidGraph(g) && NetOk(g, net) && ExactBelow(g, net, k)
    requires Link(g, r, h) && IsLeastExcept(net[h], d, r, m) && l < k && l < COST_INFINITY
    requires HasWalkAvoiding(g, r, h, d, l)
    ensures m <= l
  {
    hide HasWalk, TableOk, Cost;
    var x :| x != r && HasWalk(g, h, x, d, l);
    var s := SomeShortest(g, h, x, d, l);
    assert ExactAt(g, net, h, d, x, s);
  }

  lemma {:induction false} SomeShortest(g: Graph, src: RouterId, hop: RouterId, dst: RouterId, len: nat) returns (s: nat)
    requires HasWalk(g, src, hop, dst, len)
    ensures s <= len && ShortestWalk(g, src, hop, dst, s)
    decreases len
  {
    if l: nat :| l < len && HasWalk(g, src, hop, dst, l) {
      s := SomeShortest(g, src, hop, dst, l);
    } else {
      s := len;
    }
  }

  // ----- Convergence -----

  /** A run of rounds on a fixed graph. */
  ghost predicate IsRun(g: Graph, nets: seq<Net>) {
    && ValidGraph(g) && |nets| > 0 && NetOk(g, nets[0])
    && (forall i :: 0 <= i < |nets| ==> nets[i].Keys == g.nodes)
    && (forall i :: 0 <= i < |nets| - 1 ==> IsRound(g, nets[i], nets[i + 1]))
  }

  lemma {:induction false} RunIsExact(g: Graph, nets: seq<Net>, k: nat)
    requires IsRun(g, nets) && k < |nets|
    ensures NetOk(g, nets[k]) && ExactBelow(g, nets[k], k + 1)
  {
    if k == 0 {
      ExactAtStart(g, nets[0]);
    } else {
      RunIsExact(g, nets, k - 1);
      assert IsRound(g, nets[k - 1], nets[k - 1 + 1]);
      RoundKeepsNetOk(g, nets[k - 1], nets[k]);
      RoundExtendsExactness(g, nets[k - 1], nets[k], k);
    }
  }

  ghost predicate Converged(g: Graph, net: Net) {
    ValidGraph(g) && NetOk(g, net) && ExactBelow(g, net, COST_INFINITY)
  }

  /** Whatever the tables held before, fifteen rounds after the topology settles every stored cost
      is the length of a shortest walk without U-turns, and every such walk of length at most 15
      is stored. Stale routes counting up to infinity are gone by then. */
  lemma SelfStabilises(g: Graph, nets: seq<Net>, k: nat)
    requires IsRun(g, nets) && 15 <= k < |nets|
    ensures Converged(g, nets[k])
  {
    RunIsExact(g, nets, k);
  }

  ghost predicate HasPath(g: Graph, src: RouterId, dst: RouterId, len: nat) {
    exists w :: IsPath(g, w, src, dst, len)
  }

  ghost predicate IsPath(g: Graph, w: seq<RouterId>, src: RouterId, dst: RouterId, len: nat) {
    IsWalk(g, w) && |w| == len + 1 && w[0] == src && w[len] == dst
  }

  /** Hop distance in the graph. */
  ghost predicate IsDistance(g: Graph, src: RouterId, dst: RouterId, len: nat) {
    HasPath(g, src, dst, len) && forall l: nat :: l < len ==> !HasPath(g, src, dst, l)
  }

  lemma {:induction false} SomeDistance(g: Graph, src: RouterId, dst: RouterId, len: nat) returns (s: nat)
    requires HasPath(g, src, dst, len)
    ensures s <= len && IsDistance(g, src, dst, s)
    decreases len
  {
    if l: nat :| l < len && HasPath(g, src, dst, l) {
      s := SomeDistance(g, src, dst, l);
    } else {
      s := len;
    }
  }

  lemma WalkIsPath(g: Graph, src: RouterId, hop: RouterId, dst: RouterId, len: nat)
    requires HasWalk(g, src, hop, dst, len)
    ensures HasPath(g, src, dst, len)
  {
    var w :| Leads(g, w, src, hop, dst, len);
    assert IsPath(g, w, src, dst, len);
  }

  /** A shortest path never turns straight back. */
  lemma DistanceIsWalk(g: Graph, src: RouterId, dst: RouterId, len: nat) returns (hop: RouterId)
    requires IsDistance(g, src, dst, len)
    ensures ShortestWalk(g, src, hop, dst, len)
  {
    var w :| IsPath(g, w, src, dst, len);
    if i :| 0 <= i < |w| - 2 && w[i] == w[i + 2] {
      CutUTurn(g, w, src, dst, len, i);
      assert false;
    }
    hop := FirstHop(w);
    assert Leads(g, w, src, hop, dst, len);
    forall l: nat | l < len ensures !HasWalk(g, src, hop, dst, l) {
      if HasWalk(g, src, hop, dst, l) { WalkIsPath(g, src, hop, dst, l); }
    }
  }

  lemma CutUTurn(g: Graph, w: seq<RouterId>, src: RouterId, dst: RouterId, len: nat, i: nat)
    requires IsPath(g, w, src, dst, len) && i < |w| - 2 && w[i] == w[i + 2]
    ensures len >= 2 && HasPath(g, src, dst, len - 2)
  {
    var v := w[..i] + w[i + 2..];
    forall j | 0 <= j < |v| - 1 ensures Link(g, v[j], v[j + 1]) {
      if j < i { assert Link(g, w[j], w[j + 1]); } else { assert Link(g, w[j + 2], w[j + 3]); }
    }
    assert IsPath(g, v, src, dst, len - 2);
  }

  /** In a network exact below `k`, the best cost of an entry is the hop distance. */
  lemma BestIsDistance(g: Graph, net: Net, k: nat, r: RouterId, d: RouterId, c: nat)
    requires ValidGraph(g) && NetOk(g, net) && ExactBelow(g, net, k)
    requires r in g.nodes && c < k && c < COST_INFINITY
    ensures IsDistance(g, r, d, c) ==> d in net[r] && forall b :: IsBestTwo(net[r][d], net[r][d].Keys, b) ==> b.cost1 == c
    ensures (exists h :: Cost(net[r], d, h) == c) ==> exists s: nat :: s <= c && IsDistance(g, r, d, s)
  {
    if IsDistance(g, r, d, c) {
      var hop := DistanceIsWalk(g, r, d, c);
      assert ExactAt(g, net, r, d, hop, c);
      assert Live(net[r][d], hop);
      forall b | IsBestTwo(net[r][d], net[r][d].Keys, b)
        ensures b.cost1 == c
      {
        assert Cost(net[r], d, b.hop1) == b.cost1 <= c;
        assert ExactAt(g, net, r, d, b.hop1, b.cost1);
        WalkIsPath(g, r, b.hop1, d, b.cost1);
      }
    }
    if h :| Cost(net[r], d, h) == c {
      assert ExactAt(g, net, r, d, h, c);
      WalkIsPath(g, r, h, d, c);
      var s := SomeDistance(g, r, d, c);
    }
  }

  /** A converged router lists exactly the destinations at distance at most 15, each with its true
      distance as best cost. */
  lemma ConvergedDistances(g: Graph, net: Net, r: RouterId, d: RouterId)
    requires Converged(g, net) && r in g.nodes
    ensures d in net[r] <==> exists c: nat :: c <= 15 && IsDistance(g, r, d, c)
    ensures forall c: nat, b :: c <= 15 && d in net[r] && IsBestTwo(net[r][d], net[r][d].Keys, b) ==>
      (b.cost1 == c <==> IsDistance(g, r, d, c))
  {
    if d in net[r] {
      assert Reaches(net[r][d]);
      var h :| h in net[r][d] && net[r][d][h] < COST_INFINITY;
      BestIsDistance(g, net, COST_INFINITY, r, d, Cost(net[r], d, h));
    }
    forall c: nat | c < COST_INFINITY && IsDistance(g, r, d, c)
      ensures d in net[r] && forall b :: IsBestTwo(net[r][d], net[r][d].Keys, b) ==> b.cost1 == c
    {
      BestIsDistance(g, net, COST_INFINITY, r, d, c);
    }
  }

  // ----- Starting from scratch -----

  function BootTable(r: RouterId): Table {
    map[r := map[r := 0]]
  }

  function BootNet(g: Graph): Net {
    map r | r in g.nodes :: BootTable(r)
  }

  ghost predicate CostsUpTo(g: Graph, net: Net, k: nat)
    requires net.Keys == g.nodes
  {
    forall r, d, h :: r in g.nodes && Cost(net[r], d, h) < COST_INFINITY ==> Cost(net[r], d, h) <= k
  }

  lemma BootOk(g: Graph)
    requires ValidGraph(g)
    ensures NetOk(g, BootNet(g)) && CostsUpTo(g, BootNet(g), 0)
  {
    forall r | r in g.nodes
      ensures TableOk(g, r, BootNet(g)[r])
    {
      assert BootTable(r)[r][r] == 0;
    }
  }

  lemma {:induction false} BootRun(g: Graph, nets: seq<Net>, k: nat)
    requires IsRun(g, nets) && nets[0] == BootNet(g) && k < |nets|
    ensures CostsUpTo(g, nets[k], k)
  {
    hide IsRound, ExactBelow, NetOk, CostsUpTo, BootNet;
    if k == 0 {
      BootOk(g);
    } else {
      BootRun(g, nets, k - 1);
      RunIsExact(g, nets, k - 1);
      assert IsRound(g, nets[k - 1], nets[k - 1 + 1]);
      RoundCostsUpTo(g, nets[k - 1], nets[k], k - 1);
    }
  }

  lemma RoundCostsUpTo(g: Graph, net: Net, net': Net, k: nat)
    requires ValidGraph(g) && NetOk(g, net) && IsRound(g, net, net') && CostsUpTo(g, net, k)
    ensures net'.Keys == g.nodes && CostsUpTo(g, net', k + 1)
  {
    RoundKeepsNetOk(g, net, net');
    hide IsRound, WellFormed;
    forall r, d, h | r in g.nodes && Cost(net'[r], d, h) < COST_INFINITY
      ensures Cost(net'[r], d, h) <= k + 1
    {
      var m := RoundCost(g, net, net', r, d, h);
    }
  }

  /** After k rounds from scratch a router knows exactly the destinations within min(k, 15) hops,
      at their true distance. */
  lemma ConvergesFromBoot(g: Graph, nets: seq<Net>, k: nat, r: RouterId, d: RouterId)
    requires IsRun(g, nets) && nets[0] == BootNet(g) && k < |nets| && r in g.nodes
    ensures d in nets[k][r] <==> exists c: nat :: c <= k && c <= 15 && IsDistance(g, r, d, c)
    ensures forall c: nat, b :: c <= 15 && d in nets[k][r] && IsBestTwo(nets[k][r][d], nets[k][r][d].Keys, b) ==>
      (b.cost1 == c <==> IsDistance(g, r, d, c))
  {
    RunIsExact(g, nets, k);
    BootRun(g, nets, k);
    var t := nets[k][r];
    if d in t {
      assert Reaches(t[d]);
      var h :| h in t[d] && t[d][h] < COST_INFINITY;
      assert Cost(t, d, h) <= k;
      BestIsDistance(g, nets[k], k + 1, r, d, Cost(t, d, h));
    }
    forall c: nat | c <= k && c < COST_INFINITY && IsDistance(g, r, d, c)
      ensures d in t && forall b :: IsBestTwo(t[d], t[d].Keys, b) ==> b.cost1 == c
    {
      BestIsDistance(g, nets[k], k + 1, r, d, c);
    }
  }

  // ----- Silence -----

  ghost predicate SameCosts(t: Table, t': Table) {
    forall d, h :: Cost(t, d, h) == Cost(t', d, h)
  }

  /** Tables with the same costs list the same destinations with the same two best hops, so a
      router that goes from one to the other has nothing new to advertise. */
  lemma SameCostsSameAdvert(t: Table, t': Table)
    requires WellFormed(t) && WellFormed(t') && SameCosts(t, t')
    ensures t.Keys == t'.Keys
    ensures forall d, b :: d in t ==> (IsBestTwo(t[d], t[d].Keys, b) <==> IsBestTwo(t'[d], t'[d].Keys, b))
  {
    hide IsBestTwo;
    SameCostsKeys(t, t');
    SameCostsKeys(t', t);
    forall d, b | d in t
      ensures IsBestTwo(t[d], t[d].Keys, b) <==> IsBestTwo(t'[d], t'[d].Keys, b)
    {
      LiveSame(t, t', d);
      LiveSame(t', t, d);
      if IsBestTwo(t[d], t[d].Keys, b) { BestTwoByLive(t[d], t'[d], b); }
      if IsBestTwo(t'[d], t'[d].Keys, b) { BestTwoByLive(t'[d], t[d], b); }
    }
  }

  lemma SameCostsKeys(t: Table, t': Table)
    requires WellFormed(t) && SameCosts(t, t')
    ensures t.Keys <= t'.Keys
  {
    forall d | d in t ensures d in t' {
      assert Reaches(t[d]);
      var h :| h in t[d] && t[d][h] < COST_INFINITY;
      assert Cost(t, d, h) == Cost(t', d, h);
    }
  }

  lemma LiveSame(t: Table, t': Table, d: RouterId)
    requires d in t && d in t' && SameCosts(t, t')
    ensures forall h :: Live(t[d], h) ==> Live(t'[d], h) && t[d][h] == t'[d][h]
  {
    forall h | Live(t[d], h)
      ensures Live(t'[d], h) && t[d][h] == t'[d][h]
    {
      assert Cost(t, d, h) == Cost(t', d, h);
    }
  }

  lemma BestTwoByLive(costs: map<RouterId, nat>, costs': map<RouterId, nat>, b: Best)
    requires forall h :: Live(costs, h) <==> Live(costs', h)
    requires forall h :: Live(costs, h) ==> h in costs' && costs[h] == costs'[h]
    requires IsBestTwo(costs, costs.Keys, b)
    ensures IsBestTwo(costs', costs'.Keys, b)
  {
    LeastByLive(costs, costs', costs.Keys, costs'.Keys, b.cost1, b.hop1);
    LeastByLive(costs, costs', costs.Keys - {b.hop1}, costs'.Keys - {b.hop1}, b.cost2, b.hop2);
  }

  lemma LeastByLive(costs: map<RouterId, nat>, costs': map<RouterId, nat>, among: set<RouterId>, among': set<RouterId>,
                    c: nat, h: RouterId)
    requires forall x :: (x in among && Live(costs, x)) <==> (x in among' && Live(costs', x))
    requires forall x :: x in among && Live(costs, x) ==> x in costs' && costs[x] == costs'[x]
    requires IsLeast(costs, among, c, h)
    ensures IsLeast(costs', among', c, h)
  {
  }

  /** No fresh advertisement changes a stored cost anywhere. */
  ghost predicate Silent(g: Graph, net: Net)
    requires ValidGraph(g) && net.Keys == g.nodes
  {
    forall r, n, adv :: Link(g, r, n) && r in net && n in net && IsAdvertOf(net[n], adv) ==> SameCosts(net[r], Updated(net[r], r, n, adv))
  }

  /** A converged network falls silent: no stored cost changes, and no further advertisement is
      triggered. */
  lemma ConvergedIsSilent(g: Graph, net: Net)
    requires Converged(g, net)
    ensures Silent(g, net)
  {
    forall r, n, adv | Link(g, r, n) && IsAdvertOf(net[n], adv)
      ensures SameCosts(net[r], Updated(net[r], r, n, adv))
    {
      UpdatedCosts(net[r], r, n, adv);
      forall d
        ensures LastOffer(r, adv, d) == Cost(net[r], d, n)
      {
        ConvergedOffer(g, net, r, n, adv, d);
      }
    }
  }

  lemma ConvergedOffer(g: Graph, net: Net, r: RouterId, n: RouterId, adv: seq<AdvEntry>, d: RouterId)
    requires Converged(g, net) && Link(g, r, n) && IsAdvertOf(net[n], adv)
    ensures LastOffer(r, adv, d) == Cost(net[r], d, n)
  {
    hide HasWalk, HasWalkAvoiding, IsAdvertOf;
    assert WellFormed(net[n]) && WellFormed(net[r]);
    var m := OfferIsLeastExcept(net[n], adv, r, d);
    var c := Cost(net[r], d, n);
    assert c <= COST_INFINITY;
    if m + 1 < COST_INFINITY {
      LeastIsShortest(g, net, COST_INFINITY, r, d, n, m, m);
      ShortestStep(g, r, n, d, m + 1);
      assert ExactAt(g, net, r, d, n, m + 1);
    } else if c < COST_INFINITY {
      assert ExactAt(g, net, r, d, n, c);
      assert c >= 1;
      ShortestStep(g, r, n, d, c);
      LeastIsShortest(g, net, COST_INFINITY, r, d, n, m, c - 1);
    }
  }

  /** And a silent network has converged: the converged state is the only one in which no stored cost
      changes. */
  lemma SilentIsConverged(g: Graph, net: Net)
    requires ValidGraph(g) && NetOk(g, net) && Silent(g, net)
    ensures Converged(g, net)
  {
    ExactAtStart(g, net);
    for k := 1 to COST_INFINITY
      invariant ExactBelow(g, net, k)
    {
      forall r, d, h, c: nat | r in g.nodes && c < k + 1 && c < COST_INFINITY
        ensures ExactAt(g, net, r, d, h, c)
      {
        if c > 0 {
          SilentExactAt(g, net, k, r, d, h, c);
        }
      }
    }
  }

  lemma SilentOffer(g: Graph, net: Net, r: RouterId, h: RouterId, adv: seq<AdvEntry>, d: RouterId)
    requires ValidGraph(g) && NetOk(g, net) && Silent(g, net) && Link(g, r, h) && IsAdvertOf(net[h], adv)
    ensures LastOffer(r, adv, d) == Cost(net[r], d, h)
  {
    hide Updated, IsAdvertOf;
    UpdatedCosts(net[r], r, h, adv);
    assert SameCosts(net[r], Updated(net[r], r, h, adv));
    assert Cost(net[r], d, h) == Cost(Updated(net[r], r, h, adv), d, h);
  }

  lemma SilentExactAt(g: Graph, net: Net, k: nat, r: RouterId, d: RouterId, h: RouterId, c: nat)
    requires ValidGraph(g) && NetOk(g, net) && Silent(g, net) && ExactBelow(g, net, k)
    requires r in g.nodes && 0 < c < k + 1 && c < COST_INFINITY
    ensures ExactAt(g, net, r, d, h, c)
  {
    hide HasWalk, HasWalkAvoiding, IsAdvertOf, ExactBelow, IsLeastExcept, Silent;
    WalkStep(g, r, h, d, c);
    if Link(g, r, h) {
      var adv := AdvertExists(net[h]);
      SilentOffer(g, net, r, h, adv, d);
      var m := OfferIsLeastExcept(net[h], adv, r, d);
      LeastIsShortest(g, net, k, r, d, h, m, c - 1);
      ShortestStep(g, r, h, d, c);
    }
  }

  // ----- Asynchronous runs -----

  /** The routers' tables and every advertisement ever published, with its sender. */
  datatype World = World(net: Net, sent: set<(RouterId, seq<AdvEntry>)>)

  datatype Event =
    | Publish(router: RouterId, adv: seq<AdvEntry>)
    | Deliver(router: RouterId, from: RouterId, adv: seq<AdvEntry>)
    | Die(router: RouterId, neighbor: RouterId)
    | Restart(router: RouterId)

  /** Advertisements may be delivered late, repeatedly or never; neighbours may be declared dead
      and routers may restart at any time. `g` holds every link that ever exists. */
  ghost predicate Step(g: Graph, w: World, e: Event, w': World)
    requires ValidGraph(g) && w.net.Keys == g.nodes
  {
    match e
    case Publish(r, adv) =>
      r in g.nodes && IsAdvertOf(w.net[r], adv) && w' == w.(sent := w.sent + {(r, adv)})
    case Deliver(r, n, adv) =>
      Link(g, r, n) && (n, adv) in w.sent && w' == w.(net := w.net[r := Updated(w.net[r], r, n, adv)])
    case Die(r, n) =>
      Link(g, r, n) && w' == w.(net := w.net[r := Removed(w.net[r], n)])
    case Restart(r) =>
      r in g.nodes && w' == w.(net := w.net[r := BootTable(r)])
  }

  /** Every finite cost is the length of a walk without U-turns through that hop. */
  ghost predicate TableSafe(g: Graph, r: RouterId, t: Table) {
    TableOk(g, r, t) && forall d, h :: Cost(t, d, h) < COST_INFINITY ==> HasWalk(g, r, h, d, Cost(t, d, h))
  }

  ghost predicate EntrySafe(g: Graph, n: RouterId, e: AdvEntry) {
    && e.cost < COST_INFINITY && HasWalk(g, n, e.nextHop, e.destination, e.cost)
    && e.otherCost <= COST_INFINITY
    && (e.otherCost < COST_INFINITY ==> HasWalkAvoiding(g, e.nextHop, n, e.destination, e.otherCost))
  }

  ghost predicate AdvertSafe(g: Graph, n: RouterId, adv: seq<AdvEntry>) {
    forall i :: 0 <= i < |adv| ==> EntrySafe(g, n, adv[i])
  }

  ghost predicate Safe(g: Graph, w: World) {
    && w.net.Keys == g.nodes
    && (forall r :: r in g.nodes ==> TableSafe(g, r, w.net[r]))
    && (forall s :: s in w.sent ==> AdvertSafe(g, s.0, s.1))
  }

  lemma BootSafe(g: Graph, r: RouterId)
    ensures TableSafe(g, r, BootTable(r))
  {
    var t := BootTable(r);
    assert t[r][r] == 0;
    forall d, h | Cost(t, d, h) < COST_INFINITY
      ensures HasWalk(g, r, h, d, Cost(t, d, h))
    {
      WalkZero(g, r, h, d);
    }
  }

  lemma PublishSafe(g: Graph, r: RouterId, t: Table, adv: seq<AdvEntry>)
    requires TableSafe(g, r, t) && IsAdvertOf(t, adv)
    ensures AdvertSafe(g, r, adv)
  {
    hide HasWalk;
    forall i | 0 <= i < |adv|
      ensures EntrySafe(g, r, adv[i])
    {
      var e := adv[i];
      assert Lists(adv, e.destination);
      assert Advertises(t[e.destination], e);
      PublishEntrySafe(g, r, t, e);
    }
  }

  lemma PublishEntrySafe(g: Graph, r: RouterId, t: Table, e: AdvEntry)
    requires TableSafe(g, r, t) && e.destination in t && Advertises(t[e.destination], e)
    ensures EntrySafe(g, r, e)
  {
    hide HasWalk, IsBestTwo;
    var d, costs := e.destination, t[e.destination];
    var hop2 :| IsBestTwo(costs, costs.Keys, Best(e.nextHop, hop2, e.cost, e.otherCost));
    assert Reaches(costs);
    BestTwoValues(costs, Best(e.nextHop, hop2, e.cost, e.otherCost));
    assert Cost(t, d, e.nextHop) == e.cost;
    if e.otherCost < COST_INFINITY {
      assert Cost(t, d, hop2) == e.otherCost;
      assert HasWalk(g, r, hop2, d, e.otherCost);
    }
  }

  /** An accepted offer is a link followed by a walk that does not come back. In particular the
      64-bit sum in the offer does not wrap. */
  lemma OfferSafe(g: Graph, r: RouterId, n: RouterId, e: AdvEntry)
    requires ValidGraph(g) && Link(g, r, n) && EntrySafe(g, n, e)
    ensures Offer(r, e) == if e.nextHop != r then e.cost + 1
                           else if e.otherCost < COST_INFINITY then e.otherCost + 1 else COST_INFINITY
    ensures Offer(r, e) < COST_INFINITY ==> HasWalk(g, r, n, e.destination, Offer(r, e))
  {
    hide HasWalk;
    if Offer(r, e) < COST_INFINITY {
      WalkStep(g, r, n, e.destination, Offer(r, e));
    }
  }

  lemma {:induction false} LastOfferSafe(g: Graph, r: RouterId, n: RouterId, adv: seq<AdvEntry>, d: RouterId)
    requires ValidGraph(g) && Link(g, r, n) && AdvertSafe(g, n, adv)
    ensures LastOffer(r, adv, d) <= COST_INFINITY && LastOffer(r, adv, d) >= 1
    ensures LastOffer(r, adv, d) < COST_INFINITY ==> HasWalk(g, r, n, d, LastOffer(r, adv, d))
  {
    if adv != [] {
      OfferSafe(g, r, n, adv[|adv| - 1]);
      LastOfferSafe(g, r, n, adv[..|adv| - 1], d);
    }
  }

  lemma DeliverSafe(g: Graph, r: RouterId, n: RouterId, t: Table, adv: seq<AdvEntry>)
    requires ValidGraph(g) && Link(g, r, n) && TableSafe(g, r, t) && AdvertSafe(g, n, adv)
    ensures TableSafe(g, r, Updated(t, r, n, adv))
  {
    hide HasWalk, AdvertSafe, Updated;
    UpdatedCosts(t, r, n, adv);
    forall d
      ensures LastOffer(r, adv, d) <= COST_INFINITY && LastOffer(r, adv, d) >= 1
      ensures LastOffer(r, adv, d) < COST_INFINITY ==> HasWalk(g, r, n, d, LastOffer(r, adv, d))
    {
      LastOfferSafe(g, r, n, adv, d);
    }
  }

  lemma DieSafe(g: Graph, r: RouterId, n: RouterId, t: Table)
    requires ValidGraph(g) && Link(g, r, n) && TableSafe(g, r, t)
    ensures TableSafe(g, r, Removed(t, n))
  {
    hide HasWalk, Removed;
    RemovedCosts(t, n);
  }

  /** Every step keeps the world safe. */
  lemma StepSafe(g: Graph, w: World, e: Event, w': World)
    requires ValidGraph(g) && Safe(g, w) && Step(g, w, e, w')
    ensures Safe(g, w')
  {
    hide TableSafe, AdvertSafe;
    match e
    case Publish(r, adv) => PublishSafe(g, r, w.net[r], adv);
    case Deliver(r, n, adv) => DeliverSafe(g, r, n, w.net[r], adv);
    case Die(r, n) => DieSafe(g, r, n, w.net[r]);
    case Restart(r) => BootSafe(g, r);
  }

  /** The world after checkDeadNeighbors at one router. */
  function WithoutDead(w: World, r: RouterId, dead: seq<RouterId>): World
    requires r in w.net
  {
    w.(net := w.net[r := RemovedAll(w.net[r], dead)])
  }

  /** It gets there by a series of deaths, one neighbour at a time. */
  lemma DeadAreDeaths(g: Graph, w: World, r: RouterId, dead: seq<RouterId>, i: nat)
    requires ValidGraph(g) && w.net.Keys == g.nodes && i < |dead| && Link(g, r, dead[i])
    ensures WithoutDead(w, r, []) == w
    ensures Step(g, WithoutDead(w, r, dead[..i]), Die(r, dead[i]), WithoutDead(w, r, dead[..i + 1]))
  {
    hide Removed;
    assert w.net[r := w.net[r]] == w.net;
    assert dead[..i + 1][..i] == dead[..i];
    var before := WithoutDead(w, r, dead[..i]);
    assert before.net[r := Removed(before.net[r], dead[i])] == WithoutDead(w, r, dead[..i + 1]).net;
  }

  ghost predicate IsAsyncRun(g: Graph, ws: seq<World>, es: seq<Event>) {
    && ValidGraph(g) && |ws| == |es| + 1 && ws[0] == World(BootNet(g), {})
    && (forall i :: 0 <= i < |ws| ==> ws[i].net.Keys == g.nodes)
    && (forall i :: 0 <= i < |es| ==> Step(g, ws[i], es[i], ws[i + 1]))
  }

  /** Safety of every asynchronous run: each finite stored cost, through each hop, is the length
      of an actual walk that never turns straight back. */
  lemma {:induction false} AsyncSafe(g: Graph, ws: seq<World>, es: seq<Event>, k: nat)
    requires IsAsyncRun(g, ws, es) && k < |ws|
    ensures Safe(g, ws[k])
  {
    hide Safe, Step;
    if k == 0 {
      assert Safe(g, ws[0]) by { BootWorldSafe(g); }
    } else {
      AsyncSafe(g, ws, es, k - 1);
      assert Step(g, ws[k - 1], es[k - 1], ws[k - 1 + 1]);
      StepSafe(g, ws[k - 1], es[k - 1], ws[k]);
    }
  }

  lemma BootWorldSafe(g: Graph)
    ensures Safe(g, World(BootNet(g), {}))
  {
    forall r | r in g.nodes ensures TableSafe(g, r, BootNet(g)[r]) { BootSafe(g, r); }
  }

  /** Costs never undercut the true distance, and a router's own route stays at cost 0. */
  lemma NeverUndercuts(g: Graph, ws: seq<World>, es: seq<Event>, k: nat, r: RouterId, d: RouterId, h: RouterId)
    requires IsAsyncRun(g, ws, es) && k < |ws| && r in g.nodes
    ensures Cost(ws[k].net[r], r, r) == 0
    ensures Cost(ws[k].net[r], d, h) < COST_INFINITY ==>
      exists s: nat :: s <= Cost(ws[k].net[r], d, h) && IsDistance(g, r, d, s)
  {
    hide HasWalk;
    AsyncSafe(g, ws, es, k);
    var t := ws[k].net[r];
    assert TableSafe(g, r, t);
    if Cost(t, d, h) < COST_INFINITY {
      WalkIsPath(g, r, h, d, Cost(t, d, h));
      var s := SomeDistance(g, r, d, Cost(t, d, h));
    }
  }

  /** `now` is what is left of the links, and no router still uses a hop that is gone. */
  ghost predicate Settled(g: Graph, now: Graph, net: Net) {
    && ValidGraph(now) && now.nodes == g.nodes && now.links <= g.links && net.Keys == g.nodes
    && (forall r, d, h :: r in g.nodes && h != r && Cost(net[r], d, h) < COST_INFINITY ==> Link(now, r, h))
  }

  lemma SettledOk(g: Graph, ws: seq<World>, es: seq<Event>, now: Graph)
    requires IsAsyncRun(g, ws, es) && Settled(g, now, ws[|ws| - 1].net)
    ensures NetOk(now, ws[|ws| - 1].net)
  {
    hide HasWalk;
    AsyncSafe(g, ws, es, |ws| - 1);
    var net := ws[|ws| - 1].net;
    forall r | r in now.nodes ensures TableOk(now, r, net[r]) {
      assert TableSafe(g, r, net[r]);
    }
  }

  /** Recovery: after any asynchronous run, links lost and stale routes included, fifteen rounds
      on the links that are left restore exact routes for them. */
  lemma Recovers(g: Graph, ws: seq<World>, es: seq<Event>, now: Graph, nets: seq<Net>, k: nat)
    requires IsAsyncRun(g, ws, es) && Settled(g, now, ws[|ws| - 1].net)
    requires 15 <= k < |nets| && nets[0] == ws[|ws| - 1].net
    requires forall i :: 0 <= i < |nets| ==> nets[i].Keys == now.nodes
    requires forall i :: 0 <= i < |nets| - 1 ==> IsRound(now, nets[i], nets[i + 1])
    ensures Converged(now, nets[k])
  {
    hide IsRound, NetOk;
    SettledOk(g, ws, es, now);
    SelfStabilises(now, nets, k);
  }
}
