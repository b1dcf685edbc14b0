/** When the distance-vector protocol stops talking. A router publishes again exactly when handling
    an advertisement raised its dirty flag, which is when an entry appeared, vanished or has new best
    hops. A network in which no flag can be raised may still hold wrong costs, but never among the two
    best of an entry. */
module DvQuiet {
  import opened DvRib
  import opened DvNetwork

  // ----- The two best, by costs -----

  ghost predicate BestOf(t: Table, d: RouterId, b: Best) {
    IsBestTwo(CostsOf(t, d), CostsOf(t, d).Keys, b)
  }

  /** (cost, hop) is the least finite pair among the hops other than `except`, which may be none. */
  ghost predicate LeastBy(t: Table, d: RouterId, except: set<RouterId>, cost: nat, hop: RouterId) {
    if cost < COST_INFINITY then
      && hop !in except && Cost(t, d, hop) == cost
      && forall h :: h !in except && h != hop && Cost(t, d, h) < COST_INFINITY ==> Before(cost, hop, Cost(t, d, h), h)
    else
      cost == COST_INFINITY && hop == 0 && forall h :: h !in except ==> Cost(t, d, h) >= COST_INFINITY
  }

  lemma LeastMeans(t: Table, d: RouterId, except: set<RouterId>, cost: nat, hop: RouterId)
    ensures IsLeast(CostsOf(t, d), CostsOf(t, d).Keys - except, cost, hop) <==> LeastBy(t, d, except, cost, hop)
  {
    var costs := CostsOf(t, d);
    assert forall h :: Live(costs, h) <==> Cost(t, d, h) < COST_INFINITY;
    assert forall h :: h in costs.Keys - except && Live(costs, h) <==> h !in except && Cost(t, d, h) < COST_INFINITY;
  }

  lemma BestMeans(t: Table, d: RouterId, b: Best)
    ensures BestOf(t, d, b) <==> LeastBy(t, d, {}, b.cost1, b.hop1) && LeastBy(t, d, {b.hop1}, b.cost2, b.hop2)
  {
    hide LeastBy, IsLeast;
    LeastMeans(t, d, {}, b.cost1, b.hop1);
    LeastMeans(t, d, {b.hop1}, b.cost2, b.hop2);
    assert CostsOf(t, d).Keys - {} == CostsOf(t, d).Keys;
  }

  lemma BestExists(t: Table, d: RouterId) returns (b: Best)
    ensures BestOf(t, d, b)
  {
    var costs := CostsOf(t, d);
    var c1, h1 := LeastExists(costs, costs.Keys);
    var c2, h2 := LeastExists(costs, costs.Keys - {h1});
    b := Best(h1, h2, c1, c2);
  }

  lemma BestByCost(t: Table, t': Table, d: RouterId, b: Best)
    requires forall h :: Cost(t, d, h) == Cost(t', d, h)
    ensures BestOf(t, d, b) <==> BestOf(t', d, b)
  {
    BestMeans(t, d, b);
    BestMeans(t', d, b);
  }

  /** Replacing one cost by that of a table with the same two best leaves them as they are. */
  lemma MixKeeps(s: Table, e: Table, m: Table, d: RouterId, n: RouterId, b: Best)
    requires BestOf(s, d, b) && BestOf(e, d, b)
    requires forall h :: Cost(m, d, h) == if h == n then Cost(e, d, h) else Cost(s, d, h)
    ensures BestOf(m, d, b)
  {
    BestMeans(s, d, b);
    BestMeans(e, d, b);
    BestMeans(m, d, b);
  }

  /** If replacing any one cost leaves the two best as they are, so does replacing all of them. */
  lemma MixAll(s: Table, e: Table, d: RouterId, b: Best)
    requires BestOf(s, d, b) && forall h :: BestOf(WithCost(s, d, h, Cost(e, d, h)), d, b)
    ensures BestOf(e, d, b)
  {
    hide BestOf, WithCost, Cost;
    BestMeans(s, d, b);
    forall h
      ensures Cost(e, d, h) < COST_INFINITY ==> b.cost1 < COST_INFINITY && (h != b.hop1 ==>
        b.cost2 < COST_INFINITY && Before(b.cost1, b.hop1, Cost(e, d, h), h) && (h != b.hop2 ==> Before(b.cost2, b.hop2, Cost(e, d, h), h)))
    {
      assert BestOf(WithCost(s, d, h, Cost(e, d, h)), d, b);
      MixOne(s, e, d, b, h);
    }
    MixOne(s, e, d, b, b.hop1);
    MixOne(s, e, d, b, b.hop2);
    BestMeans(e, d, b);
  }

  /** What the replacement of one cost shows: a best hop has the same cost in both, any other is no
      better than the second best. */
  ghost predicate MixedAt(s: Table, e: Table, d: RouterId, b: Best, h: RouterId) {
    && (b.cost1 < COST_INFINITY && h == b.hop1 ==> Cost(e, d, h) == Cost(s, d, h))
    && (b.cost2 < COST_INFINITY && h == b.hop2 ==> Cost(e, d, h) == Cost(s, d, h))
    && (!(b.cost1 < COST_INFINITY && h == b.hop1) && !(b.cost2 < COST_INFINITY && h == b.hop2) && Cost(e, d, h) < COST_INFINITY ==>
      b.cost2 < COST_INFINITY && Before(b.cost1, b.hop1, Cost(e, d, h), h) && Before(b.cost2, b.hop2, Cost(e, d, h), h))
  }

  lemma MixOne(s: Table, e: Table, d: RouterId, b: Best, h: RouterId)
    requires BestOf(s, d, b) && BestOf(WithCost(s, d, h, Cost(e, d, h)), d, b)
    ensures MixedAt(s, e, d, b, h)
  {
    hide BestOf, WithCost, Cost;
    var m := WithCost(s, d, h, Cost(e, d, h));
    WithCostCosts(s, d, h, Cost(e, d, h));
    BestMeans(s, d, b);
    BestMeans(m, d, b);
    assert Cost(m, d, h) == Cost(e, d, h);
  }

  // ----- The same two best everywhere -----

  /** The two tables would be advertised alike. */
  ghost predicate SameBest(t: Table, t': Table) {
    forall d, b :: BestOf(t, d, b) <==> BestOf(t', d, b)
  }

  ghost predicate ShareBest(t: Table, t': Table, d: RouterId) {
    exists b :: BestOf(t, d, b) && BestOf(t', d, b)
  }

  lemma SameBestBy(t: Table, t': Table)
    requires forall d :: ShareBest(t, t', d)
    ensures SameBest(t, t')
  {
    forall d, b ensures BestOf(t, d, b) <==> BestOf(t', d, b) {
      assert ShareBest(t, t', d);
      var c :| BestOf(t, d, c) && BestOf(t', d, c);
      if BestOf(t, d, b) {
        BestTwoUnique(CostsOf(t, d), CostsOf(t, d).Keys, b, c);
      }
      if BestOf(t', d, b) {
        BestTwoUnique(CostsOf(t', d), CostsOf(t', d).Keys, b, c);
      }
    }
  }

  lemma ListedByBest(t: Table, d: RouterId, b: Best)
    requires WellFormed(t) && BestOf(t, d, b)
    ensures d in t <==> b.cost1 < COST_INFINITY
  {
    if d in t {
      assert Reaches(t[d]);
    }
  }

  lemma SameBestKeys(t: Table, t': Table)
    requires WellFormed(t) && WellFormed(t') && SameBest(t, t')
    ensures t.Keys == t'.Keys
  {
    hide BestOf, WellFormed;
    forall d ensures d in t <==> d in t' {
      var b := BestExists(t, d);
      ListedByBest(t, d, b);
      ListedByBest(t', d, b);
    }
  }

  lemma SameBestAdvert(t: Table, t': Table, adv: seq<AdvEntry>)
    requires WellFormed(t) && WellFormed(t') && SameBest(t, t') && IsAdvertOf(t, adv)
    ensures IsAdvertOf(t', adv)
  {
    hide IsBestTwo, WellFormed;
    SameBestKeys(t, t');
    forall i | 0 <= i < |adv| && adv[i].destination in t' ensures Advertises(t'[adv[i].destination], adv[i]) {
      var a, d := adv[i], adv[i].destination;
      assert Advertises(t[d], a);
      var hop2 :| IsBestTwo(t[d], t[d].Keys, Best(a.nextHop, hop2, a.cost, a.otherCost));
      assert BestOf(t, d, Best(a.nextHop, hop2, a.cost, a.otherCost));
    }
  }

  /** The dirty flag tells whether the two best changed anywhere. */
  lemma FlagIsBest(was: map<RouterId, RibEntry>, now: map<RouterId, RibEntry>)
    requires Coherent(was) && AllClean(was) && WellFormed(TableOf(was))
    requires Coherent(now) && AllClean(now) && WellFormed(TableOf(now))
    ensures AdvertDiffers(was, now) <==> !SameBest(TableOf(was), TableOf(now))
  {
    hide BestOf, WellFormed, Accurate;
    forall d ensures EntryDiffers(was, now, d) <==> !ShareBest(TableOf(was), TableOf(now), d) {
      FlagAt(was, now, d);
    }
    if !AdvertDiffers(was, now) {
      forall d ensures ShareBest(TableOf(was), TableOf(now), d) {
        assert !EntryDiffers(was, now, d);
      }
      SameBestBy(TableOf(was), TableOf(now));
    } else {
      var d :| EntryDiffers(was, now, d);
      var b := BestExists(TableOf(was), d);
    }
  }

  lemma FlagAt(was: map<RouterId, RibEntry>, now: map<RouterId, RibEntry>, d: RouterId)
    requires Coherent(was) && AllClean(was) && WellFormed(TableOf(was))
    requires Coherent(now) && AllClean(now) && WellFormed(TableOf(now))
    ensures EntryDiffers(was, now, d) <==> !ShareBest(TableOf(was), TableOf(now), d)
  {
    hide BestOf, WellFormed, Accurate, TableOf;
    var b := BestExists(TableOf(was), d);
    var c := BestExists(TableOf(now), d);
    EntryBest(was, d, b);
    EntryBest(now, d, c);
    forall x | BestOf(TableOf(was), d, x) && BestOf(TableOf(now), d, x) ensures b == c == x {
      SameOnes(TableOf(was), d, b, x);
      SameOnes(TableOf(now), d, c, x);
    }
    if b == c {
      assert BestOf(TableOf(was), d, b) && BestOf(TableOf(now), d, b);
    }
  }

  lemma SameOnes(t: Table, d: RouterId, b: Best, c: Best)
    requires BestOf(t, d, b) && BestOf(t, d, c)
    ensures b == c
  {
    BestTwoUnique(CostsOf(t, d), CostsOf(t, d).Keys, b, c);
  }

  lemma EntryBest(entries: map<RouterId, RibEntry>, d: RouterId, b: Best)
    requires Coherent(entries) && AllClean(entries) && WellFormed(TableOf(entries)) && BestOf(TableOf(entries), d, b)
    ensures if d in entries then b == entries[d].best && b.cost1 < COST_INFINITY else b == Best(0, 0, COST_INFINITY, COST_INFINITY)
  {
    ListedByBest(TableOf(entries), d, b);
    if d in entries {
      SameOnes(TableOf(entries), d, b, entries[d].best);
    }
  }

  // ----- Quiet networks -----

  /** No delivery of a neighbour's current advertisement raises a flag anywhere. */
  ghost predicate Quiet(g: Graph, net: Net)
    requires ValidGraph(g) && net.Keys == g.nodes
  {
    forall r, n, adv :: Link(g, r, n) && r in net && n in net && IsAdvertOf(net[n], adv) ==>
      SameBest(net[r], Updated(net[r], r, n, adv))
  }

  ghost predicate SameBestNet(g: Graph, net: Net, other: Net) {
    net.Keys == other.Keys == g.nodes && forall r :: r in g.nodes ==> SameBest(net[r], other[r])
  }

  lemma LeastExceptUnique(t: Table, d: RouterId, r: RouterId, m: nat, m': nat)
    requires IsLeastExcept(t, d, r, m) && IsLeastExcept(t, d, r, m')
    ensures m == m'
  {
  }

  /** In a round, the new cost through a neighbour is what any of its current advertisements offers. */
  lemma RoundOffer(g: Graph, net: Net, net': Net, r: RouterId, n: RouterId, adv: seq<AdvEntry>, d: RouterId)
    requires ValidGraph(g) && NetOk(g, net) && IsRound(g, net, net') && Link(g, r, n) && IsAdvertOf(net[n], adv)
    ensures net'.Keys == g.nodes && Cost(net'[r], d, n) == LastOffer(r, adv, d)
  {
    hide IsRound, IsAdvertOf, IsLeastExcept, LastOffer, Cost;
    var m := RoundCost(g, net, net', r, d, n);
    assert WellFormed(net[n]);
    var m' := OfferIsLeastExcept(net[n], adv, r, d);
    LeastExceptUnique(net[n], d, r, m, m');
  }

  /** A round leaves the two best of a quiet network as they are. */
  lemma QuietRound(g: Graph, net: Net, net': Net, r: RouterId)
    requires ValidGraph(g) && NetOk(g, net) && Quiet(g, net) && IsRound(g, net, net') && r in g.nodes
    ensures net'.Keys == g.nodes && SameBest(net[r], net'[r])
  {
    hide IsRound, BestOf, Quiet, WithCost;
    RoundKeepsNetOk(g, net, net');
    forall d ensures ShareBest(net[r], net'[r], d) {
      var b := BestExists(net[r], d);
      forall h ensures BestOf(WithCost(net[r], d, h, Cost(net'[r], d, h)), d, b) {
        QuietColumn(g, net, net', r, d, h, b);
      }
      MixAll(net[r], net'[r], d, b);
    }
    SameBestBy(net[r], net'[r]);
  }

  lemma QuietColumn(g: Graph, net: Net, net': Net, r: RouterId, d: RouterId, h: RouterId, b: Best)
    requires ValidGraph(g) && NetOk(g, net) && Quiet(g, net) && IsRound(g, net, net') && r in g.nodes
    requires BestOf(net[r], d, b) && net'.Keys == g.nodes
    ensures BestOf(WithCost(net[r], d, h, Cost(net'[r], d, h)), d, b)
  {
    hide IsRound, BestOf, IsAdvertOf, Cost, Updated, WithCost, LastOffer;
    assert WellFormed(net[r]) by { NetTable(g, net, r); }
    var mixed := WithCost(net[r], d, h, Cost(net'[r], d, h));
    WithCostCosts(net[r], d, h, Cost(net'[r], d, h));
    if Link(g, r, h) {
      var adv := AdvertExists(net[h]);
      assert SameBest(net[r], Updated(net[r], r, h, adv));
      RoundOffer(g, net, net', r, h, adv, d);
      UpdatedCosts(net[r], r, h, adv);
      BestByCost(Updated(net[r], r, h, adv), mixed, d, b);
    } else {
      var m := RoundCost(g, net, net', r, d, h);
      BestByCost(net[r], mixed, d, b);
    }
  }

  /** And makes it silent: after one more round not even a stored cost changes. */
  lemma QuietThenSilent(g: Graph, net: Net, net': Net)
    requires ValidGraph(g) && NetOk(g, net) && Quiet(g, net) && IsRound(g, net, net')
    ensures NetOk(g, net') && Silent(g, net') && SameBestNet(g, net, net')
  {
    hide IsRound, SameBest, Quiet;
    RoundKeepsNetOk(g, net, net');
    forall r | r in g.nodes ensures SameBest(net[r], net'[r]) {
      QuietRound(g, net, net', r);
    }
    forall r, n, adv | Link(g, r, n) && IsAdvertOf(net'[n], adv) ensures SameCosts(net'[r], Updated(net'[r], r, n, adv)) {
      SilentColumn(g, net, net', r, n, adv);
    }
  }

  lemma SilentColumn(g: Graph, net: Net, net': Net, r: RouterId, n: RouterId, adv: seq<AdvEntry>)
    requires ValidGraph(g) && NetOk(g, net) && NetOk(g, net') && IsRound(g, net, net') && Link(g, r, n)
    requires SameBest(net[n], net'[n]) && IsAdvertOf(net'[n], adv)
    ensures SameCosts(net'[r], Updated(net'[r], r, n, adv))
  {
    hide IsRound, IsAdvertOf, Cost, Updated, BestOf, LastOffer;
    NetTable(g, net, n);
    NetTable(g, net', n);
    NetTable(g, net', r);
    SameBestAdvert(net'[n], net[n], adv);
    UpdatedCosts(net'[r], r, n, adv);
    forall d ensures Cost(net'[r], d, n) == LastOffer(r, adv, d) {
      RoundOffer(g, net, net', r, n, adv, d);
    }
  }

  /** A quiet network advertises what some converged network would. */
  lemma QuietIsExact(g: Graph, net: Net) returns (exact: Net)
    requires ValidGraph(g) && NetOk(g, net) && Quiet(g, net)
    ensures Converged(g, exact) && SameBestNet(g, net, exact)
  {
    hide IsRound, Quiet, Silent, SameBest;
    exact := RoundExists(g, net);
    QuietThenSilent(g, net, exact);
    SilentIsConverged(g, exact);
  }

  /** And a network that does is quiet. */
  lemma ExactIsQuiet(g: Graph, net: Net, exact: Net)
    requires ValidGraph(g) && NetOk(g, net) && Converged(g, exact) && SameBestNet(g, net, exact)
    ensures Quiet(g, net)
  {
    hide SameBest, IsAdvertOf, ExactBelow;
    forall r, n, adv | Link(g, r, n) && r in net && n in net && IsAdvertOf(net[n], adv)
      ensures SameBest(net[r], Updated(net[r], r, n, adv))
    {
      ExactColumn(g, net, exact, r, n, adv);
    }
  }

  lemma ExactColumn(g: Graph, net: Net, exact: Net, r: RouterId, n: RouterId, adv: seq<AdvEntry>)
    requires ValidGraph(g) && NetOk(g, net) && Converged(g, exact) && SameBestNet(g, net, exact)
    requires Link(g, r, n) && IsAdvertOf(net[n], adv)
    ensures SameBest(net[r], Updated(net[r], r, n, adv))
  {
    hide BestOf, IsAdvertOf, ExactBelow, Updated, Cost, LastOffer;
    NetTable(g, net, n);
    NetTable(g, exact, n);
    NetTable(g, net, r);
    SameBestAdvert(net[n], exact[n], adv);
    UpdatedCosts(net[r], r, n, adv);
    forall d ensures ShareBest(net[r], Updated(net[r], r, n, adv), d) {
      var b := BestExists(net[r], d);
      ConvergedOffer(g, exact, r, n, adv, d);
      MixKeeps(net[r], exact[r], Updated(net[r], r, n, adv), d, n, b);
    }
    SameBestBy(net[r], Updated(net[r], r, n, adv));
  }

  /** The flags stay down exactly when every router would advertise what a converged network does. */
  lemma QuietExactly(g: Graph, net: Net)
    requires ValidGraph(g) && NetOk(g, net)
    ensures Quiet(g, net) <==> exists exact :: Converged(g, exact) && SameBestNet(g, net, exact)
  {
    hide Quiet, Converged, SameBestNet;
    if Quiet(g, net) {
      var exact := QuietIsExact(g, net);
    }
    if exact :| Converged(g, exact) && SameBestNet(g, net, exact) {
      ExactIsQuiet(g, net, exact);
    }
  }

  /** A router in a quiet network lists exactly the destinations at distance at most 15, each with its
      true distance as best cost. */
  lemma QuietDistances(g: Graph, net: Net, r: RouterId, d: RouterId)
    requires ValidGraph(g) && NetOk(g, net) && Quiet(g, net) && r in g.nodes
    ensures d in net[r] <==> exists c: nat :: c <= 15 && IsDistance(g, r, d, c)
    ensures forall c: nat, b :: c <= 15 && d in net[r] && BestOf(net[r], d, b) ==>
      (b.cost1 == c <==> IsDistance(g, r, d, c))
  {
    hide Quiet, IsDistance, IsBestTwo, ExactBelow;
    var exact := QuietIsExact(g, net);
    NetTable(g, net, r);
    NetTable(g, exact, r);
    SameBestKeys(net[r], exact[r]);
    ConvergedDistances(g, exact, r, d);
  }

  /** Quiet is less than silent: in a converged network any cost that is not among the two best can be
      replaced by a wrong one above them, and no flag is ever raised about it. */
  lemma WrongCostStaysQuiet(g: Graph, exact: Net, r: RouterId, d: RouterId, h: RouterId, c: nat, b: Best)
    requires Converged(g, exact) && Link(g, r, h) && BestOf(exact[r], d, b)
    requires h != b.hop1 && h != b.hop2 && Before(b.cost2, b.hop2, c, h) && c < COST_INFINITY && c != Cost(exact[r], d, h)
    ensures var net := exact[r := WithCost(exact[r], d, h, c)];
      NetOk(g, net) && Quiet(g, net) && !Converged(g, net)
  {
    hide BestOf, WithCost, ExactBelow, Quiet, SameBest, TableOk;
    var net := exact[r := WithCost(exact[r], d, h, c)];
    NetTable(g, exact, r);
    WrongCostBest(exact[r], d, h, c, b);
    SecondPositive(g, r, exact[r], d, b);
    WrongCostOk(g, r, exact[r], d, h, c);
    assert forall x :: x in g.nodes ==> SameBest(net[x], exact[x]) by { SameBestSelf(); }
    ExactIsQuiet(g, net, exact);
    WithCostCosts(exact[r], d, h, c);
    assert ExactAt(g, exact, r, d, h, c) && !ExactAt(g, net, r, d, h, c) by { ExactNumbers(g, exact, r, d, h, c); }
    if ExactBelow(g, net, COST_INFINITY) {
      ExactNumbers(g, net, r, d, h, c);
    }
  }

  lemma SecondPositive(g: Graph, r: RouterId, t: Table, d: RouterId, b: Best)
    requires TableOk(g, r, t) && BestOf(t, d, b)
    ensures b.cost2 >= 1
  {
    hide BestOf;
    BestMeans(t, d, b);
  }

  lemma SameBestSelf()
    ensures forall t :: SameBest(t, t)
  {
  }

  lemma WrongCostBest(t: Table, d: RouterId, h: RouterId, c: nat, b: Best)
    requires BestOf(t, d, b) && h != b.hop1 && h != b.hop2 && Before(b.cost2, b.hop2, c, h) && c < COST_INFINITY
    ensures SameBest(WithCost(t, d, h, c), t)
  {
    hide BestOf, WithCost;
    var u := WithCost(t, d, h, c);
    WithCostCosts(t, d, h, c);
    BestMeans(t, d, b);
    BestMeans(u, d, b);
    forall x ensures ShareBest(u, t, x) {
      var y := BestExists(t, x);
      if x == d {
        assert BestOf(u, d, b);
      } else {
        BestByCost(u, t, x, y);
      }
    }
    SameBestBy(u, t);
  }

  lemma ExactNumbers(g: Graph, net: Net, r: RouterId, d: RouterId, h: RouterId, c: nat)
    requires net.Keys == g.nodes && ExactBelow(g, net, COST_INFINITY) && r in g.nodes && c < COST_INFINITY
    ensures ExactAt(g, net, r, d, h, c)
  {
  }

  lemma WrongCostOk(g: Graph, r: RouterId, t: Table, d: RouterId, h: RouterId, c: nat)
    requires ValidGraph(g) && TableOk(g, r, t) && Link(g, r, h) && 1 <= c < COST_INFINITY
    ensures TableOk(g, r, WithCost(t, d, h, c))
  {
    hide WithCost, Cost;
    WithCostCosts(t, d, h, c);
    assert WellFormed(WithCost(t, d, h, c)) by { WrongCostFormed(t, d, h, c); }
  }

  lemma WrongCostFormed(t: Table, d: RouterId, h: RouterId, c: nat)
    requires WellFormed(t) && c < COST_INFINITY
    ensures WellFormed(WithCost(t, d, h, c))
  {
    var u := WithCost(t, d, h, c);
    WithCostCosts(t, d, h, c);
    forall x | x in u ensures Reaches(u[x]) {
      if x == d {
        assert u[d][h] == c;
      }
    }
    forall x, y ensures Cost(u, x, y) <= COST_INFINITY {
      assert Cost(t, x, y) <= COST_INFINITY;
    }
  }
}
