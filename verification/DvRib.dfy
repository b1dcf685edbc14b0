/** One router's routing information base: the cost tables of dv/table/rib.go and the
    advertisement handling of dv/dv/table_algo.go.

    Routers are known by the 64-bit hash of their name; the hash is taken to be injective, so the
    table that maps hashes back to names is the identity and is not kept. */
module DvRib {

  type RouterId = nat

  /** Destination -> next hop -> cost, the information a RIB holds once its caches are dropped. */
  type Table = map<RouterId, map<RouterId, nat>>

  const COST_INFINITY: nat := 16
  const TWO_TO_64: nat := 0x1_0000_0000_0000_0000

  /** The cached two best next hops of an entry. */
  datatype Best = Best(hop1: RouterId, hop2: RouterId, cost1: nat, cost2: nat)

  datatype RibEntry = RibEntry(costs: map<RouterId, nat>, best: Best, dirty: bool)

  datatype AdvEntry = AdvEntry(destination: RouterId, nextHop: RouterId, cost: nat, otherCost: nat)

  // ----- What "the two best" means -----

  predicate Live(costs: map<RouterId, nat>, hop: RouterId) {
    hop in costs && costs[hop] < COST_INFINITY
  }

  /** Lexicographic order on (cost, hop). */
  predicate Before(cost1: nat, hop1: RouterId, cost2: nat, hop2: RouterId) {
    cost1 < cost2 || (cost1 == cost2 && hop1 < hop2)
  }

  /** (cost, hop) is the least live pair with its hop in `among`, or (infinity, 0) if there is none. */
  ghost predicate IsLeast(costs: map<RouterId, nat>, among: set<RouterId>, cost: nat, hop: RouterId) {
    if exists h :: h in among && Live(costs, h) then
      && hop in among && Live(costs, hop) && costs[hop] == cost
      && forall h :: h in among && Live(costs, h) && h != hop ==> Before(cost, hop, costs[h], h)
    else
      cost == COST_INFINITY && hop == 0
  }

  ghost predicate IsBestTwo(costs: map<RouterId, nat>, among: set<RouterId>, b: Best) {
    && IsLeast(costs, among, b.cost1, b.hop1)
    && IsLeast(costs, among - {b.hop1}, b.cost2, b.hop2)
  }

  /** The cached best hops of an entry are those of its costs. */
  ghost predicate Accurate(e: RibEntry) {
    IsBestTwo(e.costs, e.costs.Keys, e.best)
  }

  lemma AccurateReach(e: RibEntry)
    requires Accurate(e)
    ensures e.best.cost1 < COST_INFINITY <==> Reaches(e.costs)
    ensures e.best.cost1 <= COST_INFINITY
  {
  }

  lemma AccurateSingle(e: RibEntry, hop: RouterId)
    requires Accurate(e) && e.costs.Keys == {hop}
    ensures e.best.cost2 == COST_INFINITY
  {
  }

  /** The pair of best hops is determined by the costs, whatever order they are looked at in. */
  lemma BestTwoUnique(costs: map<RouterId, nat>, among: set<RouterId>, b: Best, c: Best)
    requires IsBestTwo(costs, among, b) && IsBestTwo(costs, among, c)
    ensures b == c
  {
  }

  /** refresh: rescans the costs of an entry and reports whether its two best hops changed. The
      map is visited in an arbitrary order. */
  method Refresh(e: RibEntry) returns (r: RibEntry, changed: bool)
    ensures r.costs == e.costs && !r.dirty
    ensures Accurate(r)
    ensures changed <==> r.best != e.best
  {
    var b := Best(0, 0, COST_INFINITY, COST_INFINITY);
    var todo, seen := e.costs.Keys, {};
    while todo != {}
      invariant todo + seen == e.costs.Keys && todo !! seen
      invariant IsBestTwo(e.costs, seen, b)
      decreases todo
    {
      var hop :| hop in todo;
      ghost var before, prior := b, seen;
      var cost := e.costs[hop];
      if cost < b.cost1 || (cost == b.cost1 && hop < b.hop1) {
        b := Best(hop, b.hop1, cost, b.cost1);
      } else if cost < b.cost2 || (cost == b.cost2 && hop < b.hop2) {
        b := b.(hop2 := hop, cost2 := cost);
      }
      todo, seen := todo - {hop}, seen + {hop};
      BestTwoExtends(e.costs, prior, before, hop, b);
    }
    assert seen == e.costs.Keys;
    changed := e.best != b;
    r := RibEntry(e.costs, b, false);
  }

  /** One turn of the loop in refresh. */
  lemma BestTwoExtends(costs: map<RouterId, nat>, seen: set<RouterId>, b: Best, hop: RouterId, b': Best)
    requires IsBestTwo(costs, seen, b) && hop in costs && hop !in seen
    requires var cost := costs[hop];
      b' == if Before(cost, hop, b.cost1, b.hop1) then Best(hop, b.hop1, cost, b.cost1)
            else if Before(cost, hop, b.cost2, b.hop2) then b.(hop2 := hop, cost2 := cost)
            else b
    ensures IsBestTwo(costs, seen + {hop}, b')
  {
  }

  // ----- Tables -----

  /** Cost of reaching `dest` through `hop`; infinity when nothing is stored. */
  function Cost(t: Table, dest: RouterId, hop: RouterId): nat {
    if dest in t && hop in t[dest] then t[dest][hop] else COST_INFINITY
  }

  predicate Reaches(costs: map<RouterId, nat>) {
    exists h :: h in costs && costs[h] < COST_INFINITY
  }

  /** No stored cost exceeds infinity. */
  ghost predicate Bounded(t: Table) {
    forall d, h :: Cost(t, d, h) <= COST_INFINITY
  }

  /** Costs are bounded and every destination can be reached. */
  ghost predicate WellFormed(t: Table) {
    Bounded(t) && forall d :: d in t ==> Reaches(t[d])
  }

  function ResetHop(t: Table, hop: RouterId): Table {
    map d | d in t :: t[d][hop := COST_INFINITY]
  }

  function WithoutHop(t: Table, hop: RouterId): Table {
    map d | d in t :: t[d] - {hop}
  }

  function Reachable(t: Table): Table {
    map d | d in t && Reaches(t[d]) :: t[d]
  }

  function CostsOf(t: Table, dest: RouterId): map<RouterId, nat> {
    if dest in t then t[dest] else map[]
  }

  function WithCost(t: Table, dest: RouterId, hop: RouterId, cost: nat): Table {
    t[dest := CostsOf(t, dest)[hop := cost]]
  }

  /** The 64-bit sum of a cost and the local link cost of 1. */
  function Bump(cost: nat): nat {
    (cost + 1) % TWO_TO_64
  }

  /** What an advertised entry offers to router `self`: the sender's best route, or its second
      best if the best one comes back to us. */
  function Offer(self: RouterId, e: AdvEntry): nat {
    if e.nextHop == self then
      if e.otherCost < COST_INFINITY then Bump(e.otherCost) else COST_INFINITY
    else Bump(e.cost)
  }

  function WithAdvert(t: Table, self: RouterId, from: RouterId, adv: seq<AdvEntry>): Table {
    if adv == [] then t
    else
      var rest := WithAdvert(t, self, from, adv[..|adv| - 1]);
      var e := adv[|adv| - 1];
      if Offer(self, e) < COST_INFINITY then WithCost(rest, e.destination, from, Offer(self, e)) else rest
  }

  /** The table after an advertisement of neighbour `from` has been processed. */
  function Updated(t: Table, self: RouterId, from: RouterId, adv: seq<AdvEntry>): Table {
    Reachable(WithAdvert(ResetHop(t, from), self, from, adv))
  }

  /** The table after neighbour `hop` has been declared dead. */
  function Removed(t: Table, hop: RouterId): Table {
    Reachable(WithoutHop(t, hop))
  }

  /** The last usable offer for `dest` in an advertisement. */
  function LastOffer(self: RouterId, adv: seq<AdvEntry>, dest: RouterId): nat {
    if adv == [] then COST_INFINITY
    else
      var e := adv[|adv| - 1];
      if e.destination == dest && Offer(self, e) < COST_INFINITY then Offer(self, e)
      else LastOffer(self, adv[..|adv| - 1], dest)
  }

  /** `i` is the last position with a usable offer for the destination. */
  ghost predicate LastUsable(self: RouterId, adv: seq<AdvEntry>, dest: RouterId, i: nat) {
    && i < |adv| && adv[i].destination == dest && Offer(self, adv[i]) < 16
    && forall j :: i < j < |adv| && adv[j].destination == dest ==> Offer(self, adv[j]) >= 16
  }

  lemma {:induction false} LastOfferMeans(self: RouterId, adv: seq<AdvEntry>, dest: RouterId)
    ensures forall i: nat :: LastUsable(self, adv, dest, i) ==> LastOffer(self, adv, dest) == Offer(self, adv[i])
    ensures (forall i: nat :: !LastUsable(self, adv, dest, i)) ==> LastOffer(self, adv, dest) == 16
  {
    if adv != [] {
      var init, e := adv[..|adv| - 1], adv[|adv| - 1];
      LastOfferMeans(self, init, dest);
      if e.destination == dest && Offer(self, e) < 16 {
        assert LastUsable(self, adv, dest, |init|);
      } else {
        forall i: nat ensures LastUsable(self, adv, dest, i) <==> LastUsable(self, init, dest, i) {
          if LastUsable(self, adv, dest, i) {
            assert i < |init| && init[i] == adv[i];
          }
        }
      }
    }
  }

  predicate DistinctDestinations(adv: seq<AdvEntry>) {
    forall i, j :: 0 <= i < j < |adv| ==> adv[i].destination != adv[j].destination
  }

  /** An advertisement replaces exactly the column of the neighbour it came from. */
  lemma UpdatedCosts(t: Table, self: RouterId, from: RouterId, adv: seq<AdvEntry>)
    requires WellFormed(t)
    ensures WellFormed(Updated(t, self, from, adv))
    ensures forall d, h :: Cost(Updated(t, self, from, adv), d, h)
                           == if h == from then LastOffer(self, adv, d) else Cost(t, d, h)
  {
    forall d, h
      ensures Cost(ResetHop(t, from), d, h) == if h == from then COST_INFINITY else Cost(t, d, h)
    {
    }
    WithAdvertCosts(ResetHop(t, from), self, from, adv);
    ReachableCosts(WithAdvert(ResetHop(t, from), self, from, adv));
  }

  lemma ReachableCosts(t: Table)
    requires Bounded(t)
    ensures WellFormed(Reachable(t))
    ensures forall d, h :: Cost(Reachable(t), d, h) == Cost(t, d, h)
  {
    forall d, h
      ensures Cost(Reachable(t), d, h) == Cost(t, d, h)
    {
      assert Cost(t, d, h) <= COST_INFINITY;
    }
  }

  lemma {:induction false} WithAdvertCosts(t: Table, self: RouterId, from: RouterId, adv: seq<AdvEntry>)
    requires Bounded(t)
    requires forall d :: Cost(t, d, from) == COST_INFINITY
    ensures var u := WithAdvert(t, self, from, adv);
      && Bounded(u)
      && forall d, h :: Cost(u, d, h) == if h == from then LastOffer(self, adv, d) else Cost(t, d, h)
  {
    if adv != [] {
      var rest := WithAdvert(t, self, from, adv[..|adv| - 1]);
      var u, e := WithAdvert(t, self, from, adv), adv[|adv| - 1];
      WithAdvertCosts(t, self, from, adv[..|adv| - 1]);
      if Offer(self, e) < COST_INFINITY {
        assert u == WithCost(rest, e.destination, from, Offer(self, e));
        WithCostCosts(rest, e.destination, from, Offer(self, e));
      } else {
        assert u == rest;
      }
    }
  }

  lemma WithCostCosts(t: Table, dest: RouterId, hop: RouterId, cost: nat)
    ensures forall d, h :: Cost(WithCost(t, dest, hop, cost), d, h)
                           == if d == dest && h == hop then cost else Cost(t, d, h)
  {
  }

  /** Losing a neighbour empties exactly its column. */
  lemma RemovedCosts(t: Table, hop: RouterId)
    requires WellFormed(t)
    ensures WellFormed(Removed(t, hop))
    ensures forall d, h :: Cost(Removed(t, hop), d, h) == if h == hop then COST_INFINITY else Cost(t, d, h)
  {
    forall d, h
      ensures Cost(WithoutHop(t, hop), d, h) == if h == hop then COST_INFINITY else Cost(t, d, h)
    {
    }
    ReachableCosts(WithoutHop(t, hop));
  }

  /** The advertised entry carries the best hop and the two best costs. */
  ghost predicate Advertises(costs: map<RouterId, nat>, a: AdvEntry) {
    exists hop2 :: IsBestTwo(costs, costs.Keys, Best(a.nextHop, hop2, a.cost, a.otherCost))
  }

  predicate Lists(adv: seq<AdvEntry>, dest: RouterId) {
    exists i :: 0 <= i < |adv| && adv[i].destination == dest
  }

  /** An advertisement lists every destination of the table once, with its two best costs. */
  ghost predicate IsAdvertOf(t: Table, adv: seq<AdvEntry>) {
    && DistinctDestinations(adv)
    && (forall d :: Lists(adv, d) <==> d in t)
    && (forall i :: 0 <= i < |adv| && adv[i].destination in t ==> Advertises(t[adv[i].destination], adv[i]))
  }

  lemma ListsAppend(adv: seq<AdvEntry>, e: AdvEntry)
    ensures forall d :: Lists(adv + [e], d) <==> Lists(adv, d) || d == e.destination
  {
    var more := adv + [e];
    forall d | Lists(adv, d) || d == e.destination
      ensures Lists(more, d)
    {
      if Lists(adv, d) {
        var i :| 0 <= i < |adv| && adv[i].destination == d;
        assert more[i].destination == d;
      } else {
        assert more[|adv|].destination == d;
      }
    }
  }

  // ----- The RIB object -----

  /** The advertised view of an entry changed: it appeared, vanished or has new best hops. */
  predicate EntryDiffers(was: map<RouterId, RibEntry>, now: map<RouterId, RibEntry>, d: RouterId) {
    || (d in was && d !in now)
    || (d !in was && d in now)
    || (d in was && d in now && was[d].best != now[d].best)
  }

  ghost predicate AdvertDiffers(was: map<RouterId, RibEntry>, now: map<RouterId, RibEntry>) {
    exists d :: EntryDiffers(was, now, d)
  }

  function TableOf(entries: map<RouterId, RibEntry>): Table {
    map d | d in entries :: entries[d].costs
  }

  function EntryCosts(entries: map<RouterId, RibEntry>, d: RouterId): map<RouterId, nat> {
    if d in entries then entries[d].costs else map[]
  }

  lemma TableOfSet(entries: map<RouterId, RibEntry>, d: RouterId, e: RibEntry, hop: RouterId, cost: nat)
    requires e.costs == EntryCosts(entries, d)[hop := cost]
    ensures TableOf(entries[d := e]) == WithCost(TableOf(entries), d, hop, cost)
  {
  }

  /** Every clean entry has an accurate cache. */
  ghost predicate Coherent(entries: map<RouterId, RibEntry>) {
    forall d :: d in entries && !entries[d].dirty ==> Accurate(entries[d])
  }

  predicate AllClean(entries: map<RouterId, RibEntry>) {
    forall d :: d in entries ==> !entries[d].dirty
  }

  class Rib {
    const self: RouterId
    var entries: map<RouterId, RibEntry>

    /** Holds between the handlers: all entries are clean, accurate and reachable. */
    ghost predicate Valid()
      reads this
    {
      Coherent(entries) && AllClean(entries) && WellFormed(TableOf(entries))
    }

    /** A new RIB holds the route to the router itself, at cost 0. */
    constructor (self: RouterId)
      ensures Valid() && this.self == self
      ensures TableOf(entries) == map[self := map[self := 0]]
    {
      this.self := self;
      entries := map[];
      new;
      var changed := Set(self, self, 0);
      TableOfSet(map[], self, entries[self], self, 0);
      assert TableOf(entries)[self][self] == 0;
    }

    /** Set: records a cost, creating the entry if needed. A cost that is already stored changes
        nothing, not even a dirty entry. */
    method Set(dest: RouterId, hop: RouterId, cost: nat) returns (changed: bool)
      requires Coherent(entries)
      modifies this
      ensures dest in entries && entries == old(entries)[dest := entries[dest]]
      ensures entries[dest].costs == EntryCosts(old(entries), dest)[hop := cost]
      ensures Coherent(entries)
      ensures entries[dest].dirty <==>
        (dest in old(entries) && old(entries)[dest].dirty && hop in old(entries)[dest].costs && old(entries)[dest].costs[hop] == cost)
      ensures dest in old(entries) ==> (changed <==> entries[dest].best != old(entries)[dest].best)
      ensures dest !in old(entries) ==> changed
    {
      hide Accurate;
      var e := if dest in entries then entries[dest] else RibEntry(map[], Best(0, 0, 0, 0), false);
      if hop !in e.costs || e.costs[hop] != cost {
        var r, c := Refresh(e.(costs := e.costs[hop := cost]));
        entries := entries[dest := r];
        changed := c;
        if dest !in old(entries) {
          AccurateSingle(r, hop);
        }
      } else {
        changed := false;
        assert entries == entries[dest := entries[dest]];
      }
    }

    /** DirtyResetNextHop */
    method DirtyResetNextHop(hop: RouterId)
      modifies this
      ensures TableOf(entries) == ResetHop(TableOf(old(entries)), hop)
      ensures entries.Keys == old(entries).Keys
      ensures forall d :: d in entries ==>
        entries[d] == RibEntry(old(entries)[d].costs[hop := COST_INFINITY], old(entries)[d].best, true)
    {
      var todo := entries.Keys;
      while todo != {}
        invariant todo <= entries.Keys == old(entries).Keys
        invariant forall d :: d in todo ==> entries[d] == old(entries)[d]
        invariant forall d :: d in entries && d !in todo ==>
          entries[d] == RibEntry(old(entries)[d].costs[hop := COST_INFINITY], old(entries)[d].best, true)
        decreases todo
      {
        var d :| d in todo;
        entries := entries[d := entries[d].(costs := entries[d].costs[hop := COST_INFINITY], dirty := true)];
        todo := todo - {d};
      }
    }

    /** Prune: refreshes the dirty entries and drops the unreachable ones. */
    method Prune() returns (changed: bool)
      requires Coherent(entries)
      modifies this
      ensures TableOf(entries) == Reachable(TableOf(old(entries)))
      ensures Coherent(entries) && AllClean(entries)
      ensures changed <==> AdvertDiffers(old(entries), entries)
    {
      hide Accurate, Reaches, AdvertDiffers, TableOf, FlagOk;
      ghost var was := entries;
      changed := false;
      var todo := entries.Keys;
      NoDifference(entries, todo);
      while todo != {}
        invariant todo <= entries.Keys <= was.Keys
        invariant forall d :: d in todo ==> entries[d] == was[d]
        invariant forall d :: d in entries && d !in todo ==>
          !entries[d].dirty && entries[d].costs == was[d].costs && Reaches(entries[d].costs) && Accurate(entries[d])
        invariant forall d :: d in was && d !in entries ==> !Reaches(was[d].costs)
        invariant FlagOk(was, entries, todo, changed)
        decreases todo
      {
        var d :| d in todo;
        var e := entries[d];
        ghost var mid, flag := entries, changed;
        if e.dirty {
          var r, c := Refresh(e);
          e := r;
          changed := c || changed;
          entries := entries[d := e];
        }
        AccurateReach(e);
        if e.best.cost1 == COST_INFINITY {
          entries := entries - {d};
          changed := true;
        }
        FlagStep(was, mid, todo, flag, entries, d, changed);
        todo := todo - {d};
      }
      AllDiffers(was, entries, changed);
      PrunedTable(was, entries);
    }

    /** RemoveNextHop: the entries that used the hop are refreshed, the others are left alone. */
    method RemoveNextHop(hop: RouterId) returns (changed: bool)
      requires Coherent(entries)
      modifies this
      ensures TableOf(entries) == WithoutHop(TableOf(old(entries)), hop) && entries.Keys == old(entries.Keys)
      ensures Coherent(entries)
      ensures forall d :: d in entries ==>
        if hop in old(entries)[d].costs then !entries[d].dirty else entries[d] == old(entries)[d]
      ensures changed <==> AdvertDiffers(old(entries), entries)
    {
      hide Accurate, AdvertDiffers, TableOf, FlagOk;
      ghost var was := entries;
      changed := false;
      var todo := entries.Keys;
      NoDifference(entries, todo);
      while todo != {}
        invariant todo <= entries.Keys == was.Keys
        invariant forall d :: d in todo ==> entries[d] == was[d]
        invariant Coherent(entries)
        invariant forall d :: d in entries && d !in todo ==>
          entries[d].costs == was[d].costs - {hop} && if hop in was[d].costs then !entries[d].dirty else entries[d] == was[d]
        invariant FlagOk(was, entries, todo, changed)
        decreases todo
      {
        var d :| d in todo;
        ghost var mid, flag := entries, changed;
        if hop in entries[d].costs {
          var r, c := Refresh(entries[d].(costs := entries[d].costs - {hop}));
          entries := entries[d := r];
          changed := c || changed;
        } else {
          assert entries[d].costs - {hop} == entries[d].costs;
        }
        FlagStep(was, mid, todo, flag, entries, d, changed);
        todo := todo - {d};
      }
      AllDiffers(was, entries, changed);
      WithoutHopTable(was, entries, hop);
    }

    /** Advert */
    method Advert() returns (adv: seq<AdvEntry>)
      requires Valid()
      ensures IsAdvertOf(TableOf(entries), adv)
    {
      hide Advertises, Lists, Accurate;
      adv := [];
      assert forall d :: !Lists(adv, d) by { NothingListed(); }
      var todo := entries.Keys;
      while todo != {}
        invariant todo <= entries.Keys
        invariant DistinctDestinations(adv)
        invariant forall d :: Lists(adv, d) <==> d in entries && d !in todo
        invariant forall i :: 0 <= i < |adv| ==> adv[i].destination in entries && adv[i].destination !in todo
        invariant forall i :: 0 <= i < |adv| && adv[i].destination in entries ==>
          Advertises(entries[adv[i].destination].costs, adv[i])
        decreases todo
      {
        var d :| d in todo;
        var e := entries[d];
        AccurateAdvertises(d, e);
        ListsAppend(adv, AdvEntry(d, e.best.hop1, e.best.cost1, e.best.cost2));
        adv := adv + [AdvEntry(d, e.best.hop1, e.best.cost1, e.best.cost2)];
        todo := todo - {d};
      }
    }

    /** One usable offer during updateRib. */
    method SetOffer(d: RouterId, from: RouterId, cost: nat, ghost was: map<RouterId, RibEntry>) returns (changed: bool)
      requires MidUpdate(was, entries, from) && cost < COST_INFINITY
      modifies this
      ensures MidUpdate(was, entries, from) && d in entries && entries == old(entries)[d := entries[d]] && !entries[d].dirty
      ensures TableOf(entries) == WithCost(TableOf(old(entries)), d, from, cost)
      ensures AnyTouched(was, entries) ==> AnyTouched(was, old(entries)) || changed
      ensures d !in old(entries) || old(entries)[d].dirty ==>
        (AnyTouched(was, entries) <==> AnyTouched(was, old(entries)) || changed)
    {
      hide Accurate, AnyTouched, TableOf;
      ghost var mid := entries;
      changed := Set(d, from, cost);
      TableOfSet(mid, d, entries[d], from, cost);
      MidStep(was, mid, entries, d, from, cost);
    }

    /** The loop of updateRib over the advertised entries. */
    method ApplyAdvert(from: RouterId, adv: seq<AdvEntry>, ghost was: map<RouterId, RibEntry>) returns (dirty: bool)
      requires MidUpdate(was, entries, from) && forall d :: d in entries ==> entries[d].dirty
      modifies this
      ensures MidUpdate(was, entries, from)
      ensures TableOf(entries) == WithAdvert(TableOf(old(entries)), self, from, adv)
      ensures AnyTouched(was, entries) ==> dirty
      ensures DistinctDestinations(adv) ==> (dirty <==> AnyTouched(was, entries))
    {
      hide Accurate, AnyTouched, Lists, TableOf;
      ghost var t := TableOf(entries);
      dirty := false;
      NoneTouched(was, entries);
      for i := 0 to |adv|
        invariant MidUpdate(was, entries, from)
        invariant TableOf(entries) == WithAdvert(t, self, from, adv[..i])
        invariant forall d :: d in entries && !entries[d].dirty ==> Lists(adv[..i], d)
        invariant AnyTouched(was, entries) ==> dirty
        invariant DistinctDestinations(adv) ==> (dirty <==> AnyTouched(was, entries))
      {
        var e := adv[i];
        assert adv[..i + 1][..i] == adv[..i] && adv[..i + 1] == adv[..i] + [e];
        ListsAppend(adv[..i], e);
        var cost := Bump(e.cost);
        if e.nextHop == self {
          if e.otherCost < COST_INFINITY {
            cost := Bump(e.otherCost);
          } else {
            cost := COST_INFINITY;
          }
        }
        assert cost < COST_INFINITY ==> cost == Offer(self, e);
        if cost < COST_INFINITY {
          var changed := SetOffer(e.destination, from, cost, was);
          dirty := changed || dirty;
          if DistinctDestinations(adv) {
            NotListedBefore(adv, i);
          }
        }
      }
      assert adv[..|adv|] == adv;
    }

    /** updateRib. The result says whether a new advertisement is triggered. */
    method UpdateRib(from: RouterId, adv: seq<AdvEntry>) returns (dirty: bool)
      requires Valid()
      modifies this
      ensures Valid()
      ensures forall d, h :: Cost(TableOf(entries), d, h)
                             == if h == from then LastOffer(self, adv, d) else Cost(TableOf(old(entries)), d, h)
      ensures TableOf(entries) == Updated(TableOf(old(entries)), self, from, adv)
      ensures AdvertDiffers(old(entries), entries) ==> dirty
      ensures DistinctDestinations(adv) ==> (dirty <==> AdvertDiffers(old(entries), entries))
    {
      hide Accurate, AdvertDiffers;
      ghost var was := entries;
      DirtyResetNextHop(from);
      dirty := ApplyAdvert(from, adv, was);
      ghost var mid := entries;
      var pruned := Prune();
      dirty := pruned || dirty;
      UpdatedCosts(TableOf(was), self, from, adv);
      FlagAfterPrune(was, mid, entries, from);
    }

    /** checkDeadNeighbors: `dead` lists the neighbours whose dead interval has passed. Their columns
        are emptied, all others stay, and a destination stays exactly while another hop reaches it. */
    method CheckDeadNeighbors(dead: seq<RouterId>) returns (dirty: bool)
      requires Valid()
      modifies this
      ensures Valid()
      ensures forall d, h ::
        Cost(TableOf(entries), d, h) == if h in dead then COST_INFINITY else Cost(TableOf(old(entries)), d, h)
      ensures forall d :: d in entries <==> exists h :: h !in dead && Cost(TableOf(old(entries)), d, h) < COST_INFINITY
      ensures TableOf(entries) == RemovedAll(TableOf(old(entries)), dead)
      ensures dirty <==> AdvertDiffers(old(entries), entries)
    {
      hide Accurate, AdvertDiffers, RestOf, Coherent;
      ghost var start := entries;
      dirty := false;
      ghost var gone: set<RouterId> := {};
      RestOfAll(start);
      for i := 0 to |dead|
        invariant Valid()
        invariant TableOf(entries) == RemovedAll(TableOf(start), dead[..i])
        invariant RestOf(start, entries, gone)
        invariant dirty <==> AdvertDiffers(start, entries)
      {
        ghost var was := entries;
        RemovedCosts(TableOf(was), dead[i]);
        var c1 := RemoveNextHop(dead[i]);
        ghost var mid := entries;
        var c2 := Prune();
        dirty := c2 || c1 || dirty;
        assert dead[..i + 1][..i] == dead[..i];
        DropOne(start, was, mid, entries, gone, dead[i]);
        gone := gone + {dead[i]};
      }
      assert dead[..|dead|] == dead;
      RemovedAllCosts(TableOf(start), dead);
      ListedByCost(entries);
    }

    /** Has */
    method Has(dest: RouterId) returns (r: bool)
      requires Valid()
      ensures r <==> exists hop :: Cost(TableOf(entries), dest, hop) < COST_INFINITY
    {
      hide Accurate;
      if dest !in entries {
        r := false;
      } else {
        r := entries[dest].best.cost1 < COST_INFINITY;
        AccurateReach(entries[dest]);
        assert Reaches(TableOf(entries)[dest]);
        var h :| h in TableOf(entries)[dest] && TableOf(entries)[dest][h] < COST_INFINITY;
        assert Cost(TableOf(entries), dest, h) < COST_INFINITY;
      }
    }
  }

  /** The entries are those of `start` without some columns, and perhaps fewer. */
  ghost predicate RestOf(start: map<RouterId, RibEntry>, now: map<RouterId, RibEntry>, gone: set<RouterId>) {
    now.Keys <= start.Keys && forall d :: d in now ==> now[d].costs == start[d].costs - gone
  }

  lemma RestOfAll(start: map<RouterId, RibEntry>)
    ensures RestOf(start, start, {}) && !AdvertDiffers(start, start)
  {
    forall d | d in start ensures start[d].costs == start[d].costs - {} {
    }
  }

  /** If taking columns away leaves the two best as they were, so does taking only some of them. */
  lemma BestBetween(costs: map<RouterId, nat>, a: set<RouterId>, b: set<RouterId>, best: Best)
    requires a <= b && IsBestTwo(costs, costs.Keys, best) && IsBestTwo(costs - b, (costs - b).Keys, best)
    ensures IsBestTwo(costs - a, (costs - a).Keys, best)
  {
    assert forall h :: Live(costs - a, h) <==> Live(costs, h) && h !in a;
    assert forall h :: Live(costs - b, h) <==> Live(costs, h) && h !in b;
  }

  lemma EntryBetween(e: RibEntry, f: RibEntry, g: RibEntry, a: set<RouterId>, b: set<RouterId>)
    requires Accurate(e) && Accurate(f) && Accurate(g) && a <= b
    requires f.costs == e.costs - a && g.costs == e.costs - b && e.best == g.best
    ensures e.best == f.best
  {
    BestBetween(e.costs, a, b, e.best);
    BestTwoUnique(f.costs, f.costs.Keys, e.best, f.best);
  }

  /** The changes of one dead neighbour never cancel those of an earlier one. */
  lemma DropOne(start: map<RouterId, RibEntry>, was: map<RouterId, RibEntry>, mid: map<RouterId, RibEntry>,
                now: map<RouterId, RibEntry>, gone: set<RouterId>, hop: RouterId)
    requires Coherent(start) && AllClean(start) && Coherent(was) && AllClean(was)
    requires Coherent(mid) && AllClean(mid) && Coherent(now) && AllClean(now)
    requires RestOf(start, was, gone)
    requires TableOf(mid) == WithoutHop(TableOf(was), hop) && TableOf(now) == Reachable(TableOf(mid))
    ensures RestOf(start, now, gone + {hop})
    ensures AdvertDiffers(start, now) <==> AdvertDiffers(mid, now) || AdvertDiffers(was, mid) || AdvertDiffers(start, was)
  {
    hide Accurate, EntryDiffers;
    TableAfter(was, mid, now, hop);
    forall d ensures d in now ==> now[d].costs == start[d].costs - (gone + {hop}) {
    }
    forall d
      ensures EntryDiffers(start, now, d)
        <==> (EntryDiffers(mid, now, d) || EntryDiffers(was, mid, d) || EntryDiffers(start, was, d))
    {
      if d in now {
        EntryFlags(start, was, mid, now, gone, hop, d);
      } else {
        EntryGone(start, was, mid, now, d);
      }
    }
  }

  lemma TableAfter(was: map<RouterId, RibEntry>, mid: map<RouterId, RibEntry>, now: map<RouterId, RibEntry>, hop: RouterId)
    requires TableOf(mid) == WithoutHop(TableOf(was), hop) && TableOf(now) == Reachable(TableOf(mid))
    ensures now.Keys <= mid.Keys == was.Keys
    ensures forall d :: d in now ==> now[d].costs == mid[d].costs == was[d].costs - {hop}
  {
    hide Reaches;
    assert TableOf(now).Keys == now.Keys && TableOf(mid).Keys == mid.Keys && TableOf(was).Keys == was.Keys;
    forall d | d in now ensures now[d].costs == mid[d].costs == was[d].costs - {hop} {
      assert now[d].costs == TableOf(now)[d] == TableOf(mid)[d] == mid[d].costs;
    }
  }

  lemma EntryFlags(start: map<RouterId, RibEntry>, was: map<RouterId, RibEntry>, mid: map<RouterId, RibEntry>,
                   now: map<RouterId, RibEntry>, gone: set<RouterId>, hop: RouterId, d: RouterId)
    requires d in start && d in was && d in mid && d in now
    requires Accurate(start[d]) && Accurate(was[d]) && Accurate(mid[d]) && Accurate(now[d])
    requires was[d].costs == start[d].costs - gone && mid[d].costs == now[d].costs == start[d].costs - (gone + {hop})
    ensures EntryDiffers(start, now, d)
      <==> (EntryDiffers(mid, now, d) || EntryDiffers(was, mid, d) || EntryDiffers(start, was, d))
  {
    hide Accurate;
    BestOfSame(mid[d], now[d]);
    if start[d].best == now[d].best {
      EntryBetween(start[d], was[d], now[d], gone, gone + {hop});
    }
  }

  lemma EntryGone(start: map<RouterId, RibEntry>, was: map<RouterId, RibEntry>, mid: map<RouterId, RibEntry>,
                  now: map<RouterId, RibEntry>, d: RouterId)
    requires d !in now && was.Keys <= start.Keys && mid.Keys == was.Keys
    ensures EntryDiffers(start, now, d)
      <==> (EntryDiffers(mid, now, d) || EntryDiffers(was, mid, d) || EntryDiffers(start, was, d))
  {
  }

  lemma BestOfSame(e: RibEntry, f: RibEntry)
    requires Accurate(e) && Accurate(f) && e.costs == f.costs
    ensures e.best == f.best
  {
    BestTwoUnique(e.costs, e.costs.Keys, e.best, f.best);
  }

  function RemovedAll(t: Table, dead: seq<RouterId>): Table {
    if dead == [] then t else Removed(RemovedAll(t, dead[..|dead| - 1]), dead[|dead| - 1])
  }

  /** Losing neighbours one after the other empties exactly their columns. */
  lemma {:induction false} RemovedAllCosts(t: Table, dead: seq<RouterId>)
    requires WellFormed(t)
    ensures WellFormed(RemovedAll(t, dead))
    ensures forall d, h :: Cost(RemovedAll(t, dead), d, h) == if h in dead then COST_INFINITY else Cost(t, d, h)
  {
    hide Removed, WellFormed, Cost;
    if dead != [] {
      var rest, n := dead[..|dead| - 1], dead[|dead| - 1];
      RemovedAllCosts(t, rest);
      RemovedCosts(RemovedAll(t, rest), n);
      assert forall h :: h in dead <==> h in rest || h == n by { assert dead == rest + [n]; }
    }
  }

  lemma ListedByCost(entries: map<RouterId, RibEntry>)
    requires WellFormed(TableOf(entries))
    ensures forall d :: d in entries <==> exists h :: Cost(TableOf(entries), d, h) < COST_INFINITY
  {
    forall d | d in entries ensures exists h :: Cost(TableOf(entries), d, h) < COST_INFINITY {
      assert Reaches(TableOf(entries)[d]);
      var h :| h in TableOf(entries)[d] && TableOf(entries)[d][h] < COST_INFINITY;
      assert Cost(TableOf(entries), d, h) < COST_INFINITY;
    }
  }

  lemma NotListedBefore(adv: seq<AdvEntry>, i: nat)
    requires DistinctDestinations(adv) && i < |adv|
    ensures !Lists(adv[..i], adv[i].destination)
  {
  }

  lemma NoneTouched(was: map<RouterId, RibEntry>, now: map<RouterId, RibEntry>)
    requires forall d :: d in now ==> now[d].dirty
    ensures !AnyTouched(was, now)
  {
  }

  lemma NothingListed()
    ensures forall d :: !Lists([], d)
  {
  }

  lemma AccurateAdvertises(d: RouterId, e: RibEntry)
    requires Accurate(e)
    ensures Advertises(e.costs, AdvEntry(d, e.best.hop1, e.best.cost1, e.best.cost2))
  {
  }

  // ----- The dirty flag -----

  /** During updateRib: dirty entries still hold their old best hops and the reset column, clean
      ones have been given a cost through `from`. */
  ghost predicate MidUpdate(was: map<RouterId, RibEntry>, now: map<RouterId, RibEntry>, from: RouterId) {
    && was.Keys <= now.Keys && Coherent(now)
    && (forall d :: d in now && now[d].dirty ==>
          d in was && now[d].best == was[d].best && from in now[d].costs && !Live(now[d].costs, from))
    && (forall d :: d in now && !now[d].dirty ==> Live(now[d].costs, from))
  }

  /** A refreshed entry that is new or differs from before. */
  predicate Touched(was: map<RouterId, RibEntry>, now: map<RouterId, RibEntry>, d: RouterId) {
    d in now && !now[d].dirty && (d !in was || now[d].best != was[d].best)
  }

  ghost predicate AnyTouched(was: map<RouterId, RibEntry>, now: map<RouterId, RibEntry>) {
    exists d :: Touched(was, now, d)
  }

  lemma MidStep(was: map<RouterId, RibEntry>, mid: map<RouterId, RibEntry>, now: map<RouterId, RibEntry>,
                d: RouterId, from: RouterId, cost: nat)
    requires MidUpdate(was, mid, from) && Coherent(now) && cost < COST_INFINITY
    requires d in now && now == mid[d := now[d]] && !now[d].dirty
    requires now[d].costs == EntryCosts(mid, d)[from := cost]
    ensures MidUpdate(was, now, from)
    ensures AnyTouched(was, now) ==> AnyTouched(was, mid) || d !in was || now[d].best != was[d].best
    ensures AnyTouched(was, now) ==> AnyTouched(was, mid) || d !in mid || now[d].best != mid[d].best
    ensures d !in mid || mid[d].dirty ==>
      (AnyTouched(was, now) <==> AnyTouched(was, mid) || d !in was || now[d].best != was[d].best)
  {
    hide Accurate, AnyTouched, Coherent;
    TouchedStep(was, mid, now, d);
  }

  lemma TouchedStep(was: map<RouterId, RibEntry>, mid: map<RouterId, RibEntry>, now: map<RouterId, RibEntry>, d: RouterId)
    requires d in now && now == mid[d := now[d]] && !now[d].dirty
    requires d in mid && mid[d].dirty ==> d in was && mid[d].best == was[d].best
    ensures AnyTouched(was, now) ==> AnyTouched(was, mid) || d !in was || now[d].best != was[d].best
    ensures AnyTouched(was, now) ==> AnyTouched(was, mid) || d !in mid || now[d].best != mid[d].best
    ensures d !in mid || mid[d].dirty ==>
      (AnyTouched(was, now) <==> AnyTouched(was, mid) || d !in was || now[d].best != was[d].best)
  {
    forall x | x != d
      ensures Touched(was, now, x) <==> Touched(was, mid, x)
    {
    }
    assert Touched(was, now, d) <==> d !in was || now[d].best != was[d].best;
    if AnyTouched(was, now) {
      var x :| Touched(was, now, x);
      assert x != d ==> Touched(was, mid, x);
      assert x == d && d in mid ==> mid[d].dirty || now[d].best != mid[d].best || Touched(was, mid, d);
    }
    if AnyTouched(was, mid) && (d !in mid || mid[d].dirty) {
      var x :| Touched(was, mid, x);
      assert Touched(was, now, x);
    }
  }

  /** The flag is raised exactly if an entry already visited differs. */
  ghost predicate FlagOk(was: map<RouterId, RibEntry>, now: map<RouterId, RibEntry>, todo: set<RouterId>, flag: bool) {
    flag <==> exists d :: d !in todo && EntryDiffers(was, now, d)
  }

  lemma FlagStep(was: map<RouterId, RibEntry>, mid: map<RouterId, RibEntry>, todo: set<RouterId>, flag: bool,
                 now: map<RouterId, RibEntry>, d: RouterId, flag': bool)
    requires d in todo && FlagOk(was, mid, todo, flag)
    requires d in was && d in mid && (now == mid - {d} || (d in now && now == mid[d := now[d]]))
    requires flag' <==> flag || d !in now || now[d].best != was[d].best
    ensures FlagOk(was, now, todo - {d}, flag')
  {
    forall x | x != d
      ensures EntryDiffers(was, now, x) <==> EntryDiffers(was, mid, x)
    {
    }
    assert EntryDiffers(was, now, d) <==> d !in now || now[d].best != was[d].best;
  }

  lemma PrunedTable(was: map<RouterId, RibEntry>, now: map<RouterId, RibEntry>)
    requires now.Keys <= was.Keys
    requires forall d :: d in now ==> now[d].costs == was[d].costs && Reaches(now[d].costs)
    requires forall d :: d in was && d !in now ==> !Reaches(was[d].costs)
    ensures TableOf(now) == Reachable(TableOf(was))
  {
    hide Reaches;
  }

  lemma WithoutHopTable(was: map<RouterId, RibEntry>, now: map<RouterId, RibEntry>, hop: RouterId)
    requires now.Keys == was.Keys && forall d :: d in now ==> now[d].costs == was[d].costs - {hop}
    ensures TableOf(now) == WithoutHop(TableOf(was), hop)
  {
  }

  lemma NoDifference(entries: map<RouterId, RibEntry>, todo: set<RouterId>)
    ensures FlagOk(entries, entries, todo, false)
  {
  }

  lemma AllDiffers(was: map<RouterId, RibEntry>, now: map<RouterId, RibEntry>, flag: bool)
    requires FlagOk(was, now, {}, flag)
    ensures flag <==> AdvertDiffers(was, now)
  {
  }

  lemma FlagAfterPrune(was: map<RouterId, RibEntry>, mid: map<RouterId, RibEntry>, now: map<RouterId, RibEntry>, from: RouterId)
    requires MidUpdate(was, mid, from)
    requires TableOf(now) == Reachable(TableOf(mid)) && Coherent(now) && AllClean(now)
    ensures AdvertDiffers(was, now) <==> AdvertDiffers(mid, now) || AnyTouched(was, mid)
  {
    assert TableOf(now).Keys == now.Keys && TableOf(mid).Keys == mid.Keys;
    forall d | d in mid && !mid[d].dirty
      ensures d in now && now[d].best == mid[d].best
    {
      assert TableOf(mid)[d] == mid[d].costs && mid[d].costs[from] < COST_INFINITY;
      assert TableOf(now)[d] == now[d].costs;
      BestTwoUnique(mid[d].costs, mid[d].costs.Keys, mid[d].best, now[d].best);
    }
    FlagUnion(was, mid, now);
  }

  lemma FlagUnion(was: map<RouterId, RibEntry>, mid: map<RouterId, RibEntry>, now: map<RouterId, RibEntry>)
    requires was.Keys <= mid.Keys && now.Keys <= mid.Keys
    requires forall d :: d in mid && !mid[d].dirty ==> d in now && now[d].best == mid[d].best
    requires forall d :: d in mid && mid[d].dirty ==> d in was && mid[d].best == was[d].best
    ensures AdvertDiffers(was, now) <==> AdvertDiffers(mid, now) || AnyTouched(was, mid)
  {
    forall d
      ensures EntryDiffers(was, now, d) <==> EntryDiffers(mid, now, d) || Touched(was, mid, d)
    {
    }
  }
}
