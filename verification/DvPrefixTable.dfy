/** The prefix table of a router and its replication: dv/table/prefix_table.go.

    The local router announces and withdraws prefixes and publishes operations; remote routers
    replay them. Tables are keyed by names, whose TLV string is taken to be injective. */
module DvPrefixTable {
  import opened NdnName

  const PFX_INFINITY: nat := 0xFFFF_FFFF
  const MAX_U64: nat := 0xFFFF_FFFF_FFFF_FFFF

  datatype NextHop = NextHop(face: nat, cost: nat)

  datatype PrefixEntry = PrefixEntry(cost: nat, hops: seq<NextHop>)

  datatype PrefixAdd = PrefixAdd(name: Name, cost: nat)

  /** A published operation list. An empty `exit` stands for a missing or empty ExitRouter. */
  datatype OpList = OpList(exit: Name, reset: bool, adds: seq<PrefixAdd>, removes: seq<Name>)

  type Prefixes = map<Name, nat>

  // ----- Remote side -----

  function WithAdds(p: Prefixes, adds: seq<PrefixAdd>): Prefixes {
    if adds == [] then p
    else WithAdds(p, adds[..|adds| - 1])[adds[|adds| - 1].name := adds[|adds| - 1].cost]
  }

  function WithoutNames(p: Prefixes, names: seq<Name>): Prefixes {
    if names == [] then p else WithoutNames(p, names[..|names| - 1]) - {names[|names| - 1]}
  }

  /** The effect of an operation list on the prefixes known for its exit router. */
  function Applied(p: Prefixes, op: OpList): Prefixes {
    WithoutNames(WithAdds(if op.reset then map[] else p, op.adds), op.removes)
  }

  /** The last addition of the name is at position `i`. */
  predicate LastAdd(adds: seq<PrefixAdd>, n: Name, i: nat) {
    i < |adds| && adds[i].name == n && forall j :: i < j < |adds| ==> adds[j].name != n
  }

  lemma {:induction false} WithAddsMeans(p: Prefixes, adds: seq<PrefixAdd>, n: Name)
    ensures (forall i: nat :: !LastAdd(adds, n, i)) ==> (n in WithAdds(p, adds) <==> n in p) && (n in p ==> WithAdds(p, adds)[n] == p[n])
    ensures forall i: nat :: LastAdd(adds, n, i) ==> n in WithAdds(p, adds) && WithAdds(p, adds)[n] == adds[i].cost
  {
    if adds != [] {
      var init := adds[..|adds| - 1];
      WithAddsMeans(p, init, n);
      if adds[|init|].name == n {
        assert LastAdd(adds, n, |init|);
      } else {
        forall i: nat ensures LastAdd(adds, n, i) <==> LastAdd(init, n, i) {
          assert i < |init| ==> init[i] == adds[i];
        }
      }
    }
  }

  lemma {:induction false} WithoutNamesMeans(p: Prefixes, names: seq<Name>, n: Name)
    ensures n in WithoutNames(p, names) <==> n in p && n !in names
    ensures n in WithoutNames(p, names) ==> WithoutNames(p, names)[n] == p[n]
  {
    if names != [] {
      WithoutNamesMeans(p, names[..|names| - 1], n);
      assert names == names[..|names| - 1] + [names[|names| - 1]];
    }
  }

  /** What a router knows after an operation list: no removed name, of the added ones the last cost,
      and of the others what it knew, unless there was a reset. */
  lemma AppliedMeans(p: Prefixes, op: OpList, n: Name)
    ensures n in op.removes ==> n !in Applied(p, op)
    ensures n !in op.removes ==> forall i: nat :: LastAdd(op.adds, n, i) ==> n in Applied(p, op) && Applied(p, op)[n] == op.adds[i].cost
    ensures n !in op.removes && (forall i: nat :: !LastAdd(op.adds, n, i)) ==>
      (n in Applied(p, op) <==> n in p && !op.reset) && (n in Applied(p, op) ==> Applied(p, op)[n] == p[n])
  {
    var base := if op.reset then map[] else p;
    WithAddsMeans(base, op.adds, n);
    WithoutNamesMeans(WithAdds(base, op.adds), op.removes, n);
  }

  function Replay(p: Prefixes, log: seq<OpList>): Prefixes {
    if log == [] then p else Applied(Replay(p, log[..|log| - 1]), log[|log| - 1])
  }

  lemma {:induction false} ReplayConcat(p: Prefixes, log: seq<OpList>, more: seq<OpList>)
    ensures Replay(p, log + more) == Replay(Replay(p, log), more)
  {
    if more == [] {
      assert log + more == log;
    } else {
      assert (log + more)[..|log + more| - 1] == log + more[..|more| - 1];
      ReplayConcat(p, log, more[..|more| - 1]);
    }
  }

  ghost predicate HasReset(log: seq<OpList>) {
    exists i :: 0 <= i < |log| && log[i].reset
  }

  /** After a reset, what was known before does not matter. */
  lemma {:induction false} ReplayAfterReset(p: Prefixes, q: Prefixes, log: seq<OpList>)
    requires HasReset(log)
    ensures Replay(p, log) == Replay(q, log)
  {
    var rest, last := log[..|log| - 1], log[|log| - 1];
    if !last.reset {
      var i :| 0 <= i < |log| && log[i].reset;
      assert rest[i].reset;
      ReplayAfterReset(p, q, rest);
    }
  }

  // ----- Local side -----

  /** Least next-hop cost; the largest 64-bit number if there is no next hop. */
  function MinCost(hops: seq<NextHop>): nat {
    if hops == [] then MAX_U64
    else
      var rest, c := MinCost(hops[..|hops| - 1]), hops[|hops| - 1].cost;
      if c < rest then c else rest
  }

  lemma {:induction false} MinCostIsLeast(hops: seq<NextHop>)
    ensures forall i :: 0 <= i < |hops| ==> MinCost(hops) <= hops[i].cost
    ensures MinCost(hops) < MAX_U64 ==> exists i :: 0 <= i < |hops| && hops[i].cost == MinCost(hops)
  {
    if hops != [] {
      MinCostIsLeast(hops[..|hops| - 1]);
      assert hops[..|hops| - 1] + [hops[|hops| - 1]] == hops;
    }
  }

  predicate HasFace(hops: seq<NextHop>, face: nat) {
    exists i :: 0 <= i < |hops| && hops[i].face == face
  }

  predicate DistinctFaces(hops: seq<NextHop>) {
    forall i, j :: 0 <= i < j < |hops| ==> hops[i].face != hops[j].face
  }

  /** Everything the local router holds and has published. */
  datatype Local = Local(me: map<Name, PrefixEntry>, log: seq<OpList>)

  function Costs(me: map<Name, PrefixEntry>): Prefixes {
    map n | n in me :: me[n].cost
  }

  lemma CostsSet(me: map<Name, PrefixEntry>, name: Name, e: PrefixEntry)
    ensures Costs(me[name := e]) == Costs(me)[name := e.cost]
  {
  }

  lemma CostsDrop(me: map<Name, PrefixEntry>, name: Name)
    ensures Costs(me - {name}) == Costs(me) - {name}
  {
  }

  /** Replaying what has been published yields the local costs, which are the least announced
      costs and below infinity. */
  ghost predicate Consistent(s: Local) {
    && Replay(map[], s.log) == Costs(s.me)
    && forall n :: n in s.me ==> EntryOk(s.me[n])
  }

  ghost predicate EntryOk(e: PrefixEntry) {
    DistinctFaces(e.hops) && e.cost == MinCost(e.hops) && e.cost < PFX_INFINITY
  }

  function ResetOp(router: Name): OpList {
    OpList(router, true, [], [])
  }

  function EntryOp(router: Name, name: Name, cost: nat): OpList {
    if cost < PFX_INFINITY then OpList(router, false, [PrefixAdd(name, cost)], [])
    else OpList(router, false, [], [name])
  }

  /** The state after the next hops of `name` became `hops`, the entry having had cost `was`:
      the cost is recomputed, published if it changed, and the entry dropped if unreachable. */
  function Recosted(s: Local, router: Name, name: Name, was: nat, hops: seq<NextHop>): Local {
    var cost := MinCost(hops);
    if cost == was then s.(me := s.me[name := PrefixEntry(was, hops)])
    else Local(if cost < PFX_INFINITY then s.me[name := PrefixEntry(cost, hops)] else s.me - {name},
               s.log + [EntryOp(router, name, cost)])
  }

  function WithHop(hops: seq<NextHop>, h: NextHop): seq<NextHop> {
    if hops == [] then [h]
    else if hops[0].face == h.face then [h] + hops[1..]
    else [hops[0]] + WithHop(hops[1..], h)
  }

  function WithoutHop(hops: seq<NextHop>, face: nat): seq<NextHop> {
    if hops == [] then []
    else if hops[0].face == face then hops[1..]
    else [hops[0]] + WithoutHop(hops[1..], face)
  }

  function Announced(s: Local, router: Name, name: Name, face: nat, cost: nat): Local {
    var e := if name in s.me then s.me[name] else PrefixEntry(PFX_INFINITY, []);
    Recosted(s, router, name, e.cost, WithHop(e.hops, NextHop(face, cost)))
  }

  function Withdrawn(s: Local, router: Name, name: Name, face: nat): Local {
    if name in s.me then Recosted(s, router, name, s.me[name].cost, WithoutHop(s.me[name].hops, face)) else s
  }

  function WasReset(s: Local, router: Name): Local {
    Local(map[], s.log + [ResetOp(router)])
  }

  /** Announcing replaces the cost of that face and of no other. */
  lemma {:induction false} WithHopHops(hops: seq<NextHop>, h: NextHop)
    requires DistinctFaces(hops)
    ensures DistinctFaces(WithHop(hops, h))
    ensures forall x :: x in WithHop(hops, h) <==> x == h || (x in hops && x.face != h.face)
  {
    if hops != [] && hops[0].face == h.face {
      assert forall x :: x in hops <==> x == hops[0] || x in hops[1..];
      forall x | x in hops[1..] ensures x.face != h.face {
        var i :| 0 <= i < |hops[1..]| && hops[1..][i] == x;
        assert hops[i + 1].face != hops[0].face;
      }
    } else if hops != [] {
      var rest := hops[1..];
      WithHopHops(rest, h);
      assert forall x :: x in hops <==> x == hops[0] || x in rest;
      var r := WithHop(rest, h);
      forall j | 0 <= j < |r| ensures r[j].face != hops[0].face {
        assert r[j] in r;
        if r[j] in rest {
          var i :| 0 <= i < |rest| && rest[i] == r[j];
          assert hops[i + 1].face != hops[0].face;
        }
      }
    }
  }

  lemma {:induction false} WithoutHopHops(hops: seq<NextHop>, face: nat)
    requires DistinctFaces(hops)
    ensures DistinctFaces(WithoutHop(hops, face))
    ensures forall x :: x in WithoutHop(hops, face) <==> x in hops && x.face != face
  {
    if hops != [] {
      var rest := hops[1..];
      assert forall x :: x in hops <==> x == hops[0] || x in rest;
      forall x | x in rest ensures x.face != hops[0].face {
        var i :| 0 <= i < |rest| && rest[i] == x;
        assert hops[i + 1].face != hops[0].face;
      }
      if hops[0].face != face {
        WithoutHopHops(rest, face);
        var r := WithoutHop(rest, face);
        forall j | 0 <= j < |r| ensures r[j].face != hops[0].face { assert r[j] in rest; }
      }
    }
  }

  lemma ReplayAppend(p: Prefixes, log: seq<OpList>, op: OpList)
    ensures Replay(p, log + [op]) == Applied(Replay(p, log), op)
  {
    assert (log + [op])[..|log|] == log;
  }

  lemma AppliedEntryOp(p: Prefixes, router: Name, name: Name, cost: nat)
    ensures Applied(p, EntryOp(router, name, cost)) == if cost < PFX_INFINITY then p[name := cost] else p - {name}
  {
    if cost < PFX_INFINITY {
      var adds := [PrefixAdd(name, cost)];
      assert adds[..0] == [];
      assert WithAdds(p, adds) == p[name := cost];
    } else {
      assert [name][..0] == [];
      assert WithoutNames(p, [name]) == p - {name};
    }
  }

  /** Recomputing a cost keeps the published log in step, unless the entry had never been
      published and its cost is exactly the infinity value. */
  lemma RecostedConsistent(s: Local, router: Name, name: Name, was: nat, hops: seq<NextHop>)
    requires Consistent(s) && DistinctFaces(hops)
    requires was == if name in s.me then s.me[name].cost else PFX_INFINITY
    ensures Consistent(Recosted(s, router, name, was, hops)) <==> !(name !in s.me && MinCost(hops) == PFX_INFINITY)
  {
    hide Replay, MinCost, EntryOp, Applied, DistinctFaces, Costs;
    var cost := MinCost(hops);
    var s' := Recosted(s, router, name, was, hops);
    if cost == was {
      CostsSet(s.me, name, PrefixEntry(was, hops));
      if name in s.me {
        assert Costs(s.me)[name := was] == Costs(s.me) by { CostsKeep(s.me, name); }
      } else {
        assert !EntryOk(s'.me[name]);
      }
    } else {
      ReplayAppend(map[], s.log, EntryOp(router, name, cost));
      AppliedEntryOp(Costs(s.me), router, name, cost);
      CostsSet(s.me, name, PrefixEntry(cost, hops));
      CostsDrop(s.me, name);
    }
  }

  lemma CostsKeep(me: map<Name, PrefixEntry>, name: Name)
    requires name in me
    ensures Costs(me)[name := me[name].cost] == Costs(me)
  {
  }

  /** Announce keeps log and table in step exactly if it does not announce an unknown prefix at
      the infinity value: that entry is stored but never published. */
  lemma AnnouncedConsistent(s: Local, router: Name, name: Name, face: nat, cost: nat)
    requires Consistent(s) && cost <= MAX_U64
    ensures Consistent(Announced(s, router, name, face, cost)) <==> !(name !in s.me && cost == PFX_INFINITY)
  {
    var e := if name in s.me then s.me[name] else PrefixEntry(PFX_INFINITY, []);
    var hops := WithHop(e.hops, NextHop(face, cost));
    WithHopHops(e.hops, NextHop(face, cost));
    if name !in s.me {
      assert hops == [NextHop(face, cost)] && hops[..0] == [];
      assert MinCost(hops[..0]) == MAX_U64;
      assert MinCost(hops) == cost;
    }
    RecostedConsistent(s, router, name, e.cost, hops);
  }

  lemma WithdrawnConsistent(s: Local, router: Name, name: Name, face: nat)
    requires Consistent(s)
    ensures Consistent(Withdrawn(s, router, name, face))
  {
    if name in s.me {
      WithoutHopHops(s.me[name].hops, face);
      RecostedConsistent(s, router, name, s.me[name].cost, WithoutHop(s.me[name].hops, face));
    }
  }

  lemma ResetConsistent(s: Local, router: Name)
    ensures Consistent(WasReset(s, router))
  {
    ReplayAppend(map[], s.log, ResetOp(router));
    assert WithAdds(map[], []) == map[];
  }

  // ----- Runs -----

  datatype Request = Reset | Announce(name: Name, face: nat, cost: nat) | Withdraw(name: Name, face: nat)

  function Handle(s: Local, router: Name, q: Request): Local {
    match q
    case Reset => WasReset(s, router)
    case Announce(name, face, cost) => Announced(s, router, name, face, cost)
    case Withdraw(name, face) => Withdrawn(s, router, name, face)
  }

  function Run(router: Name, qs: seq<Request>): Local {
    if qs == [] then Local(map[], []) else Handle(Run(router, qs[..|qs| - 1]), router, qs[|qs| - 1])
  }

  /** No request announces exactly the infinity value. */
  predicate Usable(qs: seq<Request>) {
    forall i :: 0 <= i < |qs| && qs[i].Announce? ==> qs[i].cost <= MAX_U64 && qs[i].cost != PFX_INFINITY
  }

  lemma {:induction false} RunConsistent(router: Name, qs: seq<Request>)
    requires Usable(qs)
    ensures Consistent(Run(router, qs))
  {
    if qs != [] {
      var rest, q := qs[..|qs| - 1], qs[|qs| - 1];
      RunConsistent(router, rest);
      var s := Run(router, rest);
      match q
      case Reset => ResetConsistent(s, router);
      case Announce(name, face, cost) => AnnouncedConsistent(s, router, name, face, cost);
      case Withdraw(name, face) => WithdrawnConsistent(s, router, name, face);
    }
  }

  /** The excluded value does break replication: the announced prefix is stored, so a snapshot
      would carry it, but it is never published. */
  lemma InfinityIsNotPublished(router: Name, name: Name, face: nat)
    ensures var s := Run(router, [Announce(name, face, PFX_INFINITY)]);
      s.log == [] && Costs(s.me) == map[name := PFX_INFINITY] && !Consistent(s)
  {
    var qs := [Announce(name, face, PFX_INFINITY)];
    assert qs[..0] == [];
    var start := Run(router, qs[..0]);
    assert start == Local(map[], []);
    var hops := [NextHop(face, PFX_INFINITY)];
    assert hops[..0] == [] && MinCost(hops[..0]) == MAX_U64 && MinCost(hops) == PFX_INFINITY;
    assert Run(router, qs) == Announced(start, router, name, face, PFX_INFINITY);
  }

  // ----- What the replicated map means -----

  /** The cost at which a face announces a name after the requests; MAX_U64 if it does not. */
  function CurrentCost(qs: seq<Request>, name: Name, face: nat): nat {
    if qs == [] then MAX_U64
    else
      match qs[|qs| - 1]
      case Reset => MAX_U64
      case Announce(n, f, c) => if n == name && f == face then c else CurrentCost(qs[..|qs| - 1], name, face)
      case Withdraw(n, f) => if n == name && f == face then MAX_U64 else CurrentCost(qs[..|qs| - 1], name, face)
  }

  /** Stored hops are current, and no current cost below infinity is missing. */
  ghost predicate Tracks(me: map<Name, PrefixEntry>, qs: seq<Request>, name: Name) {
    && (name in me ==> forall h :: h in me[name].hops ==> h.cost == CurrentCost(qs, name, h.face))
    && (forall f: nat :: CurrentCost(qs, name, f) < PFX_INFINITY ==>
          name in me && NextHop(f, CurrentCost(qs, name, f)) in me[name].hops)
  }

  lemma RecostedTracks(s: Local, router: Name, name: Name, was: nat, hops: seq<NextHop>, qs: seq<Request>)
    requires forall h :: h in hops ==> h.cost == CurrentCost(qs, name, h.face)
    requires forall f: nat :: CurrentCost(qs, name, f) < PFX_INFINITY ==> NextHop(f, CurrentCost(qs, name, f)) in hops
    ensures Tracks(Recosted(s, router, name, was, hops).me, qs, name)
  {
    MinCostIsLeast(hops);
    forall f: nat | CurrentCost(qs, name, f) < PFX_INFINITY ensures MinCost(hops) < PFX_INFINITY {
      var i :| 0 <= i < |hops| && hops[i] == NextHop(f, CurrentCost(qs, name, f));
    }
  }

  lemma TracksStep(s: Local, router: Name, rest: seq<Request>, q: Request, name: Name)
    requires Consistent(s) && Tracks(s.me, rest, name)
    ensures Tracks(Handle(s, router, q).me, rest + [q], name)
  {
    var qs := rest + [q];
    assert qs[..|rest|] == rest;
    if q.Reset? {
    } else if q.name != name || (q.Withdraw? && name !in s.me) {
      var me' := Handle(s, router, q).me;
      assert (name in me' <==> name in s.me) && (name in me' ==> me'[name] == s.me[name]);
      TracksSame(s.me, me', rest, qs, name);
    } else {
      hide Recosted;
      var hops := if name in s.me then s.me[name].hops else [];
      if q.Announce? {
        WithHopHops(hops, NextHop(q.face, q.cost));
        RecostedTracks(s, router, name, if name in s.me then s.me[name].cost else PFX_INFINITY,
                       WithHop(hops, NextHop(q.face, q.cost)), qs);
      } else {
        WithoutHopHops(hops, q.face);
        RecostedTracks(s, router, name, s.me[name].cost, WithoutHop(hops, q.face), qs);
      }
    }
  }

  lemma TracksSame(me: map<Name, PrefixEntry>, me': map<Name, PrefixEntry>, qs: seq<Request>, qs': seq<Request>, name: Name)
    requires Tracks(me, qs, name) && (name in me' <==> name in me) && (name in me ==> me'[name] == me[name])
    requires forall f: nat :: CurrentCost(qs', name, f) == CurrentCost(qs, name, f) || (CurrentCost(qs', name, f) == MAX_U64 && name !in me)
    ensures Tracks(me', qs', name)
  {
  }

  lemma {:induction false} RunTracks(router: Name, qs: seq<Request>, name: Name)
    requires Usable(qs)
    ensures Tracks(Run(router, qs).me, qs, name)
  {
    hide Tracks, Consistent, Handle;
    if qs == [] {
      assert Tracks(map[], [], name) by { TracksNothing(name); }
    } else {
      var rest, q := qs[..|qs| - 1], qs[|qs| - 1];
      RunTracks(router, rest, name);
      RunConsistent(router, rest);
      TracksStep(Run(router, rest), router, rest, q, name);
      assert rest + [q] == qs;
    }
  }

  lemma TracksNothing(name: Name)
    ensures Tracks(map[], [], name)
  {
  }

  /** A prefix is replicated exactly if some face currently announces it below infinity, and its
      cost is the least such cost. */
  lemma ReplicatedMeaning(router: Name, qs: seq<Request>, name: Name)
    requires Usable(qs)
    ensures IsLeastCurrent(Replay(map[], Run(router, qs).log), qs, name)
  {
    hide Run, Replay, IsLeastCurrent, Tracks, EntryOk;
    RunConsistent(router, qs);
    RunTracks(router, qs, name);
    TrackedMeaning(Run(router, qs).me, qs, name);
  }

  ghost predicate IsLeastCurrent(costs: Prefixes, qs: seq<Request>, name: Name) {
    && (name in costs <==> exists f: nat :: CurrentCost(qs, name, f) < PFX_INFINITY)
    && (name in costs ==> exists f: nat :: CurrentCost(qs, name, f) == costs[name])
    && (name in costs ==> forall f: nat :: costs[name] <= CurrentCost(qs, name, f))
  }

  lemma TrackedMeaning(me: map<Name, PrefixEntry>, qs: seq<Request>, name: Name)
    requires Tracks(me, qs, name) && (name in me ==> EntryOk(me[name]))
    ensures IsLeastCurrent(Costs(me), qs, name)
  {
    if name in me {
      var hops := me[name].hops;
      MinCostIsLeast(hops);
      var i :| 0 <= i < |hops| && hops[i].cost == me[name].cost;
      assert hops[i] in hops;
      forall f: nat ensures me[name].cost <= CurrentCost(qs, name, f) {
        if CurrentCost(qs, name, f) < PFX_INFINITY {
          var j :| 0 <= j < |hops| && hops[j] == NextHop(f, CurrentCost(qs, name, f));
        }
      }
    }
  }

  /** The log only grows. */
  lemma {:induction false} RunLogGrows(router: Name, qs: seq<Request>, k: nat)
    requires k <= |qs|
    ensures Run(router, qs[..k]).log <= Run(router, qs).log
    decreases |qs|
  {
    if k < |qs| {
      var rest := qs[..|qs| - 1];
      assert rest[..k] == qs[..k];
      RunLogGrows(router, rest, k);
    } else {
      assert qs[..k] == qs;
    }
  }

  /** Every published operation list names its router. */
  ghost predicate AllFrom(log: seq<OpList>, router: Name) {
    forall i :: 0 <= i < |log| ==> log[i].exit == router
  }

  lemma {:induction false} RunNamesRouter(router: Name, qs: seq<Request>)
    ensures AllFrom(Run(router, qs).log, router)
  {
    if qs != [] {
      RunNamesRouter(router, qs[..|qs| - 1]);
    }
  }

  /** Replication: a remote router that replays the published operations from a reset on holds
      exactly the local costs, whatever it knew before. */
  lemma Replication(router: Name, qs: seq<Request>, before: Prefixes)
    requires Usable(qs) && HasReset(Run(router, qs).log)
    ensures Replay(before, Run(router, qs).log) == Costs(Run(router, qs).me)
  {
    RunConsistent(router, qs);
    ReplayAfterReset(before, map[], Run(router, qs).log);
  }

  /** A snapshot taken after the first `k` requests stands for everything published until then. */
  ghost predicate IsSnapshot(s: Local, router: Name, op: OpList) {
    op.exit == router && forall p: Prefixes :: Applied(p, op) == Costs(s.me)
  }

  lemma SnapshotReplacesHistory(router: Name, qs: seq<Request>, k: nat, snap: OpList, before: Prefixes)
    requires Usable(qs) && k <= |qs| && IsSnapshot(Run(router, qs[..k]), router, snap)
    ensures Run(router, qs[..k]).log <= Run(router, qs).log
    ensures var later := Run(router, qs).log[|Run(router, qs[..k]).log|..];
      Replay(before, [snap] + later) == Costs(Run(router, qs).me)
  {
    RunLogGrows(router, qs, k);
    RunConsistent(router, qs);
    RunConsistent(router, qs[..k]);
    var early, log := Run(router, qs[..k]).log, Run(router, qs).log;
    var later := log[|early|..];
    assert log == early + later;
    ReplayConcat(map[], early, later);
    ReplayConcat(before, [snap], later);
    assert [snap][..0] == [] && Replay(before, [snap]) == Applied(before, snap);
  }

  // ----- The table object -----

  function Known(remote: map<Name, Prefixes>, router: Name): Prefixes {
    if router in remote then remote[router] else map[]
  }

  /** Entries learnt from the network carry no next hops. */
  function AsEntries(p: Prefixes): map<Name, PrefixEntry> {
    map n | n in p :: PrefixEntry(p[n], [])
  }

  lemma AsEntriesCosts(p: Prefixes)
    ensures Costs(AsEntries(p)) == p
  {
  }

  lemma CostsNone()
    ensures Costs(map[]) == map[]
  {
  }

  /** The loop of Announce that stores a next hop. */
  method SetHop(hops: seq<NextHop>, h: NextHop) returns (r: seq<NextHop>)
    ensures r == WithHop(hops, h)
  {
    for i := 0 to |hops|
      invariant hops[..i] + WithHop(hops[i..], h) == WithHop(hops, h)
    {
      if hops[i].face == h.face {
        assert hops[..i] + ([h] + hops[i..][1..]) == hops[i := h];
        return hops[i := h];
      }
      assert hops[i..][1..] == hops[i + 1..] && hops[..i] + [hops[i]] == hops[..i + 1];
    }
    assert hops[..|hops|] == hops;
    r := hops + [h];
  }

  /** The loop of Withdraw that deletes a next hop. */
  method DeleteHop(hops: seq<NextHop>, face: nat) returns (r: seq<NextHop>)
    ensures r == WithoutHop(hops, face)
  {
    for i := 0 to |hops|
      invariant hops[..i] + WithoutHop(hops[i..], face) == WithoutHop(hops, face)
    {
      if hops[i].face == face {
        assert hops[..i] + hops[i..][1..] == hops[..i] + hops[i + 1..];
        return hops[..i] + hops[i + 1..];
      }
      assert hops[i..][1..] == hops[i + 1..] && hops[..i] + [hops[i]] == hops[..i + 1];
    }
    assert hops[..|hops|] == hops;
    r := hops;
  }

  /** The loops of Apply over the prefixes of one router. */
  method ApplyOps(p0: map<Name, PrefixEntry>, op: OpList) returns (p: map<Name, PrefixEntry>, dirty: bool)
    ensures Costs(p) == Applied(Costs(p0), op)
    ensures dirty <==> op.reset || op.adds != [] || op.removes != []
  {
    hide Costs;
    p, dirty := p0, false;
    if op.reset {
      p := map[];
      dirty := true;
    }
    CostsNone();
    ghost var base := Costs(p);
    for i := 0 to |op.adds|
      invariant Costs(p) == WithAdds(base, op.adds[..i])
      invariant dirty <==> op.reset || i > 0
    {
      assert op.adds[..i + 1][..i] == op.adds[..i];
      CostsSet(p, op.adds[i].name, PrefixEntry(op.adds[i].cost, []));
      p := p[op.adds[i].name := PrefixEntry(op.adds[i].cost, [])];
      dirty := true;
    }
    assert op.adds[..|op.adds|] == op.adds;
    for i := 0 to |op.removes|
      invariant Costs(p) == WithoutNames(WithAdds(base, op.adds), op.removes[..i])
      invariant dirty <==> op.reset || op.adds != [] || i > 0
    {
      assert op.removes[..i + 1][..i] == op.removes[..i];
      CostsDrop(p, op.removes[i]);
      p := p - {op.removes[i]};
      dirty := true;
    }
    assert op.removes[..|op.removes|] == op.removes;
  }

  class PrefixTable {
    const router: Name
    var me: map<Name, PrefixEntry>
    /** Prefixes learnt from other routers. */
    var remote: map<Name, Prefixes>
    var published: seq<OpList>

    ghost function State(): Local
      reads this
    {
      Local(me, published)
    }

    constructor (router: Name)
      ensures this.router == router && State() == Local(map[], []) && remote == map[]
    {
      this.router := router;
      me, remote, published := map[], map[], [];
    }

    /** Reset */
    method Reset()
      modifies this
      ensures State() == WasReset(old(State()), router) && remote == old(remote)
    {
      me := map[];
      published := published + [OpList(router, true, [], [])];
    }

    /** computeCost and publishEntry: `was` is the cost stored in the entry. */
    method Recost(name: Name)
      requires name in me
      modifies this
      ensures remote == old(remote)
      ensures State() == Recosted(Local(old(me), old(published)), router, name, old(me)[name].cost, old(me)[name].hops)
      ensures var cost := MinCost(old(me)[name].hops);
        published == old(published) + (if cost == old(me)[name].cost then []
                                       else if cost < 0xFFFF_FFFF then [OpList(router, false, [PrefixAdd(name, cost)], [])]
                                       else [OpList(router, false, [], [name])])
    {
      var e := me[name];
      var cost := MAX_U64;
      for i := 0 to |e.hops|
        invariant cost == MinCost(e.hops[..i])
      {
        assert e.hops[..i + 1][..i] == e.hops[..i];
        if e.hops[i].cost < cost {
          cost := e.hops[i].cost;
        }
      }
      assert e.hops[..|e.hops|] == e.hops;
      if cost == e.cost {
        assert me[name := e] == me;
        return;
      }
      me := me[name := e.(cost := cost)];
      if cost < PFX_INFINITY {
        published := published + [OpList(router, false, [PrefixAdd(name, cost)], [])];
      } else {
        published := published + [OpList(router, false, [], [name])];
        me := me - {name};
      }
    }

    /** Announce */
    method Announce(name: Name, face: nat, cost: nat)
      modifies this
      ensures State() == Announced(old(State()), router, name, face, cost) && remote == old(remote)
      ensures old(published) <= published && |published| <= |old(published)| + 1
      ensures |published| > |old(published)| ==> published[|old(published)|].exit == router && !published[|old(published)|].reset
      ensures forall n :: n != name ==> (n in me <==> n in old(me)) && (n in me ==> me[n] == old(me)[n])
    {
      hide MinCost;
      if name !in me {
        me := me[name := PrefixEntry(PFX_INFINITY, [])];
      }
      var hops := SetHop(me[name].hops, NextHop(face, cost));
      me := me[name := me[name].(hops := hops)];
      Recost(name);
      assert old(me)[name := PrefixEntry(0, hops)] - {name} == old(me) - {name};
    }

    /** Withdraw */
    method Withdraw(name: Name, face: nat)
      modifies this
      ensures State() == Withdrawn(old(State()), router, name, face) && remote == old(remote)
      ensures old(published) <= published && |published| <= |old(published)| + 1
      ensures |published| > |old(published)| ==> published[|old(published)|].exit == router && !published[|old(published)|].reset
      ensures forall n :: n != name ==> (n in me <==> n in old(me)) && (n in me ==> me[n] == old(me)[n])
    {
      hide MinCost;
      if name !in me {
        return;
      }
      var hops := DeleteHop(me[name].hops, face);
      me := me[name := me[name].(hops := hops)];
      Recost(name);
      assert old(me)[name := PrefixEntry(0, hops)] - {name} == old(me) - {name};
    }

    /** One request of a run. */
    method Do(q: Request)
      modifies this
      ensures State() == Handle(old(State()), router, q) && remote == old(remote)
    {
      match q
      case Reset => Reset();
      case Announce(name, face, cost) => Announce(name, face, cost);
      case Withdraw(name, face) => Withdraw(name, face);
    }

    /** Snap */
    method Snap() returns (op: OpList)
      ensures IsSnapshot(State(), router, op)
    {
      hide Costs;
      CostsNone();
      assert me - me.Keys == map[];
      var adds: seq<PrefixAdd> := [];
      var todo := me.Keys;
      while todo != {}
        invariant todo <= me.Keys
        invariant WithAdds(map[], adds) == Costs(me - todo)
        decreases todo
      {
        var n :| n in todo;
        CostsSet(me - todo, n, me[n]);
        assert (me - todo)[n := me[n]] == me - (todo - {n});
        assert (adds + [PrefixAdd(n, me[n].cost)])[..|adds|] == adds;
        adds := adds + [PrefixAdd(n, me[n].cost)];
        todo := todo - {n};
      }
      op := OpList(router, true, adds, []);
      assert me - {} == me;
    }

    /** Apply: what a received operation list does to the table. */
    method Apply(op: OpList) returns (dirty: bool)
      modifies this
      ensures published == old(published)
      ensures dirty <==> op.exit != [] && (op.reset || op.adds != [] || op.removes != [])
      ensures op.exit == [] ==> me == old(me) && remote == old(remote)
      ensures op.exit != router ==> me == old(me)
      ensures op.exit != [] && op.exit != router ==> remote == old(remote)[op.exit := Applied(Known(old(remote), op.exit), op)]
      ensures op.exit != [] && op.exit == router ==> remote == old(remote) && Costs(me) == Applied(Costs(old(me)), op)
    {
      if op.exit == [] {
        return false;
      }
      hide Applied;
      AsEntriesCosts(Known(remote, op.exit));
      var p := if op.exit == router then me else AsEntries(Known(remote, op.exit));
      p, dirty := ApplyOps(p, op);
      if op.exit == router {
        me := p;
      } else {
        remote := remote[op.exit := Costs(p)];
      }
    }
  }

  // ----- From table to table -----

  /** A router that has served the requests. */
  method Serve(router: Name, qs: seq<Request>) returns (t: PrefixTable)
    ensures fresh(t) && t.router == router && t.State() == Run(router, qs)
  {
    t := new PrefixTable(router);
    assert qs[..0] == [];
    ServeFrom(t, qs, 0);
  }

  /** The requests from position `k` on. */
  method ServeFrom(t: PrefixTable, qs: seq<Request>, k: nat)
    requires k <= |qs| && t.State() == Run(t.router, qs[..k])
    modifies t
    ensures t.State() == Run(t.router, qs) && t.remote == old(t.remote)
  {
    hide Handle;
    for i := k to |qs|
      invariant t.State() == Run(t.router, qs[..i]) && t.remote == old(t.remote)
    {
      assert qs[..i + 1][..i] == qs[..i];
      t.Do(qs[i]);
    }
    assert qs[..|qs|] == qs;
  }

  /** A router that receives what another has published, in order. */
  method Receive(t: PrefixTable, router: Name, log: seq<OpList>)
    requires router != [] && t.router != router && AllFrom(log, router)
    modifies t
    ensures t.me == old(t.me) && t.published == old(t.published)
    ensures Known(t.remote, router) == Replay(Known(old(t.remote), router), log)
    ensures forall other :: other != router ==> Known(t.remote, other) == Known(old(t.remote), other)
  {
    hide Applied;
    for i := 0 to |log|
      invariant t.me == old(t.me) && t.published == old(t.published)
      invariant Known(t.remote, router) == Replay(Known(old(t.remote), router), log[..i])
      invariant forall other :: other != router ==> Known(t.remote, other) == Known(old(t.remote), other)
    {
      assert log[..i + 1][..i] == log[..i];
      var dirty := t.Apply(log[i]);
    }
    assert log[..|log|] == log;
  }

  /** Replication through the receiver: it ends with exactly the sender's costs if it knew nothing of
      the sender or a reset was published, that is, with the least current announcement of each name. */
  method Replicate(router: Name, qs: seq<Request>, receiver: PrefixTable) returns (sender: PrefixTable)
    requires router != [] && receiver.router != router && Usable(qs)
    requires Known(receiver.remote, router) == map[] || HasReset(Run(router, qs).log)
    modifies receiver
    ensures fresh(sender) && sender.State() == Run(router, qs) && receiver.me == old(receiver.me)
    ensures Known(receiver.remote, router) == Costs(sender.me)
    ensures forall name :: IsLeastCurrent(Known(receiver.remote, router), qs, name)
  {
    hide Run, Replay, IsLeastCurrent, Usable;
    RunNamesRouter(router, qs);
    sender := Serve(router, qs);
    ghost var before := Known(receiver.remote, router);
    Receive(receiver, router, sender.published);
    RunConsistent(router, qs);
    if HasReset(Run(router, qs).log) {
      Replication(router, qs, before);
    }
    forall name ensures IsLeastCurrent(Costs(sender.me), qs, name) {
      ReplicatedMeaning(router, qs, name);
    }
  }

  /** Catching up: a snapshot taken after `k` requests and the operations published since bring any
      receiver to the sender's costs, whatever it knew before. */
  method CatchUp(router: Name, qs: seq<Request>, k: nat, receiver: PrefixTable) returns (sender: PrefixTable)
    requires router != [] && receiver.router != router && Usable(qs) && k <= |qs|
    modifies receiver
    ensures fresh(sender) && sender.State() == Run(router, qs) && receiver.me == old(receiver.me)
    ensures Known(receiver.remote, router) == Costs(sender.me)
  {
    hide Run, Replay, Usable, IsSnapshot;
    RunNamesRouter(router, qs);
    RunLogGrows(router, qs, k);
    sender := Serve(router, qs[..k]);
    var snap := sender.Snap();
    SnapshotNames(sender.State(), router, snap);
    var seen := |sender.published|;
    ServeFrom(sender, qs, k);
    var later := sender.published[seen..];
    SnapshotReplacesHistory(router, qs, k, snap, Known(receiver.remote, router));
    Receive(receiver, router, [snap] + later);
  }

  lemma SnapshotNames(s: Local, router: Name, op: OpList)
    requires IsSnapshot(s, router, op)
    ensures op.exit == router
  {
  }
}
