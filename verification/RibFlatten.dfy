/** The RIB tree and its flattening into the FIB (fw/table/rib.go). Nodes are kept in one map keyed by
    their name; the FIB is known by its meaning. */
module RibFlatten {
  import opened NdnName
  import opened FibSpec
  import opened NameTree

  datatype Route = Route(face: FaceId, origin: nat, cost: nat, inherit: bool, capture: bool)

  type Routes = seq<Route>
  type Nodes = map<Name, Routes>

  function RoutesAt(nodes: Nodes, n: Name): Routes {
    Get(nodes, n, [])
  }

  // ----- What the FIB should hold -----

  /** The routes of one node that its descendants inherit: those flagged, up to the first capture. */
  function Inherited(routes: Routes): Routes {
    if routes == [] then []
    else (if routes[0].inherit then [routes[0]] else []) + if routes[0].capture then [] else Inherited(routes[1..])
  }

  /** Everything inherited at a node: a capture stops the routes of its own node only. */
  function Ancestral(nodes: Nodes, n: Name): Routes {
    Inherited(RoutesAt(nodes, n)) + if n == [] then [] else Ancestral(nodes, Parent(n))
  }

  predicate Captures(routes: Routes) {
    exists i :: 0 <= i < |routes| && routes[i].capture
  }

  function MinCosts(routes: Routes): Costs {
    if routes == [] then map[]
    else
      var costs, last := MinCosts(routes[..|routes| - 1]), routes[|routes| - 1];
      if last.face !in costs || last.cost < costs[last.face] then costs[last.face := last.cost] else costs
  }

  function Candidates(nodes: Nodes, n: Name): Routes {
    RoutesAt(nodes, n) + if Captures(RoutesAt(nodes, n)) then [] else Ancestral(nodes, n)
  }

  function Flattened(nodes: Nodes, n: Name): Costs {
    if RoutesAt(nodes, n) == [] then map[] else MinCosts(Candidates(nodes, n))
  }

  // ----- The same, said by offers -----

  /** The node inherits the route from its prefix of length `k`: flagged, and before any capture there. */
  ghost predicate InheritsFrom(nodes: Nodes, n: Name, k: nat, r: Route) {
    k <= |n| && exists i: nat :: i < |RoutesAt(nodes, n[..k])| && InheritedAt(RoutesAt(nodes, n[..k]), i, r)
  }

  ghost predicate InheritedAt(routes: Routes, i: nat, r: Route)
    requires i < |routes|
  {
    routes[i] == r && r.inherit && forall j :: 0 <= j < i ==> !routes[j].capture
  }

  /** A route that the entry of a node may use: its own, or an inherited one if it captures nothing. */
  ghost predicate Offer(nodes: Nodes, n: Name, r: Route) {
    r in RoutesAt(nodes, n) || (!Captures(RoutesAt(nodes, n)) && exists k: nat :: InheritsFrom(nodes, n, k, r))
  }

  lemma {:induction false} InheritedMeans(routes: Routes, r: Route)
    ensures r in Inherited(routes) <==> exists i: nat :: i < |routes| && InheritedAt(routes, i, r)
  {
    if routes != [] {
      var tail := routes[1..];
      InheritedMeans(tail, r);
      if i: nat :| i < |routes| && InheritedAt(routes, i, r) {
        if i > 0 {
          assert !routes[0].capture && InheritedAt(tail, i - 1, r);
        }
      }
      if !routes[0].capture {
        if i: nat :| i < |tail| && InheritedAt(tail, i, r) {
          assert InheritedAt(routes, i + 1, r);
        }
      }
      if routes[0] == r && r.inherit {
        assert InheritedAt(routes, 0, r);
      }
    }
  }

  lemma {:induction false} AncestralMeans(nodes: Nodes, n: Name, r: Route)
    ensures r in Ancestral(nodes, n) <==> exists k: nat :: InheritsFrom(nodes, n, k, r)
    decreases |n|
  {
    assert n[..|n|] == n;
    InheritedMeans(RoutesAt(nodes, n), r);
    assert r in Inherited(RoutesAt(nodes, n)) <==> InheritsFrom(nodes, n, |n|, r);
    if n != [] {
      AncestralMeans(nodes, Parent(n), r);
      forall k: nat | k < |n| ensures InheritsFrom(nodes, n, k, r) <==> InheritsFrom(nodes, Parent(n), k, r) {
        assert n[..k] == Parent(n)[..k];
      }
    }
  }

  lemma {:induction false} MinIsLeast(routes: Routes)
    ensures forall f: FaceId :: f in MinCosts(routes) ==>
      exists i :: 0 <= i < |routes| && routes[i].face == f && routes[i].cost == MinCosts(routes)[f]
    ensures forall i :: 0 <= i < |routes| ==> routes[i].face in MinCosts(routes) && MinCosts(routes)[routes[i].face] <= routes[i].cost
  {
    if routes != [] {
      var init, costs := routes[..|routes| - 1], MinCosts(routes);
      MinIsLeast(init);
      forall f: FaceId | f in costs ensures exists i :: 0 <= i < |routes| && routes[i].face == f && routes[i].cost == costs[f] {
        if f in MinCosts(init) && costs[f] == MinCosts(init)[f] {
          var i :| 0 <= i < |init| && init[i].face == f && init[i].cost == costs[f];
          assert routes[i] == init[i];
        } else {
          assert routes[|routes| - 1].face == f;
        }
      }
    }
  }

  /** The entry of a node is empty without own routes, and otherwise the least offer per face. */
  lemma FlattenedMeans(nodes: Nodes, n: Name)
    ensures RoutesAt(nodes, n) == [] ==> Flattened(nodes, n) == map[]
    ensures forall f: FaceId :: f in Flattened(nodes, n) ==>
      exists r :: Offer(nodes, n, r) && r.face == f && r.cost == Flattened(nodes, n)[f]
    ensures RoutesAt(nodes, n) != [] ==> forall r :: Offer(nodes, n, r) ==>
      r.face in Flattened(nodes, n) && Flattened(nodes, n)[r.face] <= r.cost
  {
    hide MinCosts, Ancestral;
    var all := Candidates(nodes, n);
    MinIsLeast(all);
    forall r ensures r in all <==> Offer(nodes, n, r) {
      AncestralMeans(nodes, n, r);
    }
  }

  /** An entry depends on the routes of its prefixes only. */
  lemma {:induction false} AncestralLocal(a: Nodes, b: Nodes, n: Name)
    requires forall k :: 0 <= k <= |n| ==> RoutesAt(a, n[..k]) == RoutesAt(b, n[..k])
    ensures Ancestral(a, n) == Ancestral(b, n)
    decreases |n|
  {
    assert n[..|n|] == n;
    if n != [] {
      assert forall k :: 0 <= k <= |n| - 1 ==> Parent(n)[..k] == n[..k];
      AncestralLocal(a, b, Parent(n));
    }
  }

  lemma FlattenedLocal(a: Nodes, b: Nodes, n: Name)
    requires forall k :: 0 <= k <= |n| ==> RoutesAt(a, n[..k]) == RoutesAt(b, n[..k])
    ensures Flattened(a, n) == Flattened(b, n)
  {
    assert n[..|n|] == n;
    AncestralLocal(a, b, n);
  }

  // ----- updateNexthopsEnc -----

  /** The collecting loops: own routes, then those inherited along the parents. */
  method Collect(nodes: Nodes, n: Name) returns (routes: Routes)
    ensures routes == Candidates(nodes, n)
  {
    hide Ancestral, Inherited;
    routes := RoutesAt(nodes, n);
    if !Captures(routes) {
      var at := n;
      ghost var own := routes;
      while true
        invariant own + Ancestral(nodes, n) == routes + Ancestral(nodes, at)
        decreases |at|
      {
        var more := Scan(RoutesAt(nodes, at));
        AncestralStep(nodes, at, routes);
        routes := routes + more;
        if at == [] {
          break;
        }
        at := Parent(at);
      }
    }
  }

  lemma AncestralStep(nodes: Nodes, at: Name, before: Routes)
    ensures before + Ancestral(nodes, at)
         == before + Inherited(RoutesAt(nodes, at)) + if at == [] then [] else Ancestral(nodes, Parent(at))
  {
    hide Inherited;
    var own, up := Inherited(RoutesAt(nodes, at)), if at == [] then [] else Ancestral(nodes, Parent(at));
    assert Ancestral(nodes, at) == own + up;
    assert before + (own + up) == before + own + up;
  }

  /** The inner loop over one node's routes, which a capture breaks. */
  method Scan(routes: Routes) returns (r: Routes)
    ensures r == Inherited(routes)
  {
    hide Inherited;
    r := [];
    assert routes[0..] == routes;
    var i := 0;
    while i < |routes|
      invariant 0 <= i <= |routes| && r + Inherited(routes[i..]) == Inherited(routes)
    {
      InheritedStep(routes, i, r);
      if routes[i].inherit {
        r := r + [routes[i]];
      }
      if routes[i].capture {
        return;
      }
      i := i + 1;
    }
    assert routes[i..] == [] && Inherited([]) == [] by { InheritedMeansNone(); }
  }

  lemma InheritedMeansNone()
    ensures Inherited([]) == []
  {
  }

  lemma InheritedStep(routes: Routes, i: nat, before: Routes)
    requires i < |routes|
    ensures before + Inherited(routes[i..])
         == (if routes[i].inherit then before + [routes[i]] else before) + if routes[i].capture then [] else Inherited(routes[i + 1..])
  {
    var tail, own := routes[i..], if routes[i].inherit then [routes[i]] else [];
    var more := if routes[i].capture then [] else Inherited(routes[i + 1..]);
    assert tail[0] == routes[i] && tail[1..] == routes[i + 1..];
    assert Inherited(tail) == own + more;
    assert before + (own + more) == before + own + more;
    assert before + [] == before;
  }

  /** Minimum cost per next hop, then insertion in any order. */
  method InsertAll(fib0: Table, n: Name, routes: Routes) returns (fib: Table)
    ensures fib.strategies == fib0.strategies
    ensures forall x :: HopsAt(fib, x) == if x == n then HopsAt(fib0, n) + MinCosts(routes) else HopsAt(fib0, x)
  {
    var costs: Costs := map[];
    for i := 0 to |routes|
      invariant costs == MinCosts(routes[..i])
    {
      assert routes[..i + 1][..i] == routes[..i];
      if routes[i].face !in costs || routes[i].cost < costs[routes[i].face] {
        costs := costs[routes[i].face := routes[i].cost];
      }
    }
    assert routes[..|routes|] == routes;
    fib := fib0;
    var todo := costs.Keys;
    while todo != {}
      invariant todo <= costs.Keys && fib.strategies == fib0.strategies
      invariant forall x :: HopsAt(fib, x) == if x == n then HopsAt(fib0, n) + (costs - todo) else HopsAt(fib0, x)
      decreases todo
    {
      var f :| f in todo;
      ghost var was := HopsAt(fib, n);
      fib := Apply(fib, Insert(n, f, costs[f]));
      assert HopsAt(fib, n) == was[f := costs[f]];
      assert was[f := costs[f]] == HopsAt(fib0, n) + (costs - (todo - {f}));
      todo := todo - {f};
    }
    assert costs - {} == costs;
  }

  /** What an entry becomes: recomputed, except that a FIB which ignores nil names keeps old next
      hops of the root. */
  function Renewed(nodes: Nodes, x: Name, was: Costs, clearsRoot: bool): Costs {
    if x == [] && !clearsRoot then was + Flattened(nodes, x) else Flattened(nodes, x)
  }

  method RenewOne(nodes: Nodes, fib0: Table, n: Name, clearsRoot: bool) returns (fib: Table)
    ensures fib.strategies == fib0.strategies
    ensures forall x :: HopsAt(fib, x) == if x == n then Renewed(nodes, x, HopsAt(fib0, x), clearsRoot) else HopsAt(fib0, x)
  {
    hide MinCosts, Candidates;
    fib := if n == [] && !clearsRoot then fib0 else Apply(fib0, Clear(n));
    if RoutesAt(nodes, n) != [] {
      var routes := Collect(nodes, n);
      fib := InsertAll(fib, n, routes);
    }
  }

  /** What updateNexthopsEnc does to the FIB. */
  ghost predicate Updated(nodes: Nodes, fib0: Table, fib: Table, n: Name, clearsRoot: bool) {
    && fib.strategies == fib0.strategies
    && forall x ::
      HopsAt(fib, x) == if x == n || (n <= x && x in nodes) then Renewed(nodes, x, HopsAt(fib0, x), clearsRoot) else HopsAt(fib0, x)
  }

  /** updateNexthopsEnc: the whole subtree is recomputed, nothing else changes. */
  method UpdateNexthops(nodes: Nodes, fib0: Table, n: Name, clearsRoot: bool) returns (fib: Table)
    requires Closed(nodes) && (n !in nodes ==> Children(nodes, n) == {})
    ensures Updated(nodes, fib0, fib, n, clearsRoot)
    decreases Below(nodes, n)
  {
    hide Flattened, HopsAt, Done, Renewed;
    fib := RenewOne(nodes, fib0, n, clearsRoot);
    ghost var one := fib;
    var todo := Children(nodes, n);
    forall x ensures !Done(nodes, n, x, todo) { DoneSteps(nodes, n, x, {}, n); }
    while todo != {}
      invariant todo <= Children(nodes, n) && fib.strategies == fib0.strategies
      invariant forall x ::
        HopsAt(fib, x) == if Done(nodes, n, x, todo) then Renewed(nodes, x, HopsAt(fib0, x), clearsRoot) else HopsAt(one, x)
      decreases todo
    {
      var child :| child in todo;
      BelowChild(nodes, n, child);
      ghost var before := fib;
      fib := UpdateNexthops(nodes, fib, child, clearsRoot);
      forall x
        ensures HopsAt(fib, x)
             == if Done(nodes, n, x, todo - {child}) then Renewed(nodes, x, HopsAt(fib0, x), clearsRoot) else HopsAt(one, x)
      {
        DoneSteps(nodes, n, x, todo, child);
        if child <= x && x in nodes {
          ChildWaits(nodes, n, x, todo, child);
        }
      }
      todo := todo - {child};
    }
    forall x ensures Done(nodes, n, x, todo) <==> n < x && x in nodes { DoneSteps(nodes, n, x, {}, n); }
  }

  // ----- The invariant -----

  /** Every entry is the recomputed one. Where the FIB ignores nil names, the root entry has at least
      the recomputed next hops. */
  ghost predicate Synced(nodes: Nodes, fib: Table, clearsRoot: bool) {
    && (forall x :: x != [] || clearsRoot ==> HopsAt(fib, x) == Flattened(nodes, x))
    && HopsAt(fib, []) == HopsAt(fib, []) + Flattened(nodes, [])
  }

  /** A change of one node's routes is absorbed by updating its subtree. */
  lemma Resynced(a: Nodes, b: Nodes, fib0: Table, fib: Table, n: Name, clearsRoot: bool)
    requires Synced(a, fib0, clearsRoot) && Updated(b, fib0, fib, n, clearsRoot)
    requires forall x :: x != n ==> RoutesAt(a, x) == RoutesAt(b, x)
    ensures Synced(b, fib, clearsRoot)
  {
    hide HopsAt, MinCosts, Candidates;
    forall x
      ensures x != [] || clearsRoot ==> HopsAt(fib, x) == Flattened(b, x)
      ensures x == [] && !clearsRoot ==> HopsAt(fib, x) == HopsAt(fib, x) + Flattened(b, x)
    {
      if n <= x {
        if x != n && x !in b {
          assert RoutesAt(a, x) == RoutesAt(b, x) == [];
        }
      } else {
        forall k | 0 <= k <= |x| ensures RoutesAt(a, x[..k]) == RoutesAt(b, x[..k]) {
        }
        FlattenedLocal(a, b, x);
      }
    }
  }

  /** Without clearing, the root entry comes out right exactly when no old next hop is obsolete. */
  lemma RootEntry(nodes: Nodes, was: Costs)
    ensures Renewed(nodes, [], was, false) == Flattened(nodes, []) <==> was.Keys <= Flattened(nodes, []).Keys
  {
    hide Flattened;
    var now := Flattened(nodes, []);
    if was.Keys <= now.Keys {
      assert was + now == now;
    } else {
      var f :| f in was.Keys && f !in now.Keys;
      assert f in was + now;
    }
  }

  /** The last route of the root leaves, and its next hop stays. */
  lemma RootKeepsObsoleteHop()
    ensures Renewed(map[[] := []], [], map[7 := 1], false) != Flattened(map[[] := []], [])
  {
    assert 7 in Renewed(map[[] := []], [], map[7 := 1], false);
  }

  function Faces(routes: Routes): set<FaceId> {
    set r | r in routes :: r.face
  }

  /** The root entry names the faces of the root's own routes. */
  lemma RootFaces(nodes: Nodes)
    ensures Flattened(nodes, []).Keys == Faces(RoutesAt(nodes, []))
  {
    hide Flattened, RoutesAt;
    FlattenedMeans(nodes, []);
    forall r ensures Offer(nodes, [], r) <==> r in RoutesAt(nodes, []) {
      var root: Name := [];
      assert root[..0] == root;
      if k: nat :| InheritsFrom(nodes, [], k, r) {
        assert k == 0;
      }
    }
    forall f: FaceId ensures f in Flattened(nodes, []) <==> f in Faces(RoutesAt(nodes, [])) {
      if f in Flattened(nodes, []) {
        var r :| Offer(nodes, [], r) && r.face == f;
      }
    }
  }

  /** Without clearing, an update of the root adds the faces of its routes to the root entry. */
  lemma RootAfter(nodes: Nodes, fib0: Table, fib: Table, n: Name)
    requires Updated(nodes, fib0, fib, n, false)
    ensures HopsAt(fib, []).Keys == HopsAt(fib0, []).Keys + if n == [] then Faces(RoutesAt(nodes, [])) else {}
  {
    hide HopsAt, Flattened, RoutesAt;
    RootFaces(nodes);
    assert HopsAt(fib, []) == if n == [] then HopsAt(fib0, []) + Flattened(nodes, []) else HopsAt(fib0, []);
  }

  /** The root entry has the faces of the root's routes at least. */
  lemma RootHasFaces(nodes: Nodes, fib: Table, clearsRoot: bool)
    requires Synced(nodes, fib, clearsRoot)
    ensures Faces(RoutesAt(nodes, [])) <= HopsAt(fib, []).Keys
  {
    hide HopsAt, Flattened, RoutesAt;
    RootFaces(nodes);
    var hops := HopsAt(fib, []);
    assert hops == hops + Flattened(nodes, []);
  }

  // ----- Routes of one node -----

  ghost predicate UniqueKeys(routes: Routes) {
    forall i, j :: 0 <= i < j < |routes| ==> routes[i].face != routes[j].face || routes[i].origin != routes[j].origin
  }

  predicate SameKey(a: Route, face: FaceId, origin: nat) {
    a.face == face && a.origin == origin
  }

  /** The update loop of AddEncRoute. */
  method SetRoute(routes: Routes, route: Route) returns (r: Routes)
    requires UniqueKeys(routes)
    ensures UniqueKeys(r) && r != []
    ensures forall x :: x in r <==> x == route || (x in routes && !SameKey(x, route.face, route.origin))
    ensures |r| >= |routes| && forall i :: 0 <= i < |routes| ==> r[i] == routes[i] || r[i] == route
  {
    for i := 0 to |routes|
      invariant forall j :: 0 <= j < i ==> !SameKey(routes[j], route.face, route.origin)
    {
      if SameKey(routes[i], route.face, route.origin) {
        r := routes[i := route];
        assert r[i] == route;
        forall x | x in routes && !SameKey(x, route.face, route.origin) ensures x in r {
          var j :| 0 <= j < |routes| && routes[j] == x;
          assert r[j] == x;
        }
        return;
      }
    }
    r := routes + [route];
    assert r[|routes|] == route;
  }

  function Cut(routes: Routes, i: nat): Routes
    requires i < |routes|
  {
    routes[..i] + routes[i + 1..]
  }

  lemma CutUnique(routes: Routes, i: nat)
    requires UniqueKeys(routes) && i < |routes|
    ensures UniqueKeys(Cut(routes, i))
  {
    var r := Cut(routes, i);
    forall j, k | 0 <= j < k < |r| ensures r[j].face != r[k].face || r[j].origin != r[k].origin {
      var j', k' := if j < i then j else j + 1, if k < i then k else k + 1;
      assert r[j] == routes[j'] && r[k] == routes[k'];
    }
  }

  /** Only the first route of the face goes. */
  function DropFirst(routes: Routes, face: FaceId): Routes {
    if routes == [] then []
    else if routes[0].face == face then routes[1..]
    else [routes[0]] + DropFirst(routes[1..], face)
  }

  lemma {:induction false} DropFirstAt(routes: Routes, face: FaceId, i: nat)
    requires i <= |routes| && forall j :: 0 <= j < i ==> routes[j].face != face
    ensures i < |routes| && routes[i].face == face ==> DropFirst(routes, face) == Cut(routes, i)
    ensures i == |routes| ==> DropFirst(routes, face) == routes
  {
    if i > 0 {
      DropFirstAt(routes[1..], face, i - 1);
      if i < |routes| {
        assert Cut(routes, i) == [routes[0]] + Cut(routes[1..], i - 1);
      }
    }
  }

  function FaceCount(routes: Routes, face: FaceId): nat {
    if routes == [] then 0 else (if routes[0].face == face then 1 else 0) + FaceCount(routes[1..], face)
  }

  lemma {:induction false} DropFirstCount(routes: Routes, face: FaceId)
    ensures FaceCount(DropFirst(routes, face), face) == if FaceCount(routes, face) == 0 then 0 else FaceCount(routes, face) - 1
  {
    if routes != [] && routes[0].face != face {
      DropFirstCount(routes[1..], face);
      assert DropFirst(routes, face)[1..] == DropFirst(routes[1..], face);
    }
  }

  /** A face with routes of two origins at one node survives its own clean-up. */
  lemma SecondRouteStays()
    ensures DropFirst([Route(7, 0, 1, true, false), Route(7, 255, 2, true, false)], 7) == [Route(7, 255, 2, true, false)]
  {
  }

  lemma {:induction false} CountZero(routes: Routes, face: FaceId)
    ensures FaceCount(routes, face) == 0 <==> forall r :: r in routes ==> r.face != face
  {
    if routes != [] {
      CountZero(routes[1..], face);
      assert forall r :: r in routes <==> r == routes[0] || r in routes[1..];
    }
  }

  /** A face is in some entry exactly when some node has a route of it. */
  lemma FaceVanishes(nodes: Nodes, face: FaceId)
    ensures (forall x :: face !in Flattened(nodes, x)) <==> (forall x :: FaceCount(RoutesAt(nodes, x), face) == 0)
  {
    hide Flattened, FaceCount, RoutesAt;
    if x :| face in Flattened(nodes, x) {
      OfferHasRoute(nodes, x, face);
    }
    if x :| FaceCount(RoutesAt(nodes, x), face) != 0 {
      RouteIsOffered(nodes, x, face);
    }
  }

  lemma OfferHasRoute(nodes: Nodes, x: Name, face: FaceId)
    requires face in Flattened(nodes, x)
    ensures exists y :: FaceCount(RoutesAt(nodes, y), face) != 0
  {
    hide Flattened, FaceCount;
    FlattenedMeans(nodes, x);
    var r :| Offer(nodes, x, r) && r.face == face;
    if r in RoutesAt(nodes, x) {
      CountZero(RoutesAt(nodes, x), face);
    } else {
      var k: nat :| InheritsFrom(nodes, x, k, r);
      CountZero(RoutesAt(nodes, x[..k]), face);
    }
  }

  lemma RouteIsOffered(nodes: Nodes, x: Name, face: FaceId)
    requires FaceCount(RoutesAt(nodes, x), face) != 0
    ensures face in Flattened(nodes, x)
  {
    hide Flattened;
    CountZero(RoutesAt(nodes, x), face);
    var r :| r in RoutesAt(nodes, x) && r.face == face;
    FlattenedMeans(nodes, x);
    assert Offer(nodes, x, r);
  }

  // ----- Pruning -----

  predicate Prunable(nodes: Nodes, n: Name) {
    n != [] && Children(nodes, n) == {} && RoutesAt(nodes, n) == []
  }

  /** pruneIfEmpty: the link to the parent is cut before the loop follows it, so only the node itself
      can go. */
  method PruneIfEmpty(nodes0: Nodes, n: Name) returns (nodes: Nodes)
    requires Closed(nodes0) && n in nodes0
    ensures Closed(nodes) && nodes == if Prunable(nodes0, n) then nodes0 - {n} else nodes0
    ensures forall x :: RoutesAt(nodes, x) == RoutesAt(nodes0, x)
  {
    hide Closed;
    nodes := nodes0;
    var entry, more := n, true;
    while more && Children(nodes, entry) == {} && RoutesAt(nodes, entry) == []
      invariant more ==> entry == n && nodes == nodes0
      invariant !more ==> Closed(nodes) && nodes == if Prunable(nodes0, n) then nodes0 - {n} else nodes0
      decreases more
    {
      if entry != [] {
        RemovedOk(nodes, entry, []);
        nodes := nodes - {entry};
      }
      more := false;
    }
  }

  /** If only `n` may be a dead leaf before, none is left afterwards exactly when the node stays or its
      parent has a use of its own. */
  lemma PruneIsTidyExactly(nodes: Nodes, n: Name)
    requires Closed(nodes) && n in nodes && Tidy(nodes, n, [])
    ensures Tidy(if Prunable(nodes, n) then nodes - {n} else nodes, [], []) <==>
      (!Prunable(nodes, n) || Parent(n) == [] || RoutesAt(nodes, Parent(n)) != [] || Children(nodes, Parent(n)) != {n})
  {
    hide Tidy, Closed;
    if Prunable(nodes, n) {
      var less, up := nodes - {n}, Parent(n);
      RemovedOk(nodes, n, []);
      assert Children(less, up) == Children(nodes, up) - {n};
      assert n in Children(nodes, up);
      assert Alive(less, up, []) <==> up == [] || RoutesAt(nodes, up) != [] || Children(nodes, up) != {n};
      if Alive(less, up, []) {
        TidyDone(less, up, []);
      } else {
        assert !Tidy(less, [], []) by { DeadNode(less, up); }
      }
    } else {
      AliveAt(nodes, n, []);
      TidyDone(nodes, n, []);
    }
  }

  lemma DeadNode(nodes: Nodes, x: Name)
    requires x in nodes && !Alive(nodes, x, [])
    ensures !Tidy(nodes, [], [])
  {
  }

  /** A branch of two nodes loses its leaf, and the node above stays without routes or children. */
  method AncestorStays(a: Component, b: Component) returns (nodes: Nodes)
    ensures nodes == map[[] := [], [a] := []] && !Alive(nodes, [a], [])
  {
    var branch: Nodes := map[[] := [], [a] := [], [a, b] := []];
    assert Parent([a]) == [] && Parent([a, b]) == [a];
    assert forall n :: n in branch ==> HasParent(branch, n);
    nodes := PruneIfEmpty(branch, [a, b]);
  }

  // ----- The operations -----

  ghost predicate AllUnique(nodes: Nodes) {
    forall n :: UniqueKeys(RoutesAt(nodes, n))
  }

  ghost predicate RibOk(nodes: Nodes, fib: Table, clearsRoot: bool) {
    Closed(nodes) && AllUnique(nodes) && Synced(nodes, fib, clearsRoot)
  }

  /** The faces of the root entry stay when the FIB ignores nil names. */
  predicate RootKept(fib0: Table, fib: Table, clearsRoot: bool) {
    !clearsRoot ==> HopsAt(fib, []).Keys == HopsAt(fib0, []).Keys
  }

  /** The end of every removal: prune, then update the subtree. */
  method RemoveAt(nodes0: Nodes, fib0: Table, n: Name, rest: Routes, clearsRoot: bool) returns (nodes: Nodes, fib: Table)
    requires RibOk(nodes0, fib0, clearsRoot) && n in nodes0 && UniqueKeys(rest)
    requires forall r :: r in rest ==> r in RoutesAt(nodes0, n)
    ensures RibOk(nodes, fib, clearsRoot) && fib.strategies == fib0.strategies && RootKept(fib0, fib, clearsRoot)
    ensures forall x :: RoutesAt(nodes, x) == if x == n then rest else RoutesAt(nodes0, x)
    ensures nodes.Keys == if Prunable(nodes0[n := rest], n) then nodes0.Keys - {n} else nodes0.Keys
  {
    hide Closed, Synced, UniqueKeys, Flattened, Prunable;
    ChangedOk(nodes0, n, rest);
    nodes := PruneIfEmpty(nodes0[n := rest], n);
    if n !in nodes {
      ChildrenNeedParent(nodes, n);
    }
    fib := UpdateNexthops(nodes, fib0, n, clearsRoot);
    assert forall x :: RoutesAt(nodes, x) == RoutesAt(nodes0[n := rest], x);
    Resynced(nodes0, nodes, fib0, fib, n, clearsRoot);
    if !clearsRoot {
      RootAfter(nodes, fib0, fib, n);
      RootHasFaces(nodes0, fib0, clearsRoot);
      assert n == [] ==> Faces(rest) <= Faces(RoutesAt(nodes0, []));
    }
  }

  lemma RibParts(nodes: Nodes, fib: Table, clearsRoot: bool)
    requires RibOk(nodes, fib, clearsRoot)
    ensures Closed(nodes) && AllUnique(nodes)
  {
  }

  /** Dropping changes nothing where there is no node. */
  lemma AbsentDrops(nodes: Nodes, top: Name, face: FaceId)
    requires Closed(nodes)
    ensures forall x :: x !in nodes ==> DropFirst(RoutesAt(nodes, x), face) == RoutesAt(nodes, x)
    ensures top !in nodes ==> forall x :: top <= x ==> DropFirst(RoutesAt(nodes, x), face) == RoutesAt(nodes, x)
  {
    forall x | top <= x && top !in nodes ensures x !in nodes {
      assert x[..|top|] == top;
      if x in nodes {
        PrefixClosed(nodes, x, |top|);
      }
    }
  }

  /** The face's clean-up takes the only route of the node. */
  predicate Emptied(nodes: Nodes, x: Name, face: FaceId) {
    x != [] && |RoutesAt(nodes, x)| == 1 && RoutesAt(nodes, x)[0].face == face
  }

  /** The face's clean-up empties the whole subtree. */
  ghost predicate Withers(nodes: Nodes, x: Name, face: FaceId) {
    forall y :: y in nodes && x <= y ==> Emptied(nodes, y, face)
  }

  lemma WithersLocal(a: Nodes, b: Nodes, x: Name, face: FaceId)
    requires forall y :: x <= y ==> (y in a <==> y in b) && RoutesAt(a, y) == RoutesAt(b, y)
    ensures Withers(a, x, face) <==> Withers(b, x, face)
  {
  }

  lemma WithersStep(nodes: Nodes, n: Name, face: FaceId)
    requires Closed(nodes) && n in nodes
    ensures Withers(nodes, n, face) <==> Emptied(nodes, n, face) && forall c :: c in Children(nodes, n) ==> Withers(nodes, c, face)
  {
    hide Emptied, Closed;
    forall c | c in Children(nodes, n) && Withers(nodes, n, face) ensures Withers(nodes, c, face) {
      BelowChild(nodes, n, c);
    }
    if Emptied(nodes, n, face) && forall c :: c in Children(nodes, n) ==> Withers(nodes, c, face) {
      forall y | y in nodes && n <= y ensures Emptied(nodes, y, face) {
        if y != n {
          PrefixClosed(nodes, y, |n| + 1);
          assert Parent(y[..|n| + 1]) == n;
          assert Withers(nodes, y[..|n| + 1], face);
        }
      }
    }
  }

  /** The node goes exactly when its subtree withers. */
  lemma GoesIfWithers(nodes0: Nodes, nodes: Nodes, n: Name, face: FaceId, rest: Routes)
    requires Closed(nodes0) && n in nodes && n in nodes0
    requires forall x :: x in nodes <==> x in nodes0 && !(n < x && Withers(nodes0, x, face))
    requires rest == DropFirst(RoutesAt(nodes0, n), face) && FaceCount(RoutesAt(nodes0, n), face) > 0
    ensures Prunable(nodes[n := rest], n) <==> Withers(nodes0, n, face)
  {
    hide Withers, Closed, FaceCount;
    WithersStep(nodes0, n, face);
    forall c ensures c in Children(nodes[n := rest], n) <==> c in Children(nodes0, n) && !Withers(nodes0, c, face) {
      if c in Children(nodes0, n) {
        BelowChild(nodes0, n, c);
      }
    }
    assert Children(nodes[n := rest], n) == {} <==> forall c :: c in Children(nodes0, n) ==> Withers(nodes0, c, face);
    CountZero(RoutesAt(nodes0, n), face);
    EmptyAfter(RoutesAt(nodes0, n), face);
  }

  lemma EmptyAfter(routes: Routes, face: FaceId)
    requires FaceCount(routes, face) > 0
    ensures DropFirst(routes, face) == [] <==> |routes| == 1 && routes[0].face == face
  {
  }

  lemma CutCount(routes: Routes, i: nat, face: FaceId)
    requires i < |routes| && routes[i].face == face
    ensures FaceCount(routes, face) > 0 && forall r :: r in Cut(routes, i) ==> r in routes
  {
    CountZero(routes, face);
    assert routes[i] in routes;
  }

  lemma NotEmptied(nodes: Nodes, n: Name, face: FaceId)
    requires n in nodes && forall j :: 0 <= j < |RoutesAt(nodes, n)| ==> RoutesAt(nodes, n)[j].face != face
    ensures !Withers(nodes, n, face)
  {
    assert !Emptied(nodes, n, face);
  }

  /** cleanUpFace, children first. A node goes exactly when its whole subtree withers. */
  method CleanUp(nodes0: Nodes, fib0: Table, n: Name, face: FaceId, clearsRoot: bool) returns (nodes: Nodes, fib: Table)
    requires RibOk(nodes0, fib0, clearsRoot) && n in nodes0
    ensures RibOk(nodes, fib, clearsRoot) && fib.strategies == fib0.strategies && RootKept(fib0, fib, clearsRoot)
    ensures forall x :: RoutesAt(nodes, x) == if n <= x then DropFirst(RoutesAt(nodes0, x), face) else RoutesAt(nodes0, x)
    ensures forall x :: x in nodes <==> x in nodes0 && !(n <= x && Withers(nodes0, x, face))
    decreases Below(nodes0, n)
  {
    hide RibOk, Done, DropFirst, RoutesAt, Children, Withers, FaceCount;
    nodes, fib := CleanUpChildren(nodes0, fib0, n, face, clearsRoot);
    RibParts(nodes0, fib0, clearsRoot);
    forall x | n <= x
      ensures RoutesAt(nodes, x) == if x == n then RoutesAt(nodes0, x) else DropFirst(RoutesAt(nodes0, x), face)
    {
    }
    var routes := RoutesAt(nodes, n);
    var i := 0;
    while i < |routes|
      invariant 0 <= i <= |routes| && forall j :: 0 <= j < i ==> routes[j].face != face
    {
      if routes[i].face == face {
        DropFirstAt(routes, face, i);
        RibParts(nodes, fib, clearsRoot);
        CutUnique(routes, i);
        CutCount(routes, i, face);
        GoesIfWithers(nodes0, nodes, n, face, Cut(routes, i));
        ghost var before := nodes;
        nodes, fib := RemoveAt(nodes, fib, n, Cut(routes, i), clearsRoot);
        forall x ensures x in nodes <==> x in nodes0 && !(n <= x && Withers(nodes0, x, face)) {
          assert x in nodes.Keys <==> x in before.Keys && !(x == n && Withers(nodes0, n, face));
          assert n <= x <==> n == x || n < x;
        }
        return;
      }
      i := i + 1;
    }
    DropFirstAt(routes, face, i);
    NotEmptied(nodes0, n, face);
    forall x ensures x in nodes <==> x in nodes0 && !(n <= x && Withers(nodes0, x, face)) {
      assert n <= x <==> n == x || n < x;
    }
  }

  /** The loop of cleanUpFace over the children. */
  method CleanUpChildren(nodes0: Nodes, fib0: Table, n: Name, face: FaceId, clearsRoot: bool) returns (nodes: Nodes, fib: Table)
    requires RibOk(nodes0, fib0, clearsRoot) && n in nodes0
    ensures RibOk(nodes, fib, clearsRoot) && fib.strategies == fib0.strategies && RootKept(fib0, fib, clearsRoot)
    ensures forall x :: RoutesAt(nodes, x) == if n < x then DropFirst(RoutesAt(nodes0, x), face) else RoutesAt(nodes0, x)
    ensures forall x :: x in nodes <==> x in nodes0 && !(n < x && Withers(nodes0, x, face))
    decreases Below(nodes0, n), 0
  {
    hide RibOk, Done, DropFirst, RoutesAt, Withers;
    nodes, fib := nodes0, fib0;
    var todo := Children(nodes0, n);
    RibParts(nodes0, fib0, clearsRoot);
    forall x ensures !Done(nodes0, n, x, todo) { DoneSteps(nodes0, n, x, {}, n); }
    while todo != {}
      invariant todo <= Children(nodes0, n) && RibOk(nodes, fib, clearsRoot)
      invariant fib.strategies == fib0.strategies && RootKept(fib0, fib, clearsRoot)
      invariant forall x ::
        RoutesAt(nodes, x) == if Done(nodes0, n, x, todo) then DropFirst(RoutesAt(nodes0, x), face) else RoutesAt(nodes0, x)
      invariant forall x :: x in nodes <==> x in nodes0 && !(Done(nodes0, n, x, todo) && Withers(nodes0, x, face))
      decreases todo
    {
      var child :| child in todo;
      ghost var before := nodes;
      BelowChild(nodes0, n, child);
      ChildWaits(nodes0, n, child, todo, child);
      BelowShrinks(nodes0, nodes, n, child);
      nodes, fib := CleanUp(nodes, fib, child, face, clearsRoot);
      ChildDone(nodes0, before, nodes, n, todo, child, face);
      todo := todo - {child};
    }
    AbsentDrops(nodes0, n, face);
    forall x ensures Done(nodes0, n, x, todo) <==> n < x && x in nodes0 { DoneSteps(nodes0, n, x, {}, n); }
  }

  lemma ChildDone(nodes0: Nodes, before: Nodes, nodes: Nodes, n: Name, todo: set<Name>, child: Name, face: FaceId)
    requires Closed(nodes0) && child in todo && child in Children(nodes0, n)
    requires forall x ::
      RoutesAt(before, x) == if Done(nodes0, n, x, todo) then DropFirst(RoutesAt(nodes0, x), face) else RoutesAt(nodes0, x)
    requires forall x :: x in before <==> x in nodes0 && !(Done(nodes0, n, x, todo) && Withers(nodes0, x, face))
    requires forall x :: RoutesAt(nodes, x) == if child <= x then DropFirst(RoutesAt(before, x), face) else RoutesAt(before, x)
    requires forall x :: x in nodes <==> x in before && !(child <= x && Withers(before, x, face))
    ensures forall x ::
      RoutesAt(nodes, x) == if Done(nodes0, n, x, todo - {child}) then DropFirst(RoutesAt(nodes0, x), face) else RoutesAt(nodes0, x)
    ensures forall x :: x in nodes <==> x in nodes0 && !(Done(nodes0, n, x, todo - {child}) && Withers(nodes0, x, face))
  {
    hide Done, DropFirst, RoutesAt, Withers, Children, Closed;
    forall x
      ensures RoutesAt(nodes, x)
           == if Done(nodes0, n, x, todo - {child}) then DropFirst(RoutesAt(nodes0, x), face) else RoutesAt(nodes0, x)
      ensures x in nodes <==> x in nodes0 && !(Done(nodes0, n, x, todo - {child}) && Withers(nodes0, x, face))
    {
      DoneSteps(nodes0, n, x, todo, child);
      if child <= x {
        ChildWaits(nodes0, n, x, todo, child);
        AbsentDrops(nodes0, x, face);
        forall y | x <= y ensures (y in before <==> y in nodes0) && RoutesAt(before, y) == RoutesAt(nodes0, y) {
          ChildWaits(nodes0, n, y, todo, child);
        }
        WithersLocal(before, nodes0, x, face);
      }
    }
  }

  class RibTable {
    var nodes: Nodes
    var fib: Table
    /** Whether the FIB clears the root for the root's nil name: the hashed one does, the tree does not. */
    const clearsRoot: bool

    ghost predicate Valid()
      reads this
    {
      RibOk(nodes, fib, clearsRoot)
    }

    constructor (strategies: map<Name, Name>, clearsRoot: bool)
      ensures Valid() && nodes == map[[] := []] && fib == Table(map[], strategies) && this.clearsRoot == clearsRoot
    {
      nodes, fib := map[[] := []], Table(map[], strategies);
      this.clearsRoot := clearsRoot;
    }

    /** AddEncRoute */
    method AddRoute(name: Name, route: Route)
      requires Valid()
      modifies this
      ensures Valid() && fib.strategies == old(fib.strategies)
      ensures forall x :: x != name ==> RoutesAt(nodes, x) == RoutesAt(old(nodes), x)
      ensures forall r :: r in RoutesAt(nodes, name) <==>
        r == route || (r in RoutesAt(old(nodes), name) && !SameKey(r, route.face, route.origin))
      ensures forall x :: x in nodes <==> x in old(nodes) || x <= name
      ensures !clearsRoot ==> HopsAt(fib, []).Keys == HopsAt(old(fib), []).Keys + if name == [] then {route.face} else {}
    {
      hide Closed, Synced, UniqueKeys, Flattened;
      var filled := Fill(nodes, name, []);
      assert UniqueKeys(RoutesAt(nodes, name)) && filled[name] == RoutesAt(filled, name) == RoutesAt(nodes, name);
      var routes := SetRoute(filled[name], route);
      ChangedOk(filled, name, routes);
      var renewed := UpdateNexthops(filled[name := routes], fib, name, clearsRoot);
      Resynced(nodes, filled[name := routes], fib, renewed, name, clearsRoot);
      assert forall x :: RoutesAt(filled[name := routes], x) == if x == name then routes else RoutesAt(nodes, x);
      if !clearsRoot {
        RootAfter(filled[name := routes], fib, renewed, name);
        RootHasFaces(nodes, fib, clearsRoot);
        FacesAfter(RoutesAt(nodes, name), routes, route);
      }
      nodes, fib := filled[name := routes], renewed;
    }

    /** RemoveRouteEnc */
    method RemoveRoute(name: Name, face: FaceId, origin: nat)
      requires Valid()
      modifies this
      ensures Valid() && fib.strategies == old(fib.strategies)
      ensures forall x :: x != name ==> RoutesAt(nodes, x) == RoutesAt(old(nodes), x)
      ensures forall r :: r in RoutesAt(nodes, name) <==> r in RoutesAt(old(nodes), name) && !SameKey(r, face, origin)
      ensures nodes.Keys == old(nodes.Keys)
        - if name != [] && RoutesAt(nodes, name) == [] && Children(old(nodes), name) == {} then {name} else {}
      ensures RootKept(old(fib), fib, clearsRoot)
    {
      hide Closed, Synced, Flattened;
      var at := FindLongest(nodes, [], name) by { ClosedRoot(nodes); }
      assert name[..|name|] == name && name[..|at|] == at;
      if |at| != |name| {
        return;
      }
      var rest := DropRoute(RoutesAt(nodes, name), face, origin);
      var n, f := RemoveAt(nodes, fib, name, rest, clearsRoot);
      nodes, fib := n, f;
    }

    /** CleanUpFace: one route of the face leaves every node. The face is in no entry afterwards
        exactly when no node had two routes of it and, with a FIB that ignores nil names, the root
        entry did not name it. */
    method CleanUpFace(face: FaceId)
      requires Valid()
      modifies this
      ensures Valid() && fib.strategies == old(fib.strategies)
      ensures forall x :: RoutesAt(nodes, x) == DropFirst(RoutesAt(old(nodes), x), face)
      ensures forall x :: x in nodes <==> x in old(nodes) && !Withers(old(nodes), x, face)
      ensures RootKept(old(fib), fib, clearsRoot)
      ensures (forall x :: face !in HopsAt(fib, x)) <==>
        ((!clearsRoot ==> face !in HopsAt(old(fib), [])) && forall x :: FaceCount(RoutesAt(old(nodes), x), face) <= 1)
    {
      hide RibOk, FaceCount, DropFirst, RoutesAt, Withers;
      assert [] in nodes by { RibParts(nodes, fib, clearsRoot); ClosedRoot(nodes); }
      var n, f := CleanUp(nodes, fib, [], face, clearsRoot);
      forall x
        ensures RoutesAt(n, x) == DropFirst(RoutesAt(nodes, x), face)
        ensures FaceCount(RoutesAt(n, x), face) == 0 <==> FaceCount(RoutesAt(nodes, x), face) <= 1
      {
        assert [] <= x;
        DropFirstCount(RoutesAt(nodes, x), face);
      }
      FaceGone(n, fib, f, face, clearsRoot);
      nodes, fib := n, f;
    }
  }

  lemma FaceGone(nodes: Nodes, fib0: Table, fib: Table, face: FaceId, clearsRoot: bool)
    requires RibOk(nodes, fib, clearsRoot) && RootKept(fib0, fib, clearsRoot)
    ensures (forall x :: face !in HopsAt(fib, x)) <==>
      ((!clearsRoot ==> face !in HopsAt(fib0, [])) && forall x :: FaceCount(RoutesAt(nodes, x), face) == 0)
  {
    hide Flattened, FaceCount, RoutesAt, HopsAt;
    FaceVanishes(nodes, face);
    assert face in Flattened(nodes, []) ==> face in HopsAt(fib, []);
    if !clearsRoot {
      assert face in HopsAt(fib, []) <==> face in HopsAt(fib0, []);
    }
    if forall x :: face !in HopsAt(fib, x) {
      forall x ensures face !in Flattened(nodes, x) {
        assert face !in HopsAt(fib, x);
      }
    }
  }

  lemma FacesAfter(before: Routes, after: Routes, route: Route)
    requires forall r :: r in after <==> r == route || (r in before && !SameKey(r, route.face, route.origin))
    ensures Faces(after) == Faces(before) + {route.face}
  {
    assert route in after;
    forall r | r in before ensures r.face in Faces(after) + {route.face} {
    }
  }

  lemma OnlyRoute(routes: Routes, route: Route)
    requires UniqueKeys(routes) && forall r :: r in routes <==> r == route
    ensures routes == [route]
  {
    assert route in routes;
    assert routes[0] in routes && routes[|routes| - 1] in routes;
  }

  lemma RootOffers(nodes: Nodes, fib: Table, clearsRoot: bool, route: Route)
    requires RibOk(nodes, fib, clearsRoot) && forall r :: r in RoutesAt(nodes, []) <==> r == route
    ensures RoutesAt(nodes, []) == [route] && route.face in HopsAt(fib, [])
  {
    hide Flattened, HopsAt;
    RootHasFaces(nodes, fib, clearsRoot);
    assert UniqueKeys(RoutesAt(nodes, []));
    OnlyRoute(RoutesAt(nodes, []), route);
    assert route in RoutesAt(nodes, []);
  }

  /** With the tree FIB, the face of a default route is still a next hop after its clean-up, although
      no route is left. */
  method DefaultRouteStays(strategies: map<Name, Name>, route: Route) returns (rib: RibTable)
    ensures rib.Valid() && rib.nodes == map[[] := []] && route.face in HopsAt(rib.fib, [])
  {
    hide RibOk, HopsAt, FaceCount, Withers, RoutesAt, DropFirst;
    rib := new RibTable(strategies, false);
    BareRoot();
    rib.AddRoute([], route);
    ghost var before := rib.nodes;
    RootOffers(rib.nodes, rib.fib, false, route);
    rib.CleanUpFace(route.face);
    OnlyRoot(before, rib.nodes, route);
  }

  lemma BareRoot()
    ensures RoutesAt(map[[] := []], []) == []
  {
  }

  lemma OnlyRoot(before: Nodes, nodes: Nodes, route: Route)
    requires RoutesAt(before, []) == [route] && forall x :: x in before <==> x == []
    requires RoutesAt(nodes, []) == DropFirst([route], route.face)
    requires forall x :: x in nodes <==> x in before && !Withers(before, x, route.face)
    ensures nodes == map[[] := []]
  {
    assert !Withers(before, [], route.face);
    assert nodes.Keys == {[]};
  }

  /** The removal loop of RemoveRouteEnc. */
  method DropRoute(routes: Routes, face: FaceId, origin: nat) returns (r: Routes)
    requires UniqueKeys(routes)
    ensures UniqueKeys(r)
    ensures forall x :: x in r <==> x in routes && !SameKey(x, face, origin)
  {
    for i := 0 to |routes|
      invariant forall j :: 0 <= j < i ==> !SameKey(routes[j], face, origin)
    {
      if SameKey(routes[i], face, origin) {
        r := Cut(routes, i);
        CutUnique(routes, i);
        forall x | x in routes && !SameKey(x, face, origin) ensures x in r {
          var j :| 0 <= j < |routes| && routes[j] == x;
          assert r[if j < i then j else j - 1] == x;
        }
        return;
      }
    }
    return routes;
  }
}
