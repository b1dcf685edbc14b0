/** Compiling routes into forwarder commands: dv/table/fib.go and updateFib of dv/dv/table_algo.go.

    Name prefixes are known by their (injective) hash. The commands handed to the management
    thread are kept in `sent`; a forwarder is what these commands build when replayed in order. */
module DvFib {
  import opened DvRib

  type NameId = nat
  type FaceId = nat

  const PFX_INFINITY: nat := 0xFFFF_FFFF

  datatype FibEntry = FibEntry(face: FaceId, cost: nat, prevCost: nat)

  datatype Command =
    | Register(name: NameId, face: FaceId, cost: nat)
    | Unregister(name: NameId, face: FaceId)

  // ----- Costs per face -----

  predicate Mentions(es: seq<FibEntry>, face: FaceId, cost: nat) {
    exists i :: 0 <= i < |es| && es[i].face == face && es[i].cost == cost
  }

  /** The least cost below infinity that the entries give a face, or infinity. */
  function LeastCost(es: seq<FibEntry>, face: FaceId): nat {
    if es == [] then PFX_INFINITY
    else
      var e, rest := es[|es| - 1], LeastCost(es[..|es| - 1], face);
      if e.face == face && e.cost < rest then e.cost else rest
  }

  lemma {:induction false} LeastCostIsLeast(es: seq<FibEntry>, face: FaceId)
    ensures LeastCost(es, face) <= PFX_INFINITY
    ensures LeastCost(es, face) < PFX_INFINITY ==> Mentions(es, face, LeastCost(es, face))
    ensures forall c: nat :: Mentions(es, face, c) && c < PFX_INFINITY ==> LeastCost(es, face) <= c
  {
    if es != [] {
      LeastCostIsLeast(es[..|es| - 1], face);
      MentionsAppend(es[..|es| - 1], es[|es| - 1]);
      assert es[..|es| - 1] + [es[|es| - 1]] == es;
    }
  }

  lemma MentionsAppend(es: seq<FibEntry>, e: FibEntry)
    ensures forall f, c :: Mentions(es + [e], f, c) <==> Mentions(es, f, c) || (f == e.face && c == e.cost)
  {
    var more := es + [e];
    forall f, c | Mentions(es, f, c) || (f == e.face && c == e.cost)
      ensures Mentions(more, f, c)
    {
      if Mentions(es, f, c) {
        var i :| 0 <= i < |es| && es[i].face == f && es[i].cost == c;
        assert more[i].face == f;
      } else {
        assert more[|es|].face == f;
      }
    }
  }

  predicate HasFace(es: seq<FibEntry>, face: FaceId) {
    exists i :: 0 <= i < |es| && es[i].face == face
  }

  predicate DistinctFaces(es: seq<FibEntry>) {
    forall i, j :: 0 <= i < j < |es| ==> es[i].face != es[j].face
  }

  /** A stored list of next hops: one entry per face, each below infinity. */
  predicate Tidy(es: seq<FibEntry>) {
    DistinctFaces(es) && forall i :: 0 <= i < |es| ==> es[i].cost < PFX_INFINITY
  }

  lemma {:induction false} TidyCost(es: seq<FibEntry>, i: nat)
    requires DistinctFaces(es) && i < |es| && es[i].cost <= PFX_INFINITY
    ensures LeastCost(es, es[i].face) == es[i].cost
  {
    var rest := es[..|es| - 1];
    if i == |es| - 1 {
      NoFaceCost(rest, es[i].face);
    } else {
      TidyCost(rest, i);
    }
  }

  lemma {:induction false} NoFaceCost(es: seq<FibEntry>, face: FaceId)
    requires !HasFace(es, face)
    ensures LeastCost(es, face) == PFX_INFINITY
  {
    if es != [] {
      var rest := es[..|es| - 1];
      assert forall i :: 0 <= i < |rest| ==> rest[i].face == es[i].face;
      NoFaceCost(rest, face);
    }
  }

  // ----- The forwarder -----

  type Routes = map<(NameId, FaceId), nat>

  function Replay(cmds: seq<Command>): Routes {
    if cmds == [] then map[]
    else
      var routes := Replay(cmds[..|cmds| - 1]);
      match cmds[|cmds| - 1]
      case Register(n, f, c) => routes[(n, f) := c]
      case Unregister(n, f) => routes - {(n, f)}
  }

  function RouteCost(routes: Routes, n: NameId, f: FaceId): nat {
    if (n, f) in routes then routes[(n, f)] else PFX_INFINITY
  }

  function TableCost(prefixes: map<NameId, seq<FibEntry>>, n: NameId, f: FaceId): nat {
    if n in prefixes then LeastCost(prefixes[n], f) else PFX_INFINITY
  }

  /** The forwarder built by the commands holds exactly the routes of the table. */
  ghost predicate Mirrors(cmds: seq<Command>, prefixes: map<NameId, seq<FibEntry>>) {
    forall n: NameId, f: FaceId :: RouteCost(Replay(cmds), n, f) == TableCost(prefixes, n, f)
  }

  lemma ReplayAppend(cmds: seq<Command>, cmd: Command)
    ensures forall n: NameId, f: FaceId ::
      RouteCost(Replay(cmds + [cmd]), n, f)
      == (if n == cmd.name && f == cmd.face then (if cmd.Register? then cmd.cost else PFX_INFINITY)
          else RouteCost(Replay(cmds), n, f))
  {
    assert (cmds + [cmd])[..|cmds|] == cmds;
  }

  // ----- One prefix -----

  /** The working list of UpdateH: each entry holds the cost wanted and the cost before. */
  ghost predicate Merged(es: seq<FibEntry>, was: seq<FibEntry>, wanted: seq<FibEntry>) {
    && DistinctFaces(es)
    && (forall i :: 0 <= i < |es| ==>
          es[i].cost == LeastCost(wanted, es[i].face) && es[i].prevCost == LeastCost(was, es[i].face))
    && (forall i :: 0 <= i < |es| ==> es[i].cost < PFX_INFINITY || es[i].prevCost < PFX_INFINITY)
    && (forall f: FaceId :: LeastCost(wanted, f) < PFX_INFINITY ==> HasFace(es, f))
    && (forall f: FaceId :: HasFace(was, f) ==> HasFace(es, f))
  }

  method FindFace(es: seq<FibEntry>, face: FaceId) returns (at: nat)
    ensures at <= |es| && (at < |es| <==> HasFace(es, face)) && (at < |es| ==> es[at].face == face)
  {
    at := 0;
    while at < |es| && es[at].face != face
      invariant at <= |es| && forall j :: 0 <= j < at ==> es[j].face != face
    {
      at := at + 1;
    }
  }

  /** The first two loops of UpdateH. */
  method Merge(was: seq<FibEntry>, wanted: seq<FibEntry>) returns (es: seq<FibEntry>)
    requires Tidy(was)
    ensures Merged(es, was, wanted)
  {
    es := was;
    for i := 0 to |was|
      invariant |es| == |was|
      invariant forall j :: 0 <= j < i ==> es[j] == FibEntry(was[j].face, PFX_INFINITY, was[j].cost)
      invariant forall j :: i <= j < |was| ==> es[j] == was[j]
    {
      es := es[i := FibEntry(es[i].face, PFX_INFINITY, es[i].cost)];
    }
    forall i | 0 <= i < |es| ensures es[i].prevCost == LeastCost(was, es[i].face) { TidyCost(was, i); }
    forall f | HasFace(was, f) ensures HasFace(es, f) {
      var i :| 0 <= i < |was| && was[i].face == f;
      assert es[i].face == f;
    }
    for i := 0 to |wanted|
      invariant Merged(es, was, wanted[..i])
    {
      var e := wanted[i];
      assert wanted[..i + 1][..i] == wanted[..i];
      ghost var before := es;
      assert forall f: FaceId :: LeastCost(wanted[..i + 1], f)
                         == if f == e.face && e.cost < LeastCost(wanted[..i], f) then e.cost else LeastCost(wanted[..i], f);
      LeastCostIsLeast(wanted[..i], e.face);
      if e.cost < PFX_INFINITY {
        var at := FindFace(es, e.face);
        if at < |es| {
          es := es[at := es[at].(cost := if e.cost < es[at].cost then e.cost else es[at].cost)];
          MergeFound(before, was, wanted[..i], wanted[..i + 1], e, at, es);
        } else {
          es := es + [e.(prevCost := PFX_INFINITY)];
          MergeNew(before, was, wanted[..i], wanted[..i + 1], e, es);
        }
      }
    }
    assert wanted[..|wanted|] == wanted;
  }

  lemma MergeFound(es: seq<FibEntry>, was: seq<FibEntry>, wanted: seq<FibEntry>, wanted': seq<FibEntry>,
                   e: FibEntry, at: nat, es': seq<FibEntry>)
    requires Merged(es, was, wanted) && at < |es| && es[at].face == e.face
    requires forall f: FaceId :: LeastCost(wanted', f)
                         == if f == e.face && e.cost < LeastCost(wanted, f) then e.cost else LeastCost(wanted, f)
    requires es' == es[at := es[at].(cost := if e.cost < es[at].cost then e.cost else es[at].cost)]
    ensures Merged(es', was, wanted')
  {
    hide LeastCost;
    SameFaces(es, es');
    assert HasFace(es, e.face);
    forall i | 0 <= i < |es'|
      ensures es'[i].cost == LeastCost(wanted', es'[i].face) && es'[i].prevCost == LeastCost(was, es'[i].face)
    {
      assert es'[i].face == es[i].face;
      assert i != at ==> es[i].face != e.face;
    }
  }

  lemma SameFaces(es: seq<FibEntry>, es': seq<FibEntry>)
    requires |es| == |es'| && forall i :: 0 <= i < |es| ==> es[i].face == es'[i].face
    ensures forall f :: HasFace(es, f) ==> HasFace(es', f)
  {
    forall f | HasFace(es, f) ensures HasFace(es', f) {
      var i :| 0 <= i < |es| && es[i].face == f;
      assert es'[i].face == f;
    }
  }

  lemma MergeNew(es: seq<FibEntry>, was: seq<FibEntry>, wanted: seq<FibEntry>, wanted': seq<FibEntry>,
                 e: FibEntry, es': seq<FibEntry>)
    requires Merged(es, was, wanted) && !HasFace(es, e.face) && e.cost < PFX_INFINITY
    requires LeastCost(wanted, e.face) <= PFX_INFINITY
    requires forall f: FaceId :: LeastCost(wanted', f)
                         == if f == e.face && e.cost < LeastCost(wanted, f) then e.cost else LeastCost(wanted, f)
    requires es' == es + [e.(prevCost := PFX_INFINITY)]
    ensures Merged(es', was, wanted')
  {
    assert LeastCost(was, e.face) == PFX_INFINITY by { NoFaceCost(was, e.face); }
    hide LeastCost;
    forall f | HasFace(es, f) || f == e.face ensures HasFace(es', f) {
      if HasFace(es, f) {
        var i :| 0 <= i < |es| && es[i].face == f;
        assert es'[i].face == f;
      } else {
        assert es'[|es|].face == f;
      }
    }
  }

  lemma MergedCost(es: seq<FibEntry>, was: seq<FibEntry>, wanted: seq<FibEntry>, f: FaceId)
    requires Merged(es, was, wanted)
    ensures LeastCost(es, f) == LeastCost(wanted, f)
    ensures !HasFace(es, f) ==> LeastCost(wanted, f) == LeastCost(was, f) == PFX_INFINITY
  {
    LeastCostIsLeast(wanted, f);
    if HasFace(es, f) {
      var i :| 0 <= i < |es| && es[i].face == f;
      TidyCost(es, i);
    } else {
      NoFaceCost(es, f);
      NoFaceCost(was, f);
    }
  }

  /** The entries that stay reachable. */
  function Kept(es: seq<FibEntry>): seq<FibEntry> {
    if es == [] then []
    else Kept(es[..|es| - 1]) + if es[|es| - 1].cost < PFX_INFINITY then [es[|es| - 1]] else []
  }

  lemma {:induction false} KeptIn(es: seq<FibEntry>)
    ensures forall e :: e in Kept(es) <==> e in es && e.cost < PFX_INFINITY
  {
    if es != [] {
      KeptIn(es[..|es| - 1]);
      assert es == es[..|es| - 1] + [es[|es| - 1]];
    }
  }

  lemma {:induction false} KeptTidy(es: seq<FibEntry>)
    requires DistinctFaces(es)
    ensures Tidy(Kept(es))
  {
    if es != [] {
      var rest, e := es[..|es| - 1], es[|es| - 1];
      KeptTidy(rest);
      KeptIn(rest);
      forall k | 0 <= k < |Kept(rest)| ensures Kept(rest)[k].face != e.face {
        assert Kept(rest)[k] in rest;
      }
    }
  }

  lemma {:induction false} KeptCost(es: seq<FibEntry>, f: FaceId)
    ensures LeastCost(Kept(es), f) == LeastCost(es, f)
  {
    if es != [] {
      var rest, e := es[..|es| - 1], es[|es| - 1];
      KeptCost(rest, f);
      LeastCostIsLeast(rest, f);
      if e.cost < PFX_INFINITY {
        assert Kept(es)[..|Kept(rest)|] == Kept(rest);
      } else {
        assert Kept(es) == Kept(rest);
      }
    }
  }

  predicate DroppedIn(es: seq<FibEntry>, f: FaceId) {
    exists i :: 0 <= i < |es| && es[i].face == f && es[i].cost >= PFX_INFINITY
  }

  function After(drop: bool, cost: nat): nat {
    if drop then PFX_INFINITY else cost
  }

  /** The third loop of UpdateH: unregisters the routes that are no longer reachable. */
  method EmitUnregister(name: NameId, es: seq<FibEntry>, cmds: seq<Command>) returns (final: seq<FibEntry>, cmds': seq<Command>)
    ensures final == Kept(es) && cmds <= cmds'
    ensures cmds' == cmds <==> AllReachable(es)
    ensures forall n: NameId, f: FaceId ::
      RouteCost(Replay(cmds'), n, f) == After(n == name && DroppedIn(es, f), RouteCost(Replay(cmds), n, f))
  {
    hide DroppedIn, RouteCost, Replay;
    final, cmds' := [], cmds;
    DroppedNone();
    for i := 0 to |es|
      invariant final == Kept(es[..i]) && cmds <= cmds'
      invariant cmds' == cmds <==> forall j :: 0 <= j < i ==> es[j].cost < PFX_INFINITY
      invariant forall n: NameId, f: FaceId ::
        RouteCost(Replay(cmds'), n, f) == After(n == name && DroppedIn(es[..i], f), RouteCost(Replay(cmds), n, f))
    {
      assert es[..i + 1][..i] == es[..i] && es[..i + 1] == es[..i] + [es[i]];
      DroppedAppend(es[..i], es[i]);
      if es[i].cost >= PFX_INFINITY {
        ReplayAppend(cmds', Unregister(name, es[i].face));
        cmds' := cmds' + [Unregister(name, es[i].face)];
      } else {
        final := final + [es[i]];
      }
    }
    assert es[..|es|] == es;
  }

  /** The last loop of UpdateH: registers the routes that are new or have a new cost. */
  method EmitRegister(name: NameId, final: seq<FibEntry>, cmds: seq<Command>) returns (cmds': seq<Command>)
    requires Tidy(final)
    requires forall i :: 0 <= i < |final| ==> final[i].prevCost == RouteCost(Replay(cmds), name, final[i].face)
    ensures cmds <= cmds'
    ensures cmds' == cmds <==> AllUnchanged(final)
    ensures forall n: NameId, f: FaceId ::
      RouteCost(Replay(cmds'), n, f)
      == if n == name && HasFace(final, f) then LeastCost(final, f) else RouteCost(Replay(cmds), n, f)
  {
    hide HasFace, RouteCost, Replay, LeastCost;
    cmds' := cmds;
    HasFaceNone();
    for k := 0 to |final|
      invariant cmds <= cmds'
      invariant cmds' == cmds <==> forall j :: 0 <= j < k ==> final[j].cost == final[j].prevCost
      invariant forall n: NameId, f: FaceId ::
        RouteCost(Replay(cmds'), n, f)
        == if n == name && HasFace(final[..k], f) then LeastCost(final, f) else RouteCost(Replay(cmds), n, f)
    {
      var e := final[k];
      TidyCost(final, k);
      assert final[..k + 1] == final[..k] + [e];
      HasFaceAppend(final[..k], e);
      assert !HasFace(final[..k], e.face) by { NotBefore(final, k); }
      if e.cost != e.prevCost {
        ReplayAppend(cmds', Register(name, e.face, e.cost));
        cmds' := cmds' + [Register(name, e.face, e.cost)];
      }
    }
    assert final[..|final|] == final;
  }

  lemma NotBefore(es: seq<FibEntry>, k: nat)
    requires DistinctFaces(es) && k < |es|
    ensures !HasFace(es[..k], es[k].face)
  {
  }

  lemma DroppedNone()
    ensures forall f: FaceId :: !DroppedIn([], f)
  {
  }

  lemma HasFaceNone()
    ensures forall f: FaceId :: !HasFace([], f)
  {
  }

  lemma DroppedAppend(es: seq<FibEntry>, e: FibEntry)
    ensures forall f: FaceId :: DroppedIn(es + [e], f) <==> DroppedIn(es, f) || (f == e.face && e.cost >= PFX_INFINITY)
  {
    var more := es + [e];
    forall f: FaceId | DroppedIn(es, f) || (f == e.face && e.cost >= PFX_INFINITY)
      ensures DroppedIn(more, f)
    {
      if DroppedIn(es, f) {
        var i :| 0 <= i < |es| && es[i].face == f && es[i].cost >= PFX_INFINITY;
        assert more[i].face == f;
      } else {
        assert more[|es|].face == f;
      }
    }
  }

  lemma HasFaceAppend(es: seq<FibEntry>, e: FibEntry)
    ensures forall f: FaceId :: HasFace(es + [e], f) <==> HasFace(es, f) || f == e.face
  {
    var more := es + [e];
    forall f: FaceId | HasFace(es, f) || f == e.face
      ensures HasFace(more, f)
    {
      if HasFace(es, f) {
        var i :| 0 <= i < |es| && es[i].face == f;
        assert more[i].face == f;
      } else {
        assert more[|es|].face == f;
      }
    }
  }

  /** What the two emitting loops leave behind for one face. */
  lemma EmittedCost(es: seq<FibEntry>, was: seq<FibEntry>, wanted: seq<FibEntry>, f: FaceId)
    requires Merged(es, was, wanted)
    ensures LeastCost(Kept(es), f) == LeastCost(wanted, f)
    ensures !HasFace(Kept(es), f) ==> LeastCost(wanted, f) == After(DroppedIn(es, f), LeastCost(was, f))
  {
    KeptCost(es, f);
    MergedCost(es, was, wanted, f);
    if HasFace(es, f) {
      var i :| 0 <= i < |es| && es[i].face == f;
      LeastCostIsLeast(wanted, f);
      KeptIn(es);
      if es[i].cost < PFX_INFINITY {
        assert es[i] in Kept(es);
        assert HasFace(Kept(es), f);
      }
    }
  }

  ghost predicate SameLeast(es: seq<FibEntry>, es': seq<FibEntry>) {
    forall f: FaceId :: LeastCost(es, f) == LeastCost(es', f)
  }

  predicate AllReachable(es: seq<FibEntry>) {
    forall i :: 0 <= i < |es| ==> es[i].cost < PFX_INFINITY
  }

  predicate AllUnchanged(es: seq<FibEntry>) {
    forall i :: 0 <= i < |es| ==> es[i].cost == es[i].prevCost
  }

  lemma NothingEmitted(es: seq<FibEntry>, was: seq<FibEntry>, wanted: seq<FibEntry>)
    requires Merged(es, was, wanted)
    ensures AllReachable(es) && AllUnchanged(Kept(es)) <==> SameLeast(was, wanted)
  {
    KeptIn(es);
    if AllReachable(es) && AllUnchanged(Kept(es)) {
      forall f: FaceId ensures LeastCost(was, f) == LeastCost(wanted, f) {
        MergedCost(es, was, wanted, f);
        if HasFace(es, f) {
          var i :| 0 <= i < |es| && es[i].face == f;
          assert es[i] in Kept(es);
        }
      }
    }
    if SameLeast(was, wanted) {
      forall i | 0 <= i < |es| ensures es[i].cost == es[i].prevCost {
        assert LeastCost(was, es[i].face) == LeastCost(wanted, es[i].face);
      }
      forall k | 0 <= k < |Kept(es)| ensures Kept(es)[k].cost == Kept(es)[k].prevCost {
        assert Kept(es)[k] in es;
      }
    }
  }

  // ----- The table -----

  /** The next hops wanted for a name. */
  function Wanted(m: map<NameId, seq<FibEntry>>, n: NameId): seq<FibEntry> {
    if n in m then m[n] else []
  }

  ghost predicate TidyTable(prefixes: map<NameId, seq<FibEntry>>) {
    forall n :: n in prefixes ==> prefixes[n] != [] && Tidy(prefixes[n])
  }

  class Fib {
    var names: set<NameId>
    var prefixes: map<NameId, seq<FibEntry>>
    var mark: set<NameId>
    var sent: seq<Command>

    /** The stored lists are tidy and the forwarder mirrors them. */
    ghost predicate Valid()
      reads this
    {
      TidyTable(prefixes) && prefixes.Keys <= names && Mirrors(sent, prefixes)
    }

    constructor ()
      ensures Valid() && prefixes == map[] && sent == []
    {
      names, prefixes, mark, sent := {}, map[], {}, [];
    }

    /** UpdateH: makes the routes of one prefix those of `wanted`, with the fewest commands. */
    method UpdateH(name: NameId, wanted: seq<FibEntry>) returns (present: bool)
      requires Valid()
      modifies this
      ensures Valid()
      ensures TableIs(prefixes, name, wanted)
      ensures SameOutside(old(prefixes), prefixes, {name})
      ensures present <==> name in prefixes
      ensures present ==> mark == old(mark) && names == old(names) + {name}
      ensures !present ==> mark == old(mark) - {name} && names == old(names) - {name}
      ensures old(sent) <= sent
      ensures sent == old(sent) <==> SameLeast(Wanted(old(prefixes), name), wanted)
    {
      hide Merged, LeastCost, Kept, Replay, RouteCost, AllReachable, AllUnchanged, SameLeast;
      names := names + {name};
      var was := if name in prefixes then prefixes[name] else [];
      var es := Merge(was, wanted);
      assert DistinctFaces(es) by { MergedDistinct(es, was, wanted); }
      forall f: FaceId ensures RouteCost(Replay(sent), name, f) == LeastCost(was, f) {
        LeastCostNone(f);
        assert RouteCost(Replay(sent), name, f) == TableCost(prefixes, name, f);
      }
      ghost var before := sent;
      var final, cmds := EmitUnregister(name, es, sent);
      KeptTidy(es);
      forall k | 0 <= k < |final| ensures final[k].prevCost == RouteCost(Replay(cmds), name, final[k].face) {
        KeptPrev(es, was, wanted, k);
      }
      ghost var mid := cmds;
      cmds := EmitRegister(name, final, cmds);
      sent := cmds;
      forall f: FaceId
        ensures RouteCost(Replay(sent), name, f) == LeastCost(final, f) == LeastCost(wanted, f)
      {
        EmittedCost(es, was, wanted, f);
      }
      NothingEmitted(es, was, wanted);
      assert sent == before <==> mid == before && sent == mid;
      if |final| > 0 {
        prefixes := prefixes[name := final];
        present := true;
      } else {
        forall f: FaceId ensures LeastCost(final, f) == PFX_INFINITY { LeastCostNone(f); }
        prefixes := prefixes - {name};
        mark := mark - {name};
        names := names - {name};
        present := false;
      }
    }

    /** MarkH */
    method MarkH(name: NameId)
      modifies this`mark
      ensures mark == old(mark) + {name}
    {
      mark := mark + {name};
    }

    /** UnmarkAll */
    method UnmarkAll()
      modifies this`mark
      ensures mark == {}
    {
      mark := {};
    }

    /** RemoveUnmarked: names without a mark lose all their routes. */
    method RemoveUnmarked()
      requires Valid()
      modifies this
      ensures Valid()
      ensures forall n: NameId, f: FaceId ::
        TableCost(prefixes, n, f) == if n in old(mark) then TableCost(old(prefixes), n, f) else PFX_INFINITY
      ensures old(sent) <= sent
      ensures sent == old(sent) <==> old(prefixes).Keys <= old(mark)
    {
      hide Mirrors, LeastCost;
      ghost var start, marked, before := prefixes, mark, sent;
      var todo := prefixes.Keys;
      while todo != {}
        invariant Valid() && todo <= start.Keys && before <= sent
        invariant mark == marked
        invariant forall n :: n in todo || n in marked ==> (n in prefixes <==> n in start) && Wanted(prefixes, n) == Wanted(start, n)
        invariant forall n :: n in prefixes ==> n in start && (n in todo || n in marked)
        invariant sent == before <==> forall n :: n in start && n !in todo ==> n in marked
        decreases todo
      {
        var nh :| nh in todo;
        if nh !in mark {
          if nh in names {
            ghost var prior := prefixes[nh];
            assert !SameLeast(prior, []) by { TidyNotEmpty(prior); }
            var present := UpdateH(nh, []);
            assert !present by { AbsentIfEmpty(prefixes, nh); }
          }
        }
        todo := todo - {nh};
      }
    }

    /** The loop of updateFib that updates and marks the wanted names. */
    method UpdateAll(wanted: map<NameId, seq<FibEntry>>)
      requires Valid() && mark == {}
      modifies this
      ensures Valid() && mark == prefixes.Keys * wanted.Keys
      ensures forall n :: n in wanted ==> TableIs(prefixes, n, wanted[n])
      ensures SameOutside(old(prefixes), prefixes, wanted.Keys)
      ensures old(sent) <= sent
      ensures sent == old(sent) <==> NoneChanged(old(prefixes), wanted, {})
    {
      hide Mirrors, LeastCost, SameLeast, TableIs, TidyTable, SameOutside, NoneChanged, TableCost;
      ghost var start, before := prefixes, sent;
      var todo := wanted.Keys;
      NothingYet(start, wanted);
      while todo != {}
        invariant Valid() && todo <= wanted.Keys && before <= sent
        invariant mark == prefixes.Keys * (wanted.Keys - todo)
        invariant forall n :: n in wanted && n !in todo ==> TableIs(prefixes, n, wanted[n])
        invariant SameOutside(start, prefixes, wanted.Keys - todo)
        invariant sent == before <==> NoneChanged(start, wanted, todo)
        decreases todo
      {
        var n :| n in todo;
        ghost var prior := prefixes;
        var present := UpdateH(n, wanted[n]);
        TablesKept(prior, prefixes, n, wanted, todo);
        ChangeStep(start, prior, prefixes, wanted, todo, n);
        MarkStep(prior, prefixes, wanted.Keys, todo, n);
        if present {
          MarkH(n);
        }
        todo := todo - {n};
      }
      assert wanted.Keys - {} == wanted.Keys;
    }

    /** updateFib: the table becomes the best route to every reachable router's sync prefix and
        announced prefixes. */
    method UpdateFib(r: Routing, group: RouterId -> NameId)
      requires Valid()
      modifies this
      ensures Valid()
      ensures forall n: NameId, f: FaceId :: IsLeastOffer(r, group, n, f, TableCost(prefixes, n, f))
      ensures old(sent) <= sent
      ensures sent == old(sent) <==> SameTable(old(prefixes), prefixes)
    {
      hide Mirrors, LeastCost, IsLeastOffer, SameLeast, TableIs, TidyTable, Collected, SameTable, SameOutside, NoneChanged;
      ghost var start, before := prefixes, sent;
      var wanted := Collect(r, group);
      UnmarkAll();
      UpdateAll(wanted);
      ghost var mid, midSent := prefixes, sent;
      RemoveUnmarked();
      AllTablesSet(mid, prefixes, wanted);
      forall n: NameId, f: FaceId ensures IsLeastOffer(r, group, n, f, TableCost(prefixes, n, f)) {
        LeastOfWanted(r, group, wanted, n, f);
      }
      assert sent == before <==> midSent == before && sent == midSent;
      assert mid.Keys <= wanted.Keys <==> start.Keys <= wanted.Keys by { SameOutsideKeys(start, mid, wanted.Keys); }
      SameTableBy(start, prefixes, wanted);
    }
  }

  /** What updateFib reads: the best hops of the RIB, the faces of the neighbours and the prefixes
      announced by each router. */
  datatype Routing = Routing(
    self: RouterId,
    best: map<RouterId, Best>,
    faces: map<RouterId, FaceId>,
    announced: map<RouterId, map<NameId, nat>>)

  /** One of the two hop slots reaches the router through face `f` at cost `c`. */
  predicate HopOffers(b: Best, faces: map<RouterId, FaceId>, f: FaceId, c: nat) {
    || (b.hop1 in faces && b.cost1 < COST_INFINITY && f == faces[b.hop1] && c == b.cost1)
    || (b.hop2 in faces && b.cost2 < COST_INFINITY && f == faces[b.hop2] && c == b.cost2)
  }

  /** GetFibEntries */
  function GetFibEntries(b: Best, faces: map<RouterId, FaceId>): (es: seq<FibEntry>)
    ensures |es| <= 2
    ensures forall f: FaceId, c: nat :: Mentions(es, f, c) <==> HopOffers(b, faces, f, c)
  {
    var first := if b.hop1 in faces && b.cost1 < COST_INFINITY then [FibEntry(faces[b.hop1], b.cost1, 0)] else [];
    var second := if b.hop2 in faces && b.cost2 < COST_INFINITY then [FibEntry(faces[b.hop2], b.cost2, 0)] else [];
    assert forall f: FaceId, c: nat :: Mentions(first + second, f, c) <==> HopOffers(b, faces, f, c) by {
      MentionsNone();
      assert [] + second == second && first + [] == first;
      if b.hop1 in faces && b.cost1 < COST_INFINITY { MentionsAppend([], first[0]); assert [] + [first[0]] == first; }
      if b.hop2 in faces && b.cost2 < COST_INFINITY { MentionsAppend(first, second[0]); assert first + [second[0]] == first + second; }
    }
    first + second
  }

  lemma MentionsNone()
    ensures forall f: FaceId, c: nat :: !Mentions([], f, c)
  {
  }

  /** 64-bit sum of the cost of some hop slot and a prefix cost. */
  ghost predicate HopPriced(b: Best, faces: map<RouterId, FaceId>, f: FaceId, cost: nat, c: nat) {
    exists base: nat :: HopOffers(b, faces, f, base) && c == (base + cost) % TWO_TO_64
  }

  /** Router `d` offers name `n` over face `f` at cost `c`: its sync prefix at the cost of reaching
      it, an announced prefix at the sum of that and the announced cost. */
  ghost predicate RouterOffers(r: Routing, group: RouterId -> NameId, d: RouterId, n: NameId, f: FaceId, c: nat) {
    && d in r.best
    && (|| (n == group(d) && HopPriced(r.best[d], r.faces, f, 0, c))
        || (d in r.announced && n in r.announced[d] && HopPriced(r.best[d], r.faces, f, r.announced[d][n], c)))
  }

  ghost predicate Offered(r: Routing, group: RouterId -> NameId, ds: set<RouterId>, n: NameId, f: FaceId, c: nat) {
    exists d :: d in ds && RouterOffers(r, group, d, n, f, c)
  }

  /** The routers other than ourselves that the RIB can reach. */
  function Exits(r: Routing): set<RouterId> {
    set d | d in r.best && r.best[d].cost1 < COST_INFINITY && d != r.self
  }

  /** `c` is the least cost below infinity at which some exit router offers the name over the
      face, or infinity. */
  ghost predicate IsLeastOffer(r: Routing, group: RouterId -> NameId, n: NameId, f: FaceId, c: nat) {
    && c <= PFX_INFINITY
    && (c < PFX_INFINITY ==> Offered(r, group, Exits(r), n, f, c))
    && (forall x: nat :: x < PFX_INFINITY && Offered(r, group, Exits(r), n, f, x) ==> c <= x)
  }

  predicate Lists(m: map<NameId, seq<FibEntry>>, n: NameId, f: FaceId, c: nat) {
    Mentions(Wanted(m, n), f, c)
  }

  lemma ListsAppend(m: map<NameId, seq<FibEntry>>, name: NameId, e: FibEntry)
    ensures forall n: NameId, f: FaceId, c: nat ::
      Lists(m[name := Wanted(m, name) + [e]], n, f, c) <==> Lists(m, n, f, c) || (n == name && f == e.face && c == e.cost)
  {
    hide Mentions;
    var list, more := Wanted(m, name), m[name := Wanted(m, name) + [e]];
    MentionsAppend(list, e);
    forall n: NameId, f: FaceId, c: nat
      ensures Lists(more, n, f, c) <==> Lists(m, n, f, c) || (n == name && f == e.face && c == e.cost)
    {
      if n == name {
        assert Wanted(more, n) == list + [e];
      } else {
        assert Wanted(more, n) == Wanted(m, n);
      }
    }
  }

  /** The collected next hops are exactly those offered by the routers in `ds`. */
  ghost predicate Collected(m: map<NameId, seq<FibEntry>>, r: Routing, group: RouterId -> NameId, ds: set<RouterId>) {
    forall n: NameId, f: FaceId, c: nat :: Lists(m, n, f, c) <==> Offered(r, group, ds, n, f, c)
  }

  ghost predicate Priced(fes: seq<FibEntry>, f: FaceId, cost: nat, c: nat) {
    exists base: nat :: Mentions(fes, f, base) && c == (base + cost) % TWO_TO_64
  }

  lemma PricedAppend(fes: seq<FibEntry>, e: FibEntry, cost: nat)
    ensures forall f: FaceId, c: nat ::
      Priced(fes + [e], f, cost, c) <==> Priced(fes, f, cost, c) || (f == e.face && c == (e.cost + cost) % TWO_TO_64)
  {
    MentionsAppend(fes, e);
    forall f: FaceId, c: nat
      ensures Priced(fes + [e], f, cost, c) <==> Priced(fes, f, cost, c) || (f == e.face && c == (e.cost + cost) % TWO_TO_64)
    {
      if Priced(fes, f, cost, c) {
        var base: nat :| Mentions(fes, f, base) && c == (base + cost) % TWO_TO_64;
        assert Mentions(fes + [e], f, base);
      }
      if f == e.face && c == (e.cost + cost) % TWO_TO_64 {
        assert Mentions(fes + [e], f, e.cost);
      }
    }
  }

  /** The register helper of updateFib. */
  method RegisterAll(m: map<NameId, seq<FibEntry>>, name: NameId, fes: seq<FibEntry>, cost: nat)
    returns (m': map<NameId, seq<FibEntry>>)
    ensures forall n: NameId, f: FaceId, c: nat ::
      Lists(m', n, f, c) <==> Lists(m, n, f, c) || (n == name && Priced(fes, f, cost, c))
  {
    hide Lists, Priced;
    m' := m;
    PricedNone(cost);
    for i := 0 to |fes|
      invariant forall n: NameId, f: FaceId, c: nat ::
        Lists(m', n, f, c) <==> Lists(m, n, f, c) || (n == name && Priced(fes[..i], f, cost, c))
    {
      var fe := fes[i].(cost := (fes[i].cost + cost) % TWO_TO_64);
      assert fes[..i + 1] == fes[..i] + [fes[i]];
      PricedAppend(fes[..i], fes[i], cost);
      ListsAppend(m', name, fe);
      m' := m'[name := Wanted(m', name) + [fe]];
    }
    assert fes[..|fes|] == fes;
  }

  lemma PricedNone(cost: nat)
    ensures forall f: FaceId, c: nat :: !Priced([], f, cost, c)
  {
  }

  /** The loops of updateFib over the reachable routers and their prefixes. */
  method Collect(r: Routing, group: RouterId -> NameId) returns (m: map<NameId, seq<FibEntry>>)
    ensures Collected(m, r, group, Exits(r))
  {
    hide Lists, RouterOffers;
    m := map[];
    var todo := r.best.Keys;
    CollectedNone(r, group);
    while todo != {}
      invariant todo <= r.best.Keys
      invariant Collected(m, r, group, Exits(r) - todo)
      decreases todo
    {
      var d :| d in todo;
      if r.best[d].cost1 < COST_INFINITY && d != r.self {
        ghost var m0 := m;
        m := CollectRouter(m, r, group, d);
        CollectedStep(m0, m, r, group, Exits(r) - todo, d);
        assert Exits(r) - (todo - {d}) == Exits(r) - todo + {d};
      } else {
        assert Exits(r) - (todo - {d}) == Exits(r) - todo;
      }
      todo := todo - {d};
    }
    assert Exits(r) - {} == Exits(r);
  }

  method CollectRouter(m: map<NameId, seq<FibEntry>>, r: Routing, group: RouterId -> NameId, d: RouterId)
    returns (m': map<NameId, seq<FibEntry>>)
    requires d in r.best
    ensures forall n: NameId, f: FaceId, c: nat ::
      Lists(m', n, f, c) <==> Lists(m, n, f, c) || RouterOffers(r, group, d, n, f, c)
  {
    hide Lists, Priced, HopPriced;
    var fes := GetFibEntries(r.best[d], r.faces);
    m' := RegisterAll(m, group(d), fes, 0);
    PricedHops(r.best[d], r.faces, 0);
    var announced: map<NameId, nat> := if d in r.announced then r.announced[d] else map[];
    var todo := announced.Keys;
    while todo != {}
      invariant todo <= announced.Keys
      invariant forall n: NameId, f: FaceId, c: nat ::
        Lists(m', n, f, c)
        <==> Lists(m, n, f, c)
             || (n == group(d) && HopPriced(r.best[d], r.faces, f, 0, c))
             || (n in announced && n !in todo && HopPriced(r.best[d], r.faces, f, announced[n], c))
      decreases todo
    {
      var p :| p in todo;
      m' := RegisterAll(m', p, fes, announced[p]);
      PricedHops(r.best[d], r.faces, announced[p]);
      todo := todo - {p};
    }
  }

  lemma PricedHops(b: Best, faces: map<RouterId, FaceId>, cost: nat)
    ensures forall f: FaceId, c: nat :: Priced(GetFibEntries(b, faces), f, cost, c) <==> HopPriced(b, faces, f, cost, c)
  {
    hide Mentions, HopOffers;
    var fes := GetFibEntries(b, faces);
    forall f: FaceId, c: nat
      ensures Priced(fes, f, cost, c) <==> HopPriced(b, faces, f, cost, c)
    {
      if Priced(fes, f, cost, c) {
        var base: nat :| Mentions(fes, f, base) && c == (base + cost) % TWO_TO_64;
        assert HopOffers(b, faces, f, base);
      }
      if HopPriced(b, faces, f, cost, c) {
        var base: nat :| HopOffers(b, faces, f, base) && c == (base + cost) % TWO_TO_64;
        assert Mentions(fes, f, base);
      }
    }
  }

  lemma CollectedNone(r: Routing, group: RouterId -> NameId)
    ensures Collected(map[], r, group, Exits(r) - r.best.Keys)
  {
  }

  lemma CollectedStep(m: map<NameId, seq<FibEntry>>, m': map<NameId, seq<FibEntry>>, r: Routing, group: RouterId -> NameId,
                      ds: set<RouterId>, d: RouterId)
    requires Collected(m, r, group, ds)
    requires forall n: NameId, f: FaceId, c: nat ::
      Lists(m', n, f, c) <==> Lists(m, n, f, c) || RouterOffers(r, group, d, n, f, c)
    ensures Collected(m', r, group, ds + {d})
  {
    hide Lists, RouterOffers;
    forall n: NameId, f: FaceId, c: nat
      ensures Offered(r, group, ds + {d}, n, f, c) <==> Offered(r, group, ds, n, f, c) || RouterOffers(r, group, d, n, f, c)
    {
    }
  }

  ghost predicate TableIs(prefixes: map<NameId, seq<FibEntry>>, n: NameId, es: seq<FibEntry>) {
    forall f: FaceId :: TableCost(prefixes, n, f) == LeastCost(es, f)
  }

  ghost predicate TableIsAll(prefixes: map<NameId, seq<FibEntry>>, wanted: map<NameId, seq<FibEntry>>) {
    forall n: NameId, f: FaceId :: TableCost(prefixes, n, f) == LeastCost(Wanted(wanted, n), f)
  }

  ghost predicate SameTable(a: map<NameId, seq<FibEntry>>, b: map<NameId, seq<FibEntry>>) {
    forall n: NameId, f: FaceId :: TableCost(a, n, f) == TableCost(b, n, f)
  }

  ghost predicate SameOutside(a: map<NameId, seq<FibEntry>>, b: map<NameId, seq<FibEntry>>, ns: set<NameId>) {
    forall n :: n !in ns ==> (n in a <==> n in b) && Wanted(a, n) == Wanted(b, n)
  }

  ghost predicate NoneChanged(start: map<NameId, seq<FibEntry>>, wanted: map<NameId, seq<FibEntry>>, todo: set<NameId>) {
    forall n :: n in wanted && n !in todo ==> SameLeast(Wanted(start, n), wanted[n])
  }

  lemma SameOutsideKeys(a: map<NameId, seq<FibEntry>>, b: map<NameId, seq<FibEntry>>, ns: set<NameId>)
    requires SameOutside(a, b, ns)
    ensures a.Keys <= ns <==> b.Keys <= ns
  {
  }

  lemma MarkStep(a: map<NameId, seq<FibEntry>>, b: map<NameId, seq<FibEntry>>, ns: set<NameId>, todo: set<NameId>, n: NameId)
    requires SameOutside(a, b, {n}) && n in todo && n in ns
    ensures b.Keys * (ns - (todo - {n})) == a.Keys * (ns - todo) - {n} + if n in b then {n} else {}
  {
    assert forall x :: x != n ==> (x in a <==> x in b);
  }

  lemma NothingYet(start: map<NameId, seq<FibEntry>>, wanted: map<NameId, seq<FibEntry>>)
    ensures SameOutside(start, start, wanted.Keys - wanted.Keys) && NoneChanged(start, wanted, wanted.Keys)
  {
  }

  lemma ChangeStep(start: map<NameId, seq<FibEntry>>, prior: map<NameId, seq<FibEntry>>, now: map<NameId, seq<FibEntry>>,
                   wanted: map<NameId, seq<FibEntry>>, todo: set<NameId>, n: NameId)
    requires n in todo && n in wanted && SameOutside(start, prior, wanted.Keys - todo)
    requires SameOutside(prior, now, {n})
    ensures SameOutside(start, now, wanted.Keys - (todo - {n}))
    ensures NoneChanged(start, wanted, todo - {n}) <==> NoneChanged(start, wanted, todo) && SameLeast(Wanted(prior, n), wanted[n])
  {
    hide SameLeast;
    assert Wanted(start, n) == Wanted(prior, n);
  }

  lemma TablesKept(prior: map<NameId, seq<FibEntry>>, now: map<NameId, seq<FibEntry>>, n: NameId,
                   wanted: map<NameId, seq<FibEntry>>, todo: set<NameId>)
    requires n in wanted && n in todo
    requires forall x :: x in wanted && x !in todo ==> TableIs(prior, x, wanted[x])
    requires SameOutside(prior, now, {n}) && TableIs(now, n, wanted[n])
    ensures forall x :: x in wanted && x !in todo - {n} ==> TableIs(now, x, wanted[x])
  {
    forall x | x in wanted && x !in todo ensures TableIs(now, x, wanted[x]) {
      assert TableIs(prior, x, wanted[x]) && Wanted(prior, x) == Wanted(now, x);
      forall f: FaceId ensures TableCost(now, x, f) == LeastCost(wanted[x], f) {
        assert TableCost(prior, x, f) == LeastCost(wanted[x], f);
      }
    }
  }

  lemma AllTablesSet(mid: map<NameId, seq<FibEntry>>, now: map<NameId, seq<FibEntry>>, wanted: map<NameId, seq<FibEntry>>)
    requires forall n :: n in wanted ==> TableIs(mid, n, wanted[n])
    requires forall n: NameId, f: FaceId ::
      TableCost(now, n, f) == if n in mid.Keys * wanted.Keys then TableCost(mid, n, f) else PFX_INFINITY
    ensures TableIsAll(now, wanted)
  {
    forall n: NameId, f: FaceId ensures TableCost(now, n, f) == LeastCost(Wanted(wanted, n), f) {
      LeastCostNone(f);
      if n in wanted {
        assert TableIs(mid, n, wanted[n]);
        assert TableCost(mid, n, f) == LeastCost(wanted[n], f);
      }
    }
  }

  lemma LeastOfWanted(r: Routing, group: RouterId -> NameId, m: map<NameId, seq<FibEntry>>, n: NameId, f: FaceId)
    requires Collected(m, r, group, Exits(r))
    ensures IsLeastOffer(r, group, n, f, LeastCost(Wanted(m, n), f))
  {
    hide Mentions, Offered;
    LeastCostIsLeast(Wanted(m, n), f);
    assert forall c: nat :: Lists(m, n, f, c) <==> Mentions(Wanted(m, n), f, c);
  }

  lemma SameTableBy(start: map<NameId, seq<FibEntry>>, now: map<NameId, seq<FibEntry>>, wanted: map<NameId, seq<FibEntry>>)
    requires TidyTable(start) && TableIsAll(now, wanted)
    ensures SameTable(start, now)
            <==> start.Keys <= wanted.Keys && NoneChanged(start, wanted, {})
  {
    if SameTable(start, now) {
      forall n | n in start ensures n in wanted {
        TidyNotEmpty(start[n]);
        var f: FaceId :| LeastCost(start[n], f) != LeastCost([], f);
        assert TableCost(start, n, f) == TableCost(now, n, f);
      }
      forall n, f: FaceId | n in wanted ensures LeastCost(Wanted(start, n), f) == LeastCost(wanted[n], f) {
        LeastCostNone(f);
        assert TableCost(start, n, f) == TableCost(now, n, f);
      }
    }
    if start.Keys <= wanted.Keys && NoneChanged(start, wanted, {}) {
      forall n: NameId, f: FaceId ensures TableCost(start, n, f) == TableCost(now, n, f) {
        LeastCostNone(f);
        if n in wanted {
          assert SameLeast(Wanted(start, n), wanted[n]);
          assert LeastCost(Wanted(start, n), f) == LeastCost(wanted[n], f);
        }
      }
    }
  }

  lemma MergedDistinct(es: seq<FibEntry>, was: seq<FibEntry>, wanted: seq<FibEntry>)
    requires Merged(es, was, wanted)
    ensures DistinctFaces(es)
  {
  }

  lemma LeastCostNone(f: FaceId)
    ensures LeastCost([], f) == PFX_INFINITY
  {
  }

  lemma KeptPrev(es: seq<FibEntry>, was: seq<FibEntry>, wanted: seq<FibEntry>, k: nat)
    requires Merged(es, was, wanted) && k < |Kept(es)|
    ensures Kept(es)[k].prevCost == LeastCost(was, Kept(es)[k].face)
    ensures !DroppedIn(es, Kept(es)[k].face)
  {
    KeptIn(es);
    assert Kept(es)[k] in es;
  }

  lemma TidyNotEmpty(es: seq<FibEntry>)
    requires es != [] && Tidy(es)
    ensures !SameLeast(es, [])
  {
    TidyCost(es, 0);
    assert LeastCost(es, es[0].face) != LeastCost([], es[0].face);
  }

  lemma AbsentIfEmpty(prefixes: map<NameId, seq<FibEntry>>, n: NameId)
    requires TidyTable(prefixes) && TableIs(prefixes, n, [])
    ensures n !in prefixes
  {
    if n in prefixes {
      TidyNotEmpty(prefixes[n]);
    }
  }
}
