/** The name-tree FIB (fw/table/fib-strategy-tree.go). Nodes are kept in one map keyed by their name;
    a node lists the last components of its children. */
module FibTree {
  import opened NdnName
  import opened Wrappers
  import opened FibSpec

  datatype Node = Node(entry: Entry, children: seq<Component>)

  type Nodes = map<Name, Node>

  ghost predicate DistinctChildren(children: seq<Component>) {
    forall i, j :: 0 <= i < j < |children| ==> children[i] != children[j]
  }

  predicate Listed(nodes: Nodes, n: Name) {
    n == [] || (Parent(n) in nodes && n[|n| - 1] in nodes[Parent(n)].children)
  }

  predicate HasChild(nodes: Nodes, n: Name, c: Component) {
    n in nodes && c in nodes[n].children
  }

  /** The map spells a tree: every node is listed by its parent, every listed child exists once. */
  ghost predicate TreeOk(nodes: Nodes) {
    && [] in nodes
    && (forall n {:trigger Listed(nodes, n)} :: n in nodes ==> Listed(nodes, n))
    && (forall n, c {:trigger HasChild(nodes, n, c)} :: HasChild(nodes, n, c) ==> n + [c] in nodes)
    && (forall n :: n in nodes ==> DistinctChildren(nodes[n].children))
  }

  function Entries(nodes: Nodes): map<Name, Entry> {
    map n | n in nodes :: nodes[n].entry
  }

  lemma {:induction false} PrefixClosed(nodes: Nodes, name: Name, i: nat, j: nat)
    requires TreeOk(nodes) && i <= j <= |name| && name[..j] in nodes
    ensures name[..i] in nodes
    decreases j - i
  {
    if i < j {
      assert Listed(nodes, name[..j]) && Parent(name[..j]) == name[..j - 1];
      PrefixClosed(nodes, name, i, j - 1);
    }
  }

  /** findLongestPrefixEntryEnc, from a node that spells a prefix of the name. */
  function FindLongest(nodes: Nodes, at: Name, name: Name): (r: Name)
    requires TreeOk(nodes) && at in nodes && at <= name
    ensures r <= name && Longest(nodes, name, |r|)
    decreases |name| - |at|
  {
    assert name[..|at|] == at;
    if |name| > |at| && name[|at|] in nodes[at].children then
      assert HasChild(nodes, at, name[|at|]);
      FindLongest(nodes, at + [name[|at|]], name)
    else
      DeadEnd(nodes, at, name);
      at
  }

  lemma DeadEnd(nodes: Nodes, at: Name, name: Name)
    requires TreeOk(nodes) && at in nodes && at <= name
    requires |name| > |at| ==> name[|at|] !in nodes[at].children
    ensures forall j :: |at| < j <= |name| ==> name[..j] !in nodes
  {
    if |name| > |at| {
      var next := name[..|at| + 1];
      assert Parent(next) == at && next[|at|] == name[|at|];
      assert !Listed(nodes, next);
      forall j | |at| < j <= |name| ensures name[..j] !in nodes {
        if name[..j] in nodes {
          PrefixClosed(nodes, name, |at| + 1, j);
        }
      }
    }
  }

  /** findExactMatchEntryEnc finds a node exactly when there is one. */
  function FindExact(nodes: Nodes, name: Name): (r: Option<Name>)
    requires TreeOk(nodes)
    ensures r == if name in nodes then Some(name) else None
  {
    var match_ := FindLongest(nodes, [], name);
    assert name[..|name|] == name && name[..|match_|] == match_;
    if |name| == |match_| then Some(match_) else None
  }

  // ----- Growing and pruning -----

  function Grown(nodes: Nodes, at: Name, c: Component): Nodes
    requires at in nodes
  {
    nodes[at := nodes[at].(children := nodes[at].children + [c])][at + [c] := Node(EMPTY, [])]
  }

  lemma GrownOk(nodes: Nodes, at: Name, c: Component)
    requires TreeOk(nodes) && at in nodes && at + [c] !in nodes
    ensures TreeOk(Grown(nodes, at, c))
  {
    hide DistinctChildren;
    var more, kids := Grown(nodes, at, c), nodes[at].children;
    assert Parent(at + [c]) == at && more[at].children[|kids|] == c;
    forall n | n in more ensures Listed(more, n) {
      assert n in nodes ==> Listed(nodes, n);
    }
    forall n, k | HasChild(more, n, k) ensures n + [k] in more {
      assert HasChild(nodes, n, k) || (n == at && k == c);
    }
    assert !HasChild(nodes, at, c);
    DistinctMore(kids, c);
    forall n | n in more ensures DistinctChildren(more[n].children) {
      assert more[n].children == if n == at then kids + [c] else if n == at + [c] then [] else nodes[n].children;
    }
  }

  lemma DistinctMore(kids: seq<Component>, c: Component)
    requires DistinctChildren(kids) && c !in kids
    ensures DistinctChildren(kids + [c]) && DistinctChildren([])
  {
  }

  lemma DistinctLess(kids: seq<Component>, i: nat)
    requires DistinctChildren(kids) && i < |kids|
    ensures DistinctChildren(kids[..i] + kids[i + 1..])
    ensures forall c :: c in kids[..i] + kids[i + 1..] <==> c in kids && c != kids[i]
  {
    var rest := kids[..i] + kids[i + 1..];
    forall c | c in kids && c != kids[i] ensures c in rest {
      var k :| 0 <= k < |kids| && kids[k] == c;
      assert rest[if k < i then k else k - 1] == c;
    }
  }

  lemma GrownSame(nodes: Nodes, at: Name, c: Component)
    requires at in nodes && at + [c] !in nodes
    ensures forall n :: At(Entries(Grown(nodes, at, c)), n) == At(Entries(nodes), n)
  {
  }

  /** fillTreeToPrefixEnc */
  method Fill(nodes0: Nodes, name: Name) returns (nodes: Nodes)
    requires TreeOk(nodes0)
    ensures TreeOk(nodes) && name in nodes
    ensures forall n :: At(Entries(nodes), n) == At(Entries(nodes0), n)
  {
    hide TreeOk;
    nodes := nodes0;
    assert [] in nodes0 by { RootOk(nodes0); }
    var at := FindLongest(nodes0, [], name);
    assert name[..|at|] == at;
    while |at| < |name|
      invariant TreeOk(nodes) && at <= name && at in nodes
      invariant forall j :: |at| < j <= |name| ==> name[..j] !in nodes
      invariant forall n :: At(Entries(nodes), n) == At(Entries(nodes0), n)
    {
      var c := name[|at|];
      assert at + [c] == name[..|at| + 1];
      GrownOk(nodes, at, c);
      GrownSame(nodes, at, c);
      nodes := Grown(nodes, at, c);
      at := at + [c];
    }
    assert at == name;
  }

  lemma RootOk(nodes: Nodes)
    requires TreeOk(nodes)
    ensures [] in nodes
  {
  }

  predicate Bare(node: Node) {
    node.children == [] && node.entry == EMPTY
  }

  /** The tree without the leaf `f`, unlinked at place `i` of its parent's children. */
  function Unlinked(nodes: Nodes, f: Name, i: nat): Nodes
    requires f != [] && Parent(f) in nodes && i < |nodes[Parent(f)].children|
  {
    var kids := nodes[Parent(f)].children;
    nodes[Parent(f) := nodes[Parent(f)].(children := kids[..i] + kids[i + 1..])] - {f}
  }

  lemma UnlinkedOk(nodes: Nodes, f: Name, i: nat)
    requires TreeOk(nodes) && f in nodes && f != [] && Bare(nodes[f]) && Parent(f) in nodes
    requires i < |nodes[Parent(f)].children| && nodes[Parent(f)].children[i] == f[|f| - 1]
    ensures TreeOk(Unlinked(nodes, f, i))
  {
    hide DistinctChildren;
    var less, up, kids := Unlinked(nodes, f, i), Parent(f), nodes[Parent(f)].children;
    var rest := kids[..i] + kids[i + 1..];
    assert f == up + [f[|f| - 1]];
    DistinctLess(kids, i);
    forall n | n in less ensures Listed(less, n) {
      assert Listed(nodes, n);
      if n != [] {
        assert n == Parent(n) + [n[|n| - 1]];
      }
    }
    forall n, c | HasChild(less, n, c) ensures n + [c] in less {
      assert HasChild(nodes, n, c);
      assert (n + [c])[..|n|] == n;
    }
    forall n | n in less ensures DistinctChildren(less[n].children) {
      assert less[n].children == if n == up then rest else nodes[n].children;
    }
  }

  lemma UnlinkedSame(nodes: Nodes, f: Name, i: nat)
    requires f in nodes && f != [] && Bare(nodes[f]) && Parent(f) in nodes && i < |nodes[Parent(f)].children|
    ensures forall n :: At(Entries(Unlinked(nodes, f, i)), n) == At(Entries(nodes), n)
  {
  }

  /** pruneIfEmpty: the loop climbs, but every round looks for the first node only, so nothing above
      it is removed. */
  method PruneIfEmpty(nodes0: Nodes, f: Name) returns (nodes: Nodes)
    requires TreeOk(nodes0) && f in nodes0
    ensures TreeOk(nodes) && forall n :: At(Entries(nodes), n) == At(Entries(nodes0), n)
    ensures nodes.Keys == if f != [] && Bare(nodes0[f]) then nodes0.Keys - {f} else nodes0.Keys
  {
    hide DistinctChildren;
    nodes := nodes0;
    var entry := f;
    while entry != [] && Bare(nodes[entry])
      invariant TreeOk(nodes) && entry in nodes && |entry| <= |f|
      invariant |entry| == |f| ==> entry == f && nodes == nodes0
      invariant |entry| < |f| ==> Bare(nodes0[f]) && nodes.Keys == nodes0.Keys - {f}
      invariant forall n :: At(Entries(nodes), n) == At(Entries(nodes0), n)
      decreases |entry|
    {
      assert Listed(nodes, entry);
      var up := Parent(entry);
      var kids := nodes[up].children;
      var i := 0;
      while i < |kids| && up + [kids[i]] != f
        invariant 0 <= i <= |kids| && forall j :: 0 <= j < i ==> up + [kids[j]] != f
      {
        i := i + 1;
      }
      if entry == f {
        assert up + [f[|f| - 1]] == f;
      }
      if i < |kids| {
        assert entry == f && kids[i] == f[|f| - 1];
        UnlinkedOk(nodes, f, i);
        UnlinkedSame(nodes, f, i);
        nodes := Unlinked(nodes, f, i);
      }
      entry := up;
    }
  }

  lemma EntryOk(nodes: Nodes, n: Name, e: Entry)
    requires TreeOk(nodes) && n in nodes
    ensures TreeOk(nodes[n := nodes[n].(entry := e)])
    ensures Entries(nodes[n := nodes[n].(entry := e)]) == Entries(nodes)[n := e]
  {
    var more := nodes[n := nodes[n].(entry := e)];
    forall x | x in more ensures Listed(more, x) {
      assert Listed(nodes, x);
    }
    forall x, c | HasChild(more, x, c) ensures x + [c] in more {
      assert HasChild(nodes, x, c);
    }
  }

  // ----- Lookups -----

  /** FindNextHopsEnc */
  method FindNextHops(nodes: Nodes, name: Name) returns (r: seq<NextHop>)
    requires TreeOk(nodes) && AllDistinct(Entries(nodes))
    ensures FoundHops(View(Entries(nodes)), name, r)
  {
    var at := FindLongest(nodes, [], name);
    ghost var hops := View(Entries(nodes)).hops;
    assert name[..|at|] == at;
    while true
      invariant at <= name && at in nodes && forall j :: |at| < j <= |name| ==> name[..j] !in hops
      decreases |at|
    {
      if nodes[at].entry.hops != [] {
        assert name[..|at|] == at;
        LookupFrom(hops, name, |at|);
        return nodes[at].entry.hops;
      }
      if at == [] {
        break;
      }
      assert name[..|at|] == at && Listed(nodes, at);
      at := Parent(at);
    }
    LookupIsLongest(hops, name);
    return [];
  }

  /** FindStrategyEnc */
  method FindStrategy(nodes: Nodes, name: Name) returns (r: Option<Name>)
    requires TreeOk(nodes)
    ensures r == Lookup(View(Entries(nodes)).strategies, name)
  {
    var at := FindLongest(nodes, [], name);
    ghost var all := View(Entries(nodes)).strategies;
    assert name[..|at|] == at;
    while true
      invariant at <= name && at in nodes && forall j :: |at| < j <= |name| ==> name[..j] !in all
      decreases |at|
    {
      if nodes[at].entry.strategy != None {
        assert name[..|at|] == at;
        LookupFrom(all, name, |at|);
        return nodes[at].entry.strategy;
      }
      if at == [] {
        break;
      }
      assert name[..|at|] == at && Listed(nodes, at);
      at := Parent(at);
    }
    LookupIsLongest(all, name);
    return None;
  }

  /** Removal at `i` with the rest shifted. */
  function Shifted(hops: seq<NextHop>, i: nat): seq<NextHop>
    requires i < |hops|
  {
    hops[..i] + hops[i + 1..]
  }

  lemma ShiftedAt(hops: seq<NextHop>, i: nat)
    requires Distinct(hops) && i < |hops|
    ensures Distinct(Shifted(hops, i))
    ensures forall j :: 0 <= j < |hops| - 1 ==> Shifted(hops, i)[j] == hops[if j < i then j else j + 1]
  {
    var r := Shifted(hops, i);
    forall j, k | 0 <= j < k < |r| ensures r[j].face != r[k].face {
      assert hops[if j < i then j else j + 1].face != hops[if k < i then k else k + 1].face;
    }
  }

  lemma RemovedShift(hops: seq<NextHop>, i: nat)
    requires Distinct(hops) && i < |hops|
    ensures Distinct(Shifted(hops, i)) && CostsOf(Shifted(hops, i)) == CostsOf(hops) - {hops[i].face}
  {
    hide CostsOf, Shifted;
    var r, costs := Shifted(hops, i), CostsOf(hops) - {hops[i].face};
    CostsAt(hops);
    ShiftedAt(hops, i);
    CostsAt(r);
    assert |r| == |hops| - 1 by { ShiftedLength(hops, i); }
    forall j | 0 <= j < |r| ensures r[j].face in costs && costs[r[j].face] == r[j].cost {
      assert r[j] == hops[if j < i then j else j + 1];
    }
    forall f: FaceId | f in costs ensures exists j :: 0 <= j < |r| && r[j].face == f {
      var j :| 0 <= j < |hops| && hops[j].face == f;
      var k := if j < i then j else j - 1;
      assert 0 <= k < |r| && r[k] == hops[if k < i then k else k + 1];
    }
    CostsAre(r, costs);
  }

  lemma ShiftedLength(hops: seq<NextHop>, i: nat)
    requires i < |hops|
    ensures |Shifted(hops, i)| == |hops| - 1
  {
  }

  /** The removal loop of RemoveNextHopEnc. */
  method DropHop(hops: seq<NextHop>, face: FaceId) returns (r: seq<NextHop>)
    requires Distinct(hops)
    ensures Distinct(r) && CostsOf(r) == CostsOf(hops) - {face}
  {
    CostsAt(hops);
    for i := 0 to |hops|
      invariant forall j :: 0 <= j < i ==> hops[j].face != face
    {
      if hops[i].face == face {
        RemovedShift(hops, i);
        return Shifted(hops, i);
      }
    }
    assert CostsOf(hops) - {face} == CostsOf(hops);
    return hops;
  }

  class TreeFib {
    var nodes: Nodes

    ghost predicate Valid()
      reads this
    {
      TreeOk(nodes) && AllDistinct(Entries(nodes))
    }

    function Meaning(): Table
      reads this
    {
      View(Entries(nodes))
    }

    constructor (defaultStrategy: Name)
      ensures Valid() && Meaning() == Table(map[], map[[] := defaultStrategy])
    {
      nodes := map[[] := Node(Entry([], Some(defaultStrategy)), [])];
    }

    method FindHops(name: Name) returns (r: seq<NextHop>)
      requires Valid()
      ensures FoundHops(Meaning(), name, r)
    {
      r := FindNextHops(nodes, name);
    }

    method FindStrategyOf(name: Name) returns (r: Option<Name>)
      requires Valid()
      ensures r == Lookup(Meaning().strategies, name)
    {
      r := FindStrategy(nodes, name);
    }

    /** Every insertion: the path to the name is filled in and its entry replaced. */
    method Store(name: Name, e: Entry)
      requires Valid() && Distinct(e.hops)
      modifies this
      ensures Valid() && Meaning() == View(Entries(old(nodes))[name := e])
    {
      hide TreeOk, View;
      ghost var was := Entries(nodes);
      var filled := Fill(nodes, name);
      EntryOk(filled, name, e);
      nodes := filled[name := filled[name].(entry := e)];
      assert AllDistinct(Entries(nodes)) by {
        forall n | n in Entries(nodes) ensures Distinct(Entries(nodes)[n].hops) {
          assert n != name ==> Entries(nodes)[n] == At(Entries(filled), n) == At(was, n);
        }
      }
      forall n ensures At(Entries(nodes), n) == At(was[name := e], n) {
        assert At(Entries(filled), n) == At(was, n);
      }
      ViewIgnoresEmpty(Entries(nodes), was[name := e]);
    }

    /** InsertNextHopEnc */
    method InsertNextHop(name: Name, face: FaceId, cost: nat)
      requires Valid()
      modifies this
      ensures Valid() && Meaning() == Apply(old(Meaning()), Insert(name, face, cost))
    {
      hide TreeOk, View;
      ghost var was := Entries(nodes);
      var e := if name in nodes then nodes[name].entry else EMPTY;
      assert e == At(was, name);
      var hops := SetHop(e.hops, face, cost);
      Store(name, e.(hops := hops));
      ViewHops(was, name, hops);
      CostsEmpty(hops);
    }

    /** SetStrategyEnc */
    method SetStrategy(name: Name, strategy: Name)
      requires Valid()
      modifies this
      ensures Valid() && Meaning() == Apply(old(Meaning()), Update.SetStrategy(name, strategy))
    {
      hide TreeOk, View;
      ghost var was := Entries(nodes);
      var e := if name in nodes then nodes[name].entry else EMPTY;
      assert e == At(was, name);
      Store(name, e.(strategy := Some(strategy)));
      ViewStrategy(was, name, Some(strategy));
    }

    /** ClearNextHopsEnc: a nil name is ignored, and the node is never pruned. */
    method ClearNextHops(name: Name, isNil: bool)
      requires Valid() && (isNil ==> name == [])
      modifies this
      ensures Valid() && Meaning() == if isNil then old(Meaning()) else Apply(old(Meaning()), Clear(name))
    {
      hide TreeOk, View;
      if isNil {
        return;
      }
      ghost var was := Entries(nodes);
      ViewHops(was, name, []);
      var node := FindExact(nodes, name);
      if node.Some? {
        EntryOk(nodes, name, nodes[name].entry.(hops := []));
        nodes := nodes[name := nodes[name].(entry := nodes[name].entry.(hops := []))];
      } else {
        ViewIgnoresEmpty(was, was[name := EMPTY]);
      }
    }

    /** The end of every other removal: the entry is replaced and its node pruned if bare. */
    method Release(name: Name, e: Entry)
      requires Valid() && name in nodes && Distinct(e.hops)
      modifies this
      ensures Valid() && Meaning() == View(Entries(old(nodes))[name := e])
    {
      hide TreeOk, View;
      ghost var was := Entries(nodes);
      EntryOk(nodes, name, e);
      var changed := nodes[name := nodes[name].(entry := e)];
      nodes := PruneIfEmpty(changed, name);
      assert AllDistinct(Entries(nodes)) by {
        forall n | n in Entries(nodes) ensures Distinct(Entries(nodes)[n].hops) {
          assert Entries(nodes)[n] == At(Entries(nodes), n) == At(Entries(changed), n);
        }
      }
      ViewIgnoresEmpty(Entries(nodes), was[name := e]);
    }

    /** RemoveNextHopEnc */
    method RemoveNextHop(name: Name, face: FaceId)
      requires Valid()
      modifies this
      ensures Valid() && Meaning() == Apply(old(Meaning()), Remove(name, face))
    {
      hide TreeOk, View;
      ghost var was := Entries(nodes);
      var node := FindExact(nodes, name);
      if node == None {
        ViewHops(was, name, []);
        ViewIgnoresEmpty(was, was[name := EMPTY]);
        assert CostsOf([]) - {face} == CostsOf([]);
        return;
      }
      assert was[name] == nodes[name].entry;
      var hops := DropHop(nodes[name].entry.hops, face);
      ViewHops(was, name, hops);
      Release(name, nodes[name].entry.(hops := hops));
    }

    /** UnSetStrategyEnc */
    method UnsetStrategy(name: Name)
      requires Valid()
      modifies this
      ensures Valid() && Meaning() == Apply(old(Meaning()), Update.UnsetStrategy(name))
    {
      hide TreeOk, View;
      ghost var was := Entries(nodes);
      ViewStrategy(was, name, None);
      var node := FindExact(nodes, name);
      if node.Some? {
        assert was[name] == nodes[name].entry;
        Release(name, nodes[name].entry.(strategy := None));
      } else {
        ViewIgnoresEmpty(was, was[name := EMPTY]);
      }
    }
  }
}
