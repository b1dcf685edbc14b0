/** What both FIB tables mean: next hops and strategies per name, found by longest prefix. */
module FibSpec {
  import opened NdnName
  import opened Wrappers

  type FaceId = nat
  type Costs = map<FaceId, nat>

  /** FibNextHopEntry */
  datatype NextHop = NextHop(face: FaceId, cost: nat)

  /** baseFibStrategyEntry; its name is the key it is stored under. */
  datatype Entry = Entry(hops: seq<NextHop>, strategy: Option<Name>)

  const EMPTY := Entry([], None)

  // ----- The abstract table -----

  /** Names without next hops or without a strategy are absent from the respective map. */
  datatype Table = Table(hops: map<Name, Costs>, strategies: map<Name, Name>)

  datatype Update =
    | Insert(name: Name, face: FaceId, cost: nat)
    | Remove(name: Name, face: FaceId)
    | Clear(name: Name)
    | SetStrategy(name: Name, strategy: Name)
    | UnsetStrategy(name: Name)

  function HopsAt(t: Table, n: Name): Costs {
    if n in t.hops then t.hops[n] else map[]
  }

  function WithHops(t: Table, n: Name, costs: Costs): Table {
    t.(hops := if costs == map[] then t.hops - {n} else t.hops[n := costs])
  }

  function Apply(t: Table, u: Update): Table {
    match u
    case Insert(n, f, c) => WithHops(t, n, HopsAt(t, n)[f := c])
    case Remove(n, f) => WithHops(t, n, HopsAt(t, n) - {f})
    case Clear(n) => WithHops(t, n, map[])
    case SetStrategy(n, s) => t.(strategies := t.strategies[n := s])
    case UnsetStrategy(n) => t.(strategies := t.strategies - {n})
  }

  function Run(t: Table, updates: seq<Update>): Table {
    if updates == [] then t else Apply(Run(t, updates[..|updates| - 1]), updates[|updates| - 1])
  }

  /** The updates that decide whether a name has a next hop. */
  predicate Touches(u: Update, n: Name, f: FaceId) {
    match u
    case Insert(m, g, _) => m == n && g == f
    case Remove(m, g) => m == n && g == f
    case Clear(m) => m == n
    case _ => false
  }

  /** What one update does: an insertion sets the cost, a removal or a clearing takes the next hop away,
      and all others leave it as it is. */
  lemma ApplyHops(t: Table, u: Update, n: Name, f: FaceId)
    ensures Touches(u, n, f) && u.Insert? ==> f in HopsAt(Apply(t, u), n) && HopsAt(Apply(t, u), n)[f] == u.cost
    ensures Touches(u, n, f) && !u.Insert? ==> f !in HopsAt(Apply(t, u), n)
    ensures !Touches(u, n, f) ==> (f in HopsAt(Apply(t, u), n) <==> f in HopsAt(t, n))
    ensures !Touches(u, n, f) && f in HopsAt(t, n) ==> HopsAt(Apply(t, u), n)[f] == HopsAt(t, n)[f]
  {
  }

  /** The last update that touches a next hop decides over it. */
  lemma {:induction false} LastUpdateDecides(t: Table, us: seq<Update>, n: Name, f: FaceId, i: nat)
    requires i < |us| && Touches(us[i], n, f) && forall j :: i < j < |us| ==> !Touches(us[j], n, f)
    ensures f in HopsAt(Run(t, us), n) <==> us[i].Insert?
    ensures us[i].Insert? ==> HopsAt(Run(t, us), n)[f] == us[i].cost
  {
    hide Apply;
    var k := |us| - 1;
    ApplyHops(Run(t, us[..k]), us[k], n, f);
    if i < k {
      LastUpdateDecides(t, us[..k], n, f, i);
    }
  }

  /** Without any, it stays as it was. */
  lemma {:induction false} UntouchedStays(t: Table, us: seq<Update>, n: Name, f: FaceId)
    requires forall j :: 0 <= j < |us| ==> !Touches(us[j], n, f)
    ensures f in HopsAt(Run(t, us), n) <==> f in HopsAt(t, n)
    ensures f in HopsAt(t, n) ==> HopsAt(Run(t, us), n)[f] == HopsAt(t, n)[f]
  {
    hide Apply;
    if us != [] {
      var k := |us| - 1;
      UntouchedStays(t, us[..k], n, f);
      ApplyHops(Run(t, us[..k]), us[k], n, f);
    }
  }

  /** The updates that decide over the strategy of a name. */
  predicate Chooses(u: Update, n: Name) {
    (u.SetStrategy? || u.UnsetStrategy?) && u.name == n
  }

  lemma ApplyStrategy(t: Table, u: Update, n: Name)
    ensures Chooses(u, n) ==> (n in Apply(t, u).strategies <==> u.SetStrategy?)
    ensures Chooses(u, n) && u.SetStrategy? ==> Apply(t, u).strategies[n] == u.strategy
    ensures !Chooses(u, n) ==> (n in Apply(t, u).strategies <==> n in t.strategies)
    ensures !Chooses(u, n) && n in t.strategies ==> Apply(t, u).strategies[n] == t.strategies[n]
  {
  }

  /** The last of them does, and without any the strategy stays as it was. */
  lemma {:induction false} LastChoiceDecides(t: Table, us: seq<Update>, n: Name, i: nat)
    requires i < |us| && Chooses(us[i], n) && forall j :: i < j < |us| ==> !Chooses(us[j], n)
    ensures n in Run(t, us).strategies <==> us[i].SetStrategy?
    ensures us[i].SetStrategy? ==> Run(t, us).strategies[n] == us[i].strategy
  {
    hide Apply;
    var k := |us| - 1;
    ApplyStrategy(Run(t, us[..k]), us[k], n);
    if i < k {
      LastChoiceDecides(t, us[..k], n, i);
    }
  }

  lemma {:induction false} UnchosenStays(t: Table, us: seq<Update>, n: Name)
    requires forall j :: 0 <= j < |us| ==> !Chooses(us[j], n)
    ensures n in Run(t, us).strategies <==> n in t.strategies
    ensures n in t.strategies ==> Run(t, us).strategies[n] == t.strategies[n]
  {
    hide Apply;
    if us != [] {
      var k := |us| - 1;
      UnchosenStays(t, us[..k], n);
      ApplyStrategy(Run(t, us[..k]), us[k], n);
    }
  }

  /** Names without next hops are absent, so that the longest prefix found has some. */
  lemma {:induction false} NoEmptyHops(t: Table, us: seq<Update>)
    requires forall n :: n in t.hops ==> t.hops[n] != map[]
    ensures forall n :: n in Run(t, us).hops ==> Run(t, us).hops[n] != map[]
  {
    if us != [] {
      NoEmptyHops(t, us[..|us| - 1]);
    }
  }

  /** The value of the longest prefix of the name that has one. */
  function Lookup<T>(m: map<Name, T>, name: Name): Option<T> {
    if name in m then Some(m[name])
    else if name == [] then None
    else Lookup(m, name[..|name| - 1])
  }

  lemma {:induction false} LookupIsLongest<T>(m: map<Name, T>, name: Name)
    ensures forall k: nat :: Longest(m, name, k) ==> Lookup(m, name) == Some(m[name[..k]])
    ensures (forall k :: 0 <= k <= |name| ==> name[..k] !in m) <==> Lookup(m, name) == None
    ensures Lookup(m, name).Some? ==> exists k: nat :: Longest(m, name, k)
  {
    assert name[..|name|] == name;
    if name in m {
      assert Longest(m, name, |name|);
    } else if name != [] {
      var up := name[..|name| - 1];
      LookupIsLongest(m, up);
      assert forall k :: 0 <= k <= |up| ==> up[..k] == name[..k];
      forall k: nat ensures Longest(m, name, k) <==> Longest(m, up, k) {
      }
    }
  }

  /** Prefixes skipped because they hold nothing do not matter. */
  lemma {:induction false} LookupFrom<T>(m: map<Name, T>, name: Name, k: nat)
    requires k <= |name| && forall j :: k < j <= |name| ==> name[..j] !in m
    ensures Lookup(m, name) == Lookup(m, name[..k])
    decreases |name|
  {
    assert name[..|name|] == name;
    if k < |name| {
      var up := name[..|name| - 1];
      assert forall j :: 0 <= j <= |up| ==> up[..j] == name[..j];
      LookupFrom(m, up, k);
    }
  }

  // ----- Next hop lists -----

  ghost predicate Distinct(hops: seq<NextHop>) {
    forall i, j :: 0 <= i < j < |hops| ==> hops[i].face != hops[j].face
  }

  function CostsOf(hops: seq<NextHop>): Costs {
    if hops == [] then map[]
    else CostsOf(hops[..|hops| - 1])[hops[|hops| - 1].face := hops[|hops| - 1].cost]
  }

  lemma {:induction false} CostsAt(hops: seq<NextHop>)
    requires Distinct(hops)
    ensures forall i :: 0 <= i < |hops| ==> hops[i].face in CostsOf(hops) && CostsOf(hops)[hops[i].face] == hops[i].cost
    ensures forall f: FaceId :: f in CostsOf(hops) ==> exists i :: 0 <= i < |hops| && hops[i].face == f
  {
    if hops != [] {
      var init := hops[..|hops| - 1];
      CostsAt(init);
      forall f: FaceId | f in CostsOf(hops) ensures exists i :: 0 <= i < |hops| && hops[i].face == f {
        if f == hops[|hops| - 1].face {
        } else {
          assert f in CostsOf(init);
          var i :| 0 <= i < |init| && init[i].face == f;
          assert hops[i].face == f;
        }
      }
    }
  }

  /** A list and a map that agree both ways. */
  lemma CostsAre(hops: seq<NextHop>, costs: Costs)
    requires Distinct(hops)
    requires forall i :: 0 <= i < |hops| ==> hops[i].face in costs && costs[hops[i].face] == hops[i].cost
    requires forall f: FaceId :: f in costs ==> exists i :: 0 <= i < |hops| && hops[i].face == f
    ensures CostsOf(hops) == costs
  {
    CostsAt(hops);
    forall f: FaceId ensures f in CostsOf(hops) <==> f in costs {
    }
  }

  /** The insertion loop that both tables share: update the face's entry, or append one. */
  method SetHop(hops: seq<NextHop>, face: FaceId, cost: nat) returns (r: seq<NextHop>)
    requires Distinct(hops)
    ensures Distinct(r) && CostsOf(r) == CostsOf(hops)[face := cost]
  {
    CostsAt(hops);
    for i := 0 to |hops|
      invariant forall j :: 0 <= j < i ==> hops[j].face != face
    {
      if hops[i].face == face {
        r := hops[i := NextHop(face, cost)];
        var costs := CostsOf(hops)[face := cost];
        forall f: FaceId | f in costs ensures exists j :: 0 <= j < |r| && r[j].face == f {
          var j :| 0 <= j < |hops| && hops[j].face == f;
          assert r[j].face == f;
        }
        CostsAre(r, costs);
        return;
      }
    }
    r := hops + [NextHop(face, cost)];
    assert r[..|hops|] == hops;
  }

  // ----- What a set of entries means -----

  function At(entries: map<Name, Entry>, n: Name): Entry {
    if n in entries then entries[n] else EMPTY
  }

  ghost predicate AllDistinct(entries: map<Name, Entry>) {
    forall n :: n in entries ==> Distinct(entries[n].hops)
  }

  function View(entries: map<Name, Entry>): Table {
    Table(map n | n in entries && entries[n].hops != [] :: CostsOf(entries[n].hops),
          map n | n in entries && entries[n].strategy.Some? :: entries[n].strategy.value)
  }

  /** Entries that hold nothing are invisible. */
  lemma ViewIgnoresEmpty(a: map<Name, Entry>, b: map<Name, Entry>)
    requires forall n :: At(a, n) == At(b, n)
    ensures View(a) == View(b)
  {
    forall n: Name
      ensures n in View(a).hops <==> n in View(b).hops
      ensures n in View(a).hops ==> View(a).hops[n] == View(b).hops[n]
      ensures n in View(a).strategies <==> n in View(b).strategies
      ensures n in View(a).strategies ==> View(a).strategies[n] == View(b).strategies[n]
    {
      assert At(a, n) == At(b, n);
    }
    assert View(a).hops == View(b).hops && View(a).strategies == View(b).strategies;
  }

  lemma CostsEmpty(hops: seq<NextHop>)
    ensures CostsOf(hops) == map[] <==> hops == []
  {
    if hops != [] {
      assert hops[|hops| - 1].face in CostsOf(hops);
    }
  }

  lemma ViewHops(entries: map<Name, Entry>, n: Name, hops: seq<NextHop>)
    ensures View(entries[n := At(entries, n).(hops := hops)]) == WithHops(View(entries), n, CostsOf(hops))
    ensures HopsAt(View(entries), n) == CostsOf(At(entries, n).hops)
  {
    hide CostsOf;
    CostsEmpty(hops);
    CostsEmpty(At(entries, n).hops);
    var v, w := View(entries[n := At(entries, n).(hops := hops)]), WithHops(View(entries), n, CostsOf(hops));
    assert v.hops == w.hops;
    assert v.strategies == w.strategies;
  }

  lemma ViewStrategy(entries: map<Name, Entry>, n: Name, s: Option<Name>)
    ensures View(entries[n := At(entries, n).(strategy := s)])
         == Apply(View(entries), if s.Some? then SetStrategy(n, s.value) else UnsetStrategy(n))
  {
    var v := View(entries[n := At(entries, n).(strategy := s)]);
    var w := Apply(View(entries), if s.Some? then SetStrategy(n, s.value) else UnsetStrategy(n));
    assert v.hops == w.hops;
    assert v.strategies == w.strategies;
  }

  /** What every lookup of a table must return. */
  ghost predicate FoundHops(t: Table, name: Name, r: seq<NextHop>) {
    Distinct(r) && CostsOf(r) == match Lookup(t.hops, name) case Some(c) => c case None => map[]
  }
}
