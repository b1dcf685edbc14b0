/** The path-discovery state machine of the MARS strategy for one prefix (fw/fw/multipath.go). */
module PathDiscovery {
  import opened Wrappers

  type Face = nat

  /** hopSnapshot */
  datatype Hop = Hop(face: Face, cost: nat)

  type Tier = seq<Hop>
  type Tiers = seq<Tier>

  const UINT64: nat := 0x1_0000_0000_0000_0000

  // ----- How often a face occurs -----

  function TierTimes(tier: Tier, f: Face): nat {
    if tier == [] then 0 else TierTimes(tier[..|tier| - 1], f) + if tier[|tier| - 1].face == f then 1 else 0
  }

  function Times(tiers: Tiers, f: Face): nat {
    if tiers == [] then 0 else Times(tiers[..|tiers| - 1], f) + TierTimes(tiers[|tiers| - 1], f)
  }

  lemma {:induction false} TierTimesZero(tier: Tier, f: Face)
    ensures TierTimes(tier, f) == 0 <==> forall i :: 0 <= i < |tier| ==> tier[i].face != f
  {
    if tier != [] {
      TierTimesZero(tier[..|tier| - 1], f);
    }
  }

  lemma {:induction false} TimesAtLeast(tiers: Tiers, i: nat, f: Face)
    requires i < |tiers|
    ensures Times(tiers, f) >= TierTimes(tiers[i], f)
  {
    if i < |tiers| - 1 {
      TimesAtLeast(tiers[..|tiers| - 1], i, f);
    }
  }

  lemma {:induction false} TimesSet(tiers: Tiers, i: nat, tier: Tier, f: Face)
    requires i < |tiers|
    ensures Times(tiers[i := tier], f) + TierTimes(tiers[i], f) == Times(tiers, f) + TierTimes(tier, f)
  {
    var k := |tiers| - 1;
    if i < k {
      TimesSet(tiers[..k], i, tier, f);
      assert tiers[i := tier][..k] == tiers[..k][i := tier];
    } else {
      assert tiers[i := tier][..k] == tiers[..k];
    }
  }

  /** The faces kept by a test are counted as before, the others not at all. */
  lemma {:induction false} TimesKept(a: Tiers, b: Tiers, f: Face, kept: bool)
    requires |a| == |b| && forall i :: 0 <= i < |a| ==> TierTimes(b[i], f) == if kept then TierTimes(a[i], f) else 0
    ensures Times(b, f) == if kept then Times(a, f) else 0
  {
    if a != [] {
      TimesKept(a[..|a| - 1], b[..|b| - 1], f, kept);
    }
  }

  // ----- Grouping by cost -----

  function OfCost(hops: Tier, c: nat): Tier {
    if hops == [] then [] else OfCost(hops[..|hops| - 1], c) + if hops[|hops| - 1].cost == c then [hops[|hops| - 1]] else []
  }

  function TimesWithin(hops: Tier, f: Face, costs: set<nat>): nat {
    if hops == [] then 0
    else TimesWithin(hops[..|hops| - 1], f, costs) + if hops[|hops| - 1].face == f && hops[|hops| - 1].cost in costs then 1 else 0
  }

  lemma {:induction false} OneCostMore(hops: Tier, f: Face, costs: set<nat>, c: nat)
    requires c !in costs
    ensures TimesWithin(hops, f, costs + {c}) == TimesWithin(hops, f, costs) + TierTimes(OfCost(hops, c), f)
  {
    if hops != [] {
      var init, last := hops[..|hops| - 1], hops[|hops| - 1];
      OneCostMore(init, f, costs, c);
      var tier := OfCost(init, c);
      assert (tier + [last])[..|tier|] == tier && tier + [] == tier;
    }
  }

  lemma {:induction false} AllCosts(hops: Tier, f: Face, costs: set<nat>)
    requires forall i :: 0 <= i < |hops| ==> hops[i].cost in costs
    ensures TimesWithin(hops, f, costs) == TierTimes(hops, f)
  {
    if hops != [] {
      AllCosts(hops[..|hops| - 1], f, costs);
    }
  }

  lemma {:induction false} NoCosts(hops: Tier, f: Face)
    ensures TimesWithin(hops, f, {}) == 0
  {
    if hops != [] {
      NoCosts(hops[..|hops| - 1], f);
    }
  }

  ghost predicate Increasing(costs: seq<nat>) {
    forall i, j :: 0 <= i < j < |costs| ==> costs[i] < costs[j]
  }

  /** The tiers of a snapshot: one per cost, cheapest first. */
  ghost predicate Grouped(hops: Tier, tiers: Tiers, costs: seq<nat>) {
    && |tiers| == |costs| && Increasing(costs)
    && (forall i :: 0 <= i < |tiers| ==> tiers[i] == OfCost(hops, costs[i]))
    && (forall c: nat :: c in costs <==> HasCost(hops, c))
  }

  lemma InsertedIncreases(costs: seq<nat>, i: nat, c: nat)
    requires Increasing(costs) && i <= |costs| && (i > 0 ==> costs[i - 1] < c) && (i < |costs| ==> c < costs[i])
    ensures Increasing(costs[..i] + [c] + costs[i..])
  {
    var r := costs[..i] + [c] + costs[i..];
    forall j, k | 0 <= j < k < |r| ensures r[j] < r[k] {
      var x, y := if j < i then j else j - 1, if k < i then k else k - 1;
      assert j != i ==> r[j] == costs[x];
      assert k != i ==> r[k] == costs[y];
      assert j < i ==> costs[j] <= costs[i - 1];
      assert k > i ==> costs[i] <= costs[y];
    }
  }

  lemma InsertedIn(costs: seq<nat>, i: nat, c: nat, x: nat)
    requires i <= |costs|
    ensures x in costs[..i] + [c] + costs[i..] <==> x in costs || x == c
  {
    assert costs == costs[..i] + costs[i..];
  }

  method InsertCost(costs: seq<nat>, c: nat) returns (r: seq<nat>)
    requires Increasing(costs) && c !in costs
    ensures Increasing(r) && forall x: nat :: x in r <==> x in costs || x == c
  {
    hide Increasing;
    var i := 0;
    while i < |costs| && costs[i] < c
      invariant 0 <= i <= |costs| && (i > 0 ==> costs[i - 1] < c)
    {
      i := i + 1;
    }
    assert i < |costs| ==> costs[i] in costs;
    r := costs[..i] + [c] + costs[i..];
    InsertedIncreases(costs, i, c);
    forall x: nat ensures x in r <==> x in costs || x == c { InsertedIn(costs, i, c, x); }
  }

  /** sort.Slice on the distinct costs. */
  method SortCosts(costs: seq<nat>) returns (r: seq<nat>)
    requires forall i, j :: 0 <= i < j < |costs| ==> costs[i] != costs[j]
    ensures Increasing(r) && forall x: nat :: x in r <==> x in costs
  {
    hide Increasing;
    r := [];
    assert Increasing([]) by { IncreasingNone(); }
    for i := 0 to |costs|
      invariant Increasing(r) && forall x: nat :: x in r <==> x in costs[..i]
    {
      assert costs[..i + 1] == costs[..i] + [costs[i]];
      r := InsertCost(r, costs[i]);
    }
    assert costs[..|costs|] == costs;
  }

  lemma IncreasingNone()
    ensures Increasing([])
  {
  }

  lemma OfCostStep(hops: Tier, i: nat, c: nat)
    requires i < |hops|
    ensures OfCost(hops[..i + 1], c) == OfCost(hops[..i], c) + if hops[i].cost == c then [hops[i]] else []
  {
    assert hops[..i + 1][..i] == hops[..i];
  }

  lemma OfCostNone(c: nat)
    ensures OfCost([], c) == []
  {
  }

  ghost predicate HasCost(hops: Tier, c: nat) {
    exists i :: 0 <= i < |hops| && hops[i].cost == c
  }

  lemma HasCostStep(hops: Tier, i: nat, c: nat)
    requires i < |hops|
    ensures HasCost(hops[..i + 1], c) <==> HasCost(hops[..i], c) || hops[i].cost == c
    ensures !HasCost([], c)
  {
    if HasCost(hops[..i], c) {
      var j :| 0 <= j < i && hops[..i][j].cost == c;
      assert hops[..i + 1][j].cost == c;
    }
    if hops[i].cost == c {
      assert hops[..i + 1][i].cost == c;
    }
  }

  /** The collecting loop of groupHopSnapshotsByCost. */
  method CollectCosts(hops: Tier) returns (byCost: map<nat, Tier>, costs: seq<nat>)
    ensures forall i, j :: 0 <= i < j < |costs| ==> costs[i] != costs[j]
    ensures forall c: nat :: c in costs <==> HasCost(hops, c)
    ensures forall c: nat :: c in costs <==> c in byCost
    ensures forall c: nat :: c in byCost ==> byCost[c] == OfCost(hops, c)
  {
    hide OfCost, HasCost;
    byCost, costs := map[], [];
    forall c: nat ensures OfCost([], c) == [] && !HasCost([], c) { OfCostNone(c); HasCostNone(c); }
    for i := 0 to |hops|
      invariant forall j, k :: 0 <= j < k < |costs| ==> costs[j] != costs[k]
      invariant forall c: nat :: c in costs <==> HasCost(hops[..i], c)
      invariant forall c: nat :: c in costs <==> c in byCost
      invariant forall c: nat :: OfCost(hops[..i], c) == if c in byCost then byCost[c] else []
    {
      var cost := hops[i].cost;
      ghost var before := byCost;
      if cost !in byCost {
        costs := costs + [cost];
        byCost := byCost[cost := []];
      }
      byCost := byCost[cost := byCost[cost] + [hops[i]]];
      forall c: nat
        ensures OfCost(hops[..i + 1], c) == if c in byCost then byCost[c] else []
        ensures c in costs <==> HasCost(hops[..i + 1], c)
      {
        OfCostStep(hops, i, c);
        HasCostStep(hops, i, c);
        assert OfCost(hops[..i], c) + [] == OfCost(hops[..i], c);
      }
    }
    assert hops[..|hops|] == hops;
  }

  lemma HasCostNone(c: nat)
    ensures !HasCost([], c)
  {
  }

  /** groupHopSnapshotsByCost */
  method GroupByCost(hops: Tier) returns (tiers: Tiers, costs: seq<nat>)
    ensures Grouped(hops, tiers, costs)
  {
    hide OfCost, Increasing;
    var byCost, found := CollectCosts(hops);
    costs := SortCosts(found);
    tiers := [];
    for k := 0 to |costs|
      invariant |tiers| == k && forall j :: 0 <= j < k ==> tiers[j] == OfCost(hops, costs[j])
    {
      tiers := tiers + [byCost[costs[k]]];
    }
  }

  function CostSet(costs: seq<nat>): set<nat> {
    set c | c in costs
  }

  lemma CostSetStep(costs: seq<nat>, k: nat)
    requires 0 < k <= |costs|
    ensures CostSet(costs[..k]) == CostSet(costs[..k - 1]) + {costs[k - 1]}
  {
    assert costs[..k] == costs[..k - 1] + [costs[k - 1]];
  }

  lemma {:induction false} GroupedUpTo(hops: Tier, tiers: Tiers, costs: seq<nat>, k: nat, f: Face)
    requires Grouped(hops, tiers, costs) && k <= |tiers|
    ensures Times(tiers[..k], f) == TimesWithin(hops, f, CostSet(costs[..k]))
  {
    if k == 0 {
      NoCosts(hops, f);
      assert CostSet(costs[..k]) == {};
    } else {
      hide OfCost, TimesWithin, TierTimes;
      GroupedUpTo(hops, tiers, costs, k - 1, f);
      assert tiers[..k][..k - 1] == tiers[..k - 1];
      CostSetStep(costs, k);
      assert costs[k - 1] !in CostSet(costs[..k - 1]);
      OneCostMore(hops, f, CostSet(costs[..k - 1]), costs[k - 1]);
    }
  }

  /** Grouping loses no hop and adds none. */
  lemma GroupedTimes(hops: Tier, tiers: Tiers, costs: seq<nat>, f: Face)
    requires Grouped(hops, tiers, costs)
    ensures Times(tiers, f) == TierTimes(hops, f)
  {
    GroupedUpTo(hops, tiers, costs, |tiers|, f);
    assert tiers[..|tiers|] == tiers && costs[..|costs|] == costs;
    forall i | 0 <= i < |hops| ensures hops[i].cost in CostSet(costs) {
      assert HasCost(hops, hops[i].cost);
    }
    AllCosts(hops, f, CostSet(costs));
  }

  // ----- The wait list -----

  ghost predicate Unique(faces: seq<Face>) {
    forall i, j :: 0 <= i < j < |faces| ==> faces[i] != faces[j]
  }

  function SetOf(faces: seq<Face>): set<Face> {
    set f | f in faces
  }

  /** The wait list holds each valid face once, and no other. */
  ghost predicate Once(wait: Tiers, valid: set<Face>) {
    forall f: Face :: Times(wait, f) == if f in valid then 1 else 0
  }

  function FacesOf(tier: Tier): set<Face> {
    set j | 0 <= j < |tier| :: tier[j].face
  }

  function Everything(tiers: Tiers): set<Face> {
    set i, j | 0 <= i < |tiers| && 0 <= j < |tiers[i]| :: tiers[i][j].face
  }

  lemma FacesTimes(tier: Tier, f: Face)
    ensures f in FacesOf(tier) <==> TierTimes(tier, f) > 0
  {
    TierTimesZero(tier, f);
  }

  lemma TimesEverything(tiers: Tiers, f: Face)
    ensures f in Everything(tiers) <==> Times(tiers, f) > 0
  {
    if f in Everything(tiers) {
      var i, j :| 0 <= i < |tiers| && 0 <= j < |tiers[i]| && tiers[i][j].face == f;
      TierTimesZero(tiers[i], f);
      TimesAtLeast(tiers, i, f);
    }
    if Times(tiers, f) > 0 {
      TimesFound(tiers, f);
    }
  }

  lemma {:induction false} TimesFound(tiers: Tiers, f: Face)
    requires Times(tiers, f) > 0
    ensures exists i, j :: 0 <= i < |tiers| && 0 <= j < |tiers[i]| && tiers[i][j].face == f
  {
    var k := |tiers| - 1;
    if TierTimes(tiers[k], f) > 0 {
      TierTimesZero(tiers[k], f);
      var j :| 0 <= j < |tiers[k]| && tiers[k][j].face == f;
    } else {
      TimesFound(tiers[..k], f);
      var i, j :| 0 <= i < k && 0 <= j < |tiers[..k][i]| && tiers[..k][i][j].face == f;
      assert tiers[i][j].face == f;
    }
  }

  /** The hops whose faces are kept, in order. */
  function Within(tier: Tier, keep: set<Face>): Tier {
    if tier == [] then []
    else Within(tier[..|tier| - 1], keep) + if tier[|tier| - 1].face in keep then [tier[|tier| - 1]] else []
  }

  /** The hops whose faces do not leave, in order. */
  function Less(tier: Tier, gone: set<Face>): Tier {
    if tier == [] then []
    else Less(tier[..|tier| - 1], gone) + if tier[|tier| - 1].face in gone then [] else [tier[|tier| - 1]]
  }

  function LessAll(tiers: Tiers, gone: set<Face>): Tiers {
    seq(|tiers|, i requires 0 <= i < |tiers| => Less(tiers[i], gone))
  }

  lemma TierTimesAppend(tier: Tier, h: Hop, f: Face)
    ensures TierTimes(tier + [h], f) == TierTimes(tier, f) + if h.face == f then 1 else 0
  {
    assert (tier + [h])[..|tier|] == tier;
  }

  lemma TierTimesStep(tier: Tier, f: Face)
    requires tier != []
    ensures var init, last := tier[..|tier| - 1], tier[|tier| - 1];
      tier == init + [last] && TierTimes(tier, f) == TierTimes(init, f) + if last.face == f then 1 else 0
  {
  }

  lemma WithinStep(tier: Tier, keep: set<Face>)
    requires tier != []
    ensures var init, last := tier[..|tier| - 1], tier[|tier| - 1];
      Within(tier, keep) == if last.face in keep then Within(init, keep) + [last] else Within(init, keep)
  {
  }

  lemma LessStep(tier: Tier, gone: set<Face>)
    requires tier != []
    ensures var init, last := tier[..|tier| - 1], tier[|tier| - 1];
      Less(tier, gone) == if last.face in gone then Less(init, gone) else Less(init, gone) + [last]
  {
  }

  lemma {:induction false} WithinTimes(tier: Tier, keep: set<Face>, f: Face)
    ensures TierTimes(Within(tier, keep), f) == if f in keep then TierTimes(tier, f) else 0
  {
    assert TierTimes([], f) == 0 && Within([], keep) == [];
    hide TierTimes, Within;
    if tier != [] {
      var init, last := tier[..|tier| - 1], tier[|tier| - 1];
      WithinTimes(init, keep, f);
      TierTimesAppend(Within(init, keep), last, f);
      TierTimesStep(tier, f);
      WithinStep(tier, keep);
    }
  }

  lemma {:induction false} LessTimes(tier: Tier, gone: set<Face>, f: Face)
    ensures TierTimes(Less(tier, gone), f) == if f in gone then 0 else TierTimes(tier, f)
  {
    assert TierTimes([], f) == 0 && Less([], gone) == [];
    hide TierTimes, Less;
    if tier != [] {
      var init, last := tier[..|tier| - 1], tier[|tier| - 1];
      LessTimes(init, gone, f);
      TierTimesAppend(Less(init, gone), last, f);
      TierTimesStep(tier, f);
      LessStep(tier, gone);
    }
  }

  /** Which faces are left. */
  lemma LessFaces(tier: Tier, gone: set<Face>)
    ensures FacesOf(Less(tier, gone)) == FacesOf(tier) - gone
  {
    forall f: Face ensures f in FacesOf(Less(tier, gone)) <==> f in FacesOf(tier) && f !in gone {
      LessTimes(tier, gone, f);
      FacesTimes(tier, f);
      FacesTimes(Less(tier, gone), f);
    }
  }

  lemma WithinFaces(tier: Tier, keep: set<Face>)
    ensures FacesOf(Within(tier, keep)) == FacesOf(tier) * keep
  {
    forall f: Face ensures f in FacesOf(Within(tier, keep)) <==> f in FacesOf(tier) && f in keep {
      WithinTimes(tier, keep, f);
      FacesTimes(tier, f);
      FacesTimes(Within(tier, keep), f);
    }
  }

  /** A face that leaves the wait list leaves the valid faces. */
  lemma LessOnce(wait: Tiers, valid: set<Face>, gone: set<Face>)
    requires Once(wait, valid)
    ensures Once(LessAll(wait, gone), valid - gone)
  {
    hide Times, Less;
    forall f: Face ensures Times(LessAll(wait, gone), f) == if f in valid - gone then 1 else 0 {
      forall i | 0 <= i < |wait| ensures TierTimes(LessAll(wait, gone)[i], f) == if f !in gone then TierTimes(wait[i], f) else 0 {
        LessTimes(wait[i], gone, f);
      }
      TimesKept(wait, LessAll(wait, gone), f, f !in gone);
    }
  }

  lemma {:induction false} LessTwice(tier: Tier, a: set<Face>, b: set<Face>)
    ensures Less(Less(tier, a), b) == Less(tier, a + b)
  {
    if tier != [] {
      var init, last := tier[..|tier| - 1], tier[|tier| - 1];
      LessTwice(init, a, b);
      var rest := Less(init, a);
      assert (rest + [last])[..|rest|] == rest && rest + [] == rest && Less(init, a + b) + [] == Less(init, a + b);
    }
  }

  lemma LessAllTwice(tiers: Tiers, a: set<Face>, b: set<Face>)
    ensures LessAll(LessAll(tiers, a), b) == LessAll(tiers, a + b)
  {
    forall i | 0 <= i < |tiers| ensures LessAll(LessAll(tiers, a), b)[i] == LessAll(tiers, a + b)[i] {
      LessTwice(tiers[i], a, b);
    }
  }

  lemma {:induction false} LessNothing(tier: Tier)
    ensures Less(tier, {}) == tier
  {
    if tier != [] {
      LessNothing(tier[..|tier| - 1]);
    }
  }

  lemma LessAllNothing(tiers: Tiers)
    ensures LessAll(tiers, {}) == tiers
  {
    forall i | 0 <= i < |tiers| ensures LessAll(tiers, {})[i] == tiers[i] {
      LessNothing(tiers[i]);
    }
  }

  /** removeFaceFromWaitList */
  method DropFace(wait: Tiers, face: Face) returns (r: Tiers)
    ensures r == LessAll(wait, {face})
  {
    hide Less;
    r := [];
    for i := 0 to |wait|
      invariant |r| == i && forall j :: 0 <= j < i ==> r[j] == Less(wait[j], {face})
    {
      var tier := DropHop(wait[i], face);
      r := r + [tier];
    }
  }

  method DropHop(tier: Tier, face: Face) returns (r: Tier)
    ensures r == Less(tier, {face})
  {
    r := [];
    for i := 0 to |tier|
      invariant r == Less(tier[..i], {face})
    {
      assert tier[..i + 1][..i] == tier[..i];
      if tier[i].face != face {
        r := r + [tier[i]];
      }
    }
    assert tier[..|tier|] == tier;
  }

  /** The filtering of a fresh tier by the valid faces. */
  method Narrow(tier: Tier, keep: set<Face>) returns (r: Tier)
    ensures r == Within(tier, keep)
  {
    r := [];
    for i := 0 to |tier|
      invariant r == Within(tier[..i], keep)
    {
      assert tier[..i + 1][..i] == tier[..i];
      if tier[i].face in keep {
        r := r + [tier[i]];
      }
    }
    assert tier[..|tier|] == tier;
  }

  // ----- Lists of faces -----

  /** The faces of a tier that are not listed yet, added in order. */
  function Appended(faces: seq<Face>, tier: Tier): seq<Face> {
    if tier == [] then faces
    else
      var r := Appended(faces, tier[..|tier| - 1]);
      if tier[|tier| - 1].face in r then r else r + [tier[|tier| - 1].face]
  }

  lemma {:induction false} AppendedMeans(faces: seq<Face>, tier: Tier)
    ensures faces <= Appended(faces, tier) && SetOf(Appended(faces, tier)) == SetOf(faces) + FacesOf(tier)
    ensures Unique(faces) ==> Unique(Appended(faces, tier))
  {
    if tier != [] {
      var k := |tier| - 1;
      AppendedMeans(faces, tier[..k]);
      assert tier[..k + 1] == tier;
      FacesOfStep(tier, k);
      var r := Appended(faces, tier[..k]);
      assert SetOf(r + [tier[k].face]) == SetOf(r) + {tier[k].face};
    }
  }

  /** The loop of ProbeTier that adds the faces of a tier. */
  method AddNew(faces: seq<Face>, tier: Tier) returns (r: seq<Face>)
    ensures r == Appended(faces, tier)
  {
    r := faces;
    for j := 0 to |tier|
      invariant r == Appended(faces, tier[..j])
    {
      assert tier[..j + 1][..j] == tier[..j];
      if tier[j].face !in r {
        r := r + [tier[j].face];
      }
    }
    assert tier[..|tier|] == tier;
  }

  /** Every face of the tiers once, in order. */
  function Gathered(tiers: Tiers): seq<Face> {
    if tiers == [] then [] else Appended(Gathered(tiers[..|tiers| - 1]), tiers[|tiers| - 1])
  }

  lemma {:induction false} GatheredMeans(tiers: Tiers)
    ensures Unique(Gathered(tiers)) && SetOf(Gathered(tiers)) == Everything(tiers)
  {
    if tiers != [] {
      var k := |tiers| - 1;
      GatheredMeans(tiers[..k]);
      AppendedMeans(Gathered(tiers[..k]), tiers[k]);
      EverythingStep(tiers, k);
      assert tiers[..k + 1] == tiers;
    }
  }

  /** flattenDtTierFaces */
  method Flatten(tiers: Tiers) returns (faces: seq<Face>)
    ensures faces == Gathered(tiers)
  {
    faces := [];
    for i := 0 to |tiers|
      invariant faces == Gathered(tiers[..i])
    {
      assert tiers[..i + 1][..i] == tiers[..i];
      faces := AddNew(faces, tiers[i]);
    }
    assert tiers[..|tiers|] == tiers;
  }

  lemma EverythingStep(tiers: Tiers, i: nat)
    requires i < |tiers|
    ensures Everything(tiers[..i + 1]) == Everything(tiers[..i]) + FacesOf(tiers[i])
  {
    var more, less := tiers[..i + 1], tiers[..i];
    assert more == less + [tiers[i]];
    forall f | f in Everything(less) ensures f in Everything(more) {
      var k, j :| 0 <= k < i && 0 <= j < |less[k]| && less[k][j].face == f;
      assert more[k][j].face == f;
    }
    forall f | f in FacesOf(tiers[i]) ensures f in Everything(more) {
      var j :| 0 <= j < |tiers[i]| && tiers[i][j].face == f;
      assert more[i][j].face == f;
    }
    forall f | f in Everything(more) ensures f in Everything(less) || f in FacesOf(tiers[i]) {
      var k, j :| 0 <= k <= i && 0 <= j < |more[k]| && more[k][j].face == f;
      if k < i {
        assert less[k][j].face == f;
      }
    }
  }

  /** The listed faces that stay, in order. */
  function Listed(faces: seq<Face>, keep: set<Face>): seq<Face> {
    if faces == [] then []
    else Listed(faces[..|faces| - 1], keep) + if faces[|faces| - 1] in keep then [faces[|faces| - 1]] else []
  }

  lemma {:induction false} ListedMeans(faces: seq<Face>, keep: set<Face>)
    ensures SetOf(Listed(faces, keep)) == SetOf(faces) * keep && |Listed(faces, keep)| <= |faces|
    ensures Unique(faces) ==> Unique(Listed(faces, keep))
  {
    if faces != [] {
      var init, last := faces[..|faces| - 1], faces[|faces| - 1];
      ListedMeans(init, keep);
      assert faces == init + [last] && SetOf(faces) == SetOf(init) + {last};
      var r := Listed(init, keep);
      assert SetOf(r + [last]) == SetOf(r) + {last} && r + [] == r;
      if Unique(faces) {
        assert last !in init;
        assert forall i :: 0 <= i < |r| ==> r[i] in SetOf(r);
      }
    }
  }

  lemma {:induction false} ListedTwice(faces: seq<Face>, a: set<Face>, b: set<Face>)
    ensures Listed(Listed(faces, a), b) == Listed(faces, a * b)
  {
    if faces != [] {
      var init, last := faces[..|faces| - 1], faces[|faces| - 1];
      ListedTwice(init, a, b);
      var rest := Listed(init, a);
      assert (rest + [last])[..|rest|] == rest && rest + [] == rest && Listed(init, a * b) + [] == Listed(init, a * b);
    }
  }

  lemma {:induction false} ListedAlike(faces: seq<Face>, a: set<Face>, b: set<Face>)
    requires SetOf(faces) * a == SetOf(faces) * b
    ensures Listed(faces, a) == Listed(faces, b)
  {
    if faces != [] {
      var init, last := faces[..|faces| - 1], faces[|faces| - 1];
      assert faces == init + [last] && SetOf(faces) == SetOf(init) + {last};
      assert last in SetOf(faces);
      forall f | f in SetOf(init) ensures f in a <==> f in b { assert f in SetOf(faces) * a <==> f in SetOf(faces) * b; }
      assert SetOf(init) * a == SetOf(init) * b;
      assert last in a <==> last in b by { assert last in SetOf(faces) * a <==> last in SetOf(faces) * b; }
      ListedAlike(init, a, b);
    }
  }

  lemma {:induction false} ListedAll(faces: seq<Face>, keep: set<Face>)
    requires SetOf(faces) <= keep
    ensures Listed(faces, keep) == faces
  {
    if faces != [] {
      var init, last := faces[..|faces| - 1], faces[|faces| - 1];
      assert faces == init + [last] && last in SetOf(faces);
      assert SetOf(init) <= SetOf(faces);
      ListedAll(init, keep);
    }
  }

  /** The faces that do not leave, in order. */
  function Unlisted(faces: seq<Face>, gone: set<Face>): seq<Face> {
    Listed(faces, SetOf(faces) - gone)
  }

  lemma UnlistedTwice(faces: seq<Face>, a: set<Face>, b: set<Face>)
    ensures Unlisted(Unlisted(faces, a), b) == Unlisted(faces, a + b)
  {
    hide Listed;
    var all := SetOf(faces);
    ListedMeans(faces, all - a);
    ListedTwice(faces, all - a, all * (all - a) - b);
    assert SetOf(Unlisted(faces, a)) - b == all * (all - a) - b;
    assert (all - a) * (all * (all - a) - b) == all - (a + b);
  }

  lemma UnlistedNone(faces: seq<Face>, gone: set<Face>)
    requires SetOf(faces) !! gone
    ensures Unlisted(faces, gone) == faces
  {
    ListedAll(faces, SetOf(faces) - gone);
  }

  /** removeFaceFromProbedUpstreams: the first occurrence goes, and there is only one. */
  method Unlist(faces: seq<Face>, face: Face) returns (r: seq<Face>)
    requires Unique(faces)
    ensures r == Unlisted(faces, {face})
  {
    hide Listed;
    for i := 0 to |faces|
      invariant face !in faces[..i]
    {
      if faces[i] == face {
        r := faces[..i] + faces[i + 1..];
        CutListed(faces, i);
        return;
      }
      assert faces[..i + 1] == faces[..i] + [faces[i]];
    }
    assert faces[..|faces|] == faces;
    UnlistedNone(faces, {face});
    return faces;
  }

  lemma {:induction false} ListedConcat(a: seq<Face>, b: seq<Face>, keep: set<Face>)
    ensures Listed(a + b, keep) == Listed(a, keep) + Listed(b, keep)
  {
    if b == [] {
      assert a + b == a;
    } else {
      ListedConcat(a, b[..|b| - 1], keep);
      assert (a + b)[..|a + b| - 1] == a + b[..|b| - 1];
    }
  }

  lemma OthersStay(faces: seq<Face>, i: nat)
    requires Unique(faces) && i < |faces|
    ensures SetOf(faces[..i]) <= SetOf(faces) - {faces[i]} && SetOf(faces[i + 1..]) <= SetOf(faces) - {faces[i]}
  {
  }

  lemma ListedOut(f: Face, keep: set<Face>)
    requires f !in keep
    ensures Listed([f], keep) == []
  {
    assert [f][..0] == [];
  }

  lemma CutBetween(a: seq<Face>, f: Face, b: seq<Face>, keep: set<Face>)
    requires SetOf(a) <= keep && SetOf(b) <= keep && f !in keep
    ensures Listed(a + [f] + b, keep) == a + b
  {
    hide Listed, SetOf;
    ListedConcat(a + [f], b, keep);
    ListedConcat(a, [f], keep);
    ListedOut(f, keep);
    ListedAll(a, keep);
    ListedAll(b, keep);
    assert a + [] == a;
  }

  lemma CutListed(faces: seq<Face>, i: nat)
    requires Unique(faces) && i < |faces|
    ensures Unlisted(faces, {faces[i]}) == faces[..i] + faces[i + 1..]
  {
    hide Listed;
    OthersStay(faces, i);
    CutBetween(faces[..i], faces[i], faces[i + 1..], SetOf(faces) - {faces[i]});
    assert faces == faces[..i] + [faces[i]] + faces[i + 1..];
  }

  /** The loop that takes the vanished faces out of the list. */
  method UnlistAll(faces: seq<Face>, gone: set<Face>) returns (r: seq<Face>)
    requires Unique(faces)
    ensures r == Unlisted(faces, gone)
  {
    hide Listed, Unlisted;
    r := faces;
    var todo, done := gone, {};
    assert Unlisted(faces, {}) == faces by { UnlistedNone(faces, {}); }
    while todo != {}
      invariant Unique(r) && r == Unlisted(faces, done) && todo + done == gone
      decreases todo
    {
      var f :| f in todo;
      UnlistedTwice(faces, done, {f});
      UnlistedUnique(faces, done + {f});
      r := Unlist(r, f);
      todo, done := todo - {f}, done + {f};
    }
    assert done == gone;
  }

  lemma UnlistedUnique(faces: seq<Face>, gone: set<Face>)
    requires Unique(faces)
    ensures Unique(Unlisted(faces, gone)) && SetOf(Unlisted(faces, gone)) == SetOf(faces) - gone
  {
    ListedMeans(faces, SetOf(faces) - gone);
    assert SetOf(faces) * (SetOf(faces) - gone) == SetOf(faces) - gone;
  }

  /** The probed faces that stay, each once. */
  method Relist(faces: seq<Face>, keep: set<Face>) returns (r: seq<Face>)
    requires Unique(faces)
    ensures r == Listed(faces, keep)
  {
    hide Unique;
    r := [];
    for i := 0 to |faces|
      invariant r == Listed(faces[..i], keep)
    {
      assert faces[..i + 1][..i] == faces[..i];
      ListedMeans(faces[..i], keep);
      NotBefore(faces, i);
      assert faces[i] !in SetOf(r);
      if faces[i] in keep && faces[i] !in r {
        r := r + [faces[i]];
      }
    }
    assert faces[..|faces|] == faces;
  }

  lemma NotBefore(faces: seq<Face>, i: nat)
    requires Unique(faces) && i < |faces|
    ensures faces[i] !in faces[..i]
  {
  }

  // ----- Tiers as a whole -----

  /** The tiers that are not empty. */
  function NonEmpty(tiers: Tiers): Tiers {
    if tiers == [] then []
    else NonEmpty(tiers[..|tiers| - 1]) + if tiers[|tiers| - 1] == [] then [] else [tiers[|tiers| - 1]]
  }

  lemma NonEmptyStep(tiers: Tiers)
    requires tiers != []
    ensures var init, last := tiers[..|tiers| - 1], tiers[|tiers| - 1];
      tiers == init + [last] && NonEmpty(tiers) == if last == [] then NonEmpty(init) else NonEmpty(init) + [last]
  {
  }

  lemma {:induction false} NonEmptyMeans(tiers: Tiers, f: Face)
    ensures Times(NonEmpty(tiers), f) == Times(tiers, f)
  {
    assert Times([], f) == 0 && TierTimes([], f) == 0 && NonEmpty([]) == [];
    hide Times, TierTimes, NonEmpty;
    if tiers != [] {
      var init, last := tiers[..|tiers| - 1], tiers[|tiers| - 1];
      NonEmptyMeans(init, f);
      TimesAppend(NonEmpty(init), last, f);
      TimesAppend(init, last, f);
      NonEmptyStep(tiers);
    }
  }

  lemma {:induction false} NonEmptyTiers(tiers: Tiers, tier: Tier)
    ensures tier in NonEmpty(tiers) <==> tier in tiers && tier != []
  {
    assert NonEmpty([]) == [];
    hide NonEmpty;
    if tiers != [] {
      NonEmptyTiers(tiers[..|tiers| - 1], tier);
      NonEmptyStep(tiers);
    }
  }

  lemma TimesAppend(tiers: Tiers, tier: Tier, f: Face)
    ensures Times(tiers + [tier], f) == Times(tiers, f) + TierTimes(tier, f)
  {
    assert (tiers + [tier])[..|tiers|] == tiers;
  }

  /** updateAfterPathDiscovery */
  method Compact(wait: Tiers, costs: seq<nat>) returns (tiers: Tiers, kept: seq<nat>)
    ensures tiers == NonEmpty(wait)
  {
    tiers, kept := [], [];
    for i := 0 to |wait|
      invariant tiers == NonEmpty(wait[..i])
    {
      assert wait[..i + 1][..i] == wait[..i];
      if wait[i] != [] {
        tiers := tiers + [wait[i]];
        if i < |costs| {
          kept := kept + [costs[i]];
        }
      }
    }
    assert wait[..|wait|] == wait;
  }

  /** Clearing one tier: its faces leave the valid set and the node's converging set. */
  method ClearTier(wait: Tiers, valid: set<Face>, node: set<Face>, i: nat) returns (wait': Tiers, valid': set<Face>, node': set<Face>)
    requires i < |wait|
    ensures wait' == wait[i := []] && valid' == valid - FacesOf(wait[i]) && node' == node - FacesOf(wait[i])
    ensures Once(wait, valid) ==> Once(wait', valid')
  {
    var tier := wait[i];
    wait' := wait[i := []];
    valid', node' := valid, node;
    for j := 0 to |tier|
      invariant valid' == valid - FacesOf(tier[..j]) && node' == node - FacesOf(tier[..j])
    {
      assert FacesOf(tier[..j + 1]) == FacesOf(tier[..j]) + {tier[j].face} by { FacesOfStep(tier, j); }
      valid', node' := valid' - {tier[j].face}, node' - {tier[j].face};
    }
    assert tier[..|tier|] == tier;
    if Once(wait, valid) {
      ClearedOnce(wait, valid, i);
    }
  }

  lemma FacesOfStep(tier: Tier, j: nat)
    requires j < |tier|
    ensures FacesOf(tier[..j + 1]) == FacesOf(tier[..j]) + {tier[j].face}
  {
    assert tier[..j + 1][j].face == tier[j].face;
    assert forall k :: 0 <= k < j ==> tier[..j + 1][k] == tier[..j][k];
  }

  lemma ClearedOnce(wait: Tiers, valid: set<Face>, i: nat)
    requires Once(wait, valid) && i < |wait|
    ensures Once(wait[i := []], valid - FacesOf(wait[i]))
  {
    forall f: Face ensures Times(wait[i := []], f) == if f in valid - FacesOf(wait[i]) then 1 else 0 {
      TimesSet(wait, i, [], f);
      FacesTimes(wait[i], f);
      TimesAtLeast(wait, i, f);
    }
  }

  /** The faces that wait in the tiers from `from` up to `to`. */
  function Waiting(wait: Tiers, from: nat, to: nat): set<Face> {
    set i, j | from <= i < to && i < |wait| && 0 <= j < |wait[i]| :: wait[i][j].face
  }

  function CutFrom(wait: Tiers, from: nat): Tiers {
    seq(|wait|, i requires 0 <= i < |wait| => if i >= from then [] else wait[i])
  }

  lemma WaitingStep(wait: Tiers, from: nat, i: nat)
    requires from <= i < |wait|
    ensures Waiting(wait, from, i + 1) == Waiting(wait, from, i) + FacesOf(wait[i])
  {
  }

  lemma WaitingNone(wait: Tiers, from: nat, to: nat)
    requires from >= to
    ensures Waiting(wait, from, to) == {}
  {
  }

  /** The loop of skipTier. */
  method ClearFrom(wait: Tiers, valid: set<Face>, node: set<Face>, from: nat)
    returns (wait': Tiers, valid': set<Face>, node': set<Face>)
    ensures wait' == CutFrom(wait, from)
    ensures valid' == valid - Waiting(wait, from, |wait|) && node' == node - Waiting(wait, from, |wait|)
    ensures Once(wait, valid) ==> Once(wait', valid')
  {
    hide Once, Waiting, FacesOf;
    wait', valid', node' := wait, valid, node;
    var i := from;
    assert Waiting(wait, from, i) == {} by { WaitingNone(wait, from, i); }
    while i < |wait|
      invariant from <= i && (from <= |wait| ==> i <= |wait|) && (|wait| < from ==> i == from) && |wait'| == |wait|
      invariant valid' == valid - Waiting(wait, from, i) && node' == node - Waiting(wait, from, i)
      invariant Once(wait, valid) ==> Once(wait', valid')
      invariant forall j :: 0 <= j < |wait| ==> wait'[j] == if from <= j < i then [] else wait[j]
    {
      WaitingStep(wait, from, i);
      wait', valid', node' := ClearTier(wait', valid', node', i);
      i := i + 1;
    }
    if from > |wait| {
      WaitingNone(wait, from, |wait|);
      WaitingNone(wait, from, from);
    }
  }

  /** The first tier that a face waits in. */
  function TierIndex(wait: Tiers, f: Face): (r: Option<nat>)
    ensures r.Some? ==> r.value < |wait| && f in FacesOf(wait[r.value]) && forall i :: 0 <= i < r.value ==> f !in FacesOf(wait[i])
    ensures r.None? ==> forall i :: 0 <= i < |wait| ==> f !in FacesOf(wait[i])
  {
    if wait == [] then None
    else
      var init := wait[..|wait| - 1];
      assert forall i :: 0 <= i < |init| ==> init[i] == wait[i];
      match TierIndex(init, f)
      case Some(i) => Some(i)
      case None => if f in FacesOf(wait[|wait| - 1]) then Some(|wait| - 1) else None
  }

  /** The search for the tier of a face in the wait list. */
  method TierOf(wait: Tiers, face: Face) returns (r: Option<nat>)
    ensures r == TierIndex(wait, face)
  {
    hide FacesOf;
    for i := 0 to |wait|
      invariant forall k :: 0 <= k < i ==> face !in FacesOf(wait[k])
    {
      if face in FacesOf(wait[i]) {
        return Some(i);
      }
    }
    return None;
  }

  // ----- Initialisation -----

  ghost predicate DistinctFaces(hops: Tier) {
    forall i, j :: 0 <= i < j < |hops| ==> hops[i].face != hops[j].face
  }

  ghost predicate Cheapest(hops: Tier, c: nat) {
    HasCost(hops, c) && forall i :: 0 <= i < |hops| ==> c <= hops[i].cost
  }

  /** In the cheapest tier, or below twice its cost. */
  ghost predicate Cheap(hops: Tier, f: Face) {
    exists i :: 0 <= i < |hops| && hops[i].face == f
      && forall k :: 0 <= k < |hops| ==> hops[i].cost <= hops[k].cost || hops[i].cost < 2 * hops[k].cost
  }

  lemma {:induction false} OfCostIn(hops: Tier, c: nat, h: Hop)
    ensures h in OfCost(hops, c) <==> h in hops && h.cost == c
  {
    if hops != [] {
      OfCostIn(hops[..|hops| - 1], c, h);
      assert hops == hops[..|hops| - 1] + [hops[|hops| - 1]];
    }
  }

  lemma {:induction false} DistinctTimes(hops: Tier, f: Face)
    requires DistinctFaces(hops)
    ensures TierTimes(hops, f) == if f in FacesOf(hops) then 1 else 0
  {
    if hops != [] {
      var k := |hops| - 1;
      DistinctTimes(hops[..k], f);
      assert hops[..k + 1] == hops;
      FacesOfStep(hops, k);
      if hops[k].face == f {
        TierTimesZero(hops[..k], f);
      }
    }
  }

  /** A tier stays waiting if it is the first or below the threshold, which wraps at 64 bits. */
  predicate Stays(costs: seq<nat>, i: nat)
    requires i < |costs|
  {
    i == 0 || costs[i] < costs[0] * 2 % UINT64
  }

  /** Tiers of the initial wait list from `from` on are cleared where they do not stay. */
  ghost predicate Cleared(tiers: Tiers, costs: seq<nat>, wait: Tiers, from: nat) {
    && |wait| == |tiers| == |costs|
    && forall i :: 0 <= i < |tiers| ==> wait[i] == if i >= from && !Stays(costs, i) then [] else tiers[i]
  }

  /** The costs of the hops, each once, in increasing order. */
  ghost predicate IsCosts(hops: Tier, costs: seq<nat>) {
    Increasing(costs) && forall c: nat :: c in costs <==> HasCost(hops, c)
  }

  function TiersOf(hops: Tier, costs: seq<nat>): Tiers {
    seq(|costs|, i requires 0 <= i < |costs| => OfCost(hops, costs[i]))
  }

  /** The first wait list: the tiers that stay. */
  function FirstWait(hops: Tier, costs: seq<nat>): Tiers {
    seq(|costs|, i requires 0 <= i < |costs| => if Stays(costs, i) then OfCost(hops, costs[i]) else [])
  }

  /** Exactly the faces of the cheapest tier and those below the threshold are admitted. */
  ghost predicate AdmittedBy(hops: Tier, valid: set<Face>) {
    forall c: nat, h :: Cheapest(hops, c) && h in hops ==> (h.face in valid <==> h.cost == c || h.cost < c * 2 % UINT64)
  }

  /** The faces in the cheapest tier or below twice its cost. */
  ghost function CheapFaces(hops: Tier): set<Face> {
    set f | f in FacesOf(hops) && Cheap(hops, f)
  }

  lemma CheapIsFace(hops: Tier, f: Face)
    requires Cheap(hops, f)
    ensures f in CheapFaces(hops)
  {
  }

  /** TierGrouping and the clearing loop of StartPathDiscovery. */
  method Start(hops: Tier) returns (tiers: Tiers, costs: seq<nat>, wait: Tiers, valid: set<Face>)
    requires DistinctFaces(hops)
    ensures IsCosts(hops, costs) && tiers == TiersOf(hops, costs) && wait == FirstWait(hops, costs) && valid == Everything(wait)
    ensures Once(wait, valid) && valid <= CheapFaces(hops)
    ensures AdmittedBy(hops, valid)
    ensures if hops == [] then costs == [] else wait != [] && wait[0] != []
  {
    hide Times, TierTimes, OfCost, Increasing;
    tiers, costs := GroupByCost(hops);
    wait, valid := tiers, Everything(tiers);
    assert Once(wait, valid) by { GroupedOnce(hops, tiers, costs); }
    if hops == [] {
      assert tiers == [] by { GroupedEmpty(hops, tiers, costs); }
      assert valid == {} && costs == [];
      return;
    }
    assert HasCost(hops, hops[0].cost);
    var node := valid;
    var i := |costs| - 1;
    while i > 0
      invariant 0 <= i < |costs| && Cleared(tiers, costs, wait, i + 1) && Once(wait, valid)
    {
      if costs[i] >= costs[0] * 2 % UINT64 {
        wait, valid, node := ClearTier(wait, valid, node, i);
      }
      i := i - 1;
    }
    assert valid == Everything(wait) by { OnceEverything(wait, valid); }
    StartMeans(hops, tiers, costs, wait, valid);
    forall f | f in valid ensures f in CheapFaces(hops) { CheapIsFace(hops, f); }
    assert wait[0] == OfCost(hops, costs[0]);
    FirstTier(hops, costs);
  }

  lemma OnceEverything(wait: Tiers, valid: set<Face>)
    requires Once(wait, valid)
    ensures valid == Everything(wait)
  {
    forall f: Face ensures f in valid <==> f in Everything(wait) { TimesEverything(wait, f); }
  }

  lemma FirstTier(hops: Tier, costs: seq<nat>)
    requires costs != [] && HasCost(hops, costs[0])
    ensures OfCost(hops, costs[0]) != []
  {
    var i :| 0 <= i < |hops| && hops[i].cost == costs[0];
    OfCostIn(hops, costs[0], hops[i]);
  }

  lemma GroupedEmpty(hops: Tier, tiers: Tiers, costs: seq<nat>)
    requires Grouped(hops, tiers, costs)
    ensures hops == [] ==> tiers == []
  {
    if tiers != [] {
      assert costs[0] in costs;
    }
  }

  lemma GroupedOnce(hops: Tier, tiers: Tiers, costs: seq<nat>)
    requires Grouped(hops, tiers, costs) && DistinctFaces(hops)
    ensures Once(tiers, Everything(tiers))
  {
    forall f: Face ensures Times(tiers, f) == if f in Everything(tiers) then 1 else 0 {
      GroupedTimes(hops, tiers, costs, f);
      DistinctTimes(hops, f);
      TimesEverything(tiers, f);
    }
  }

  lemma StartMeans(hops: Tier, tiers: Tiers, costs: seq<nat>, wait: Tiers, valid: set<Face>)
    requires Grouped(hops, tiers, costs) && DistinctFaces(hops) && Cleared(tiers, costs, wait, 1) && Once(wait, valid)
    ensures forall f: Face :: f in valid ==> Cheap(hops, f)
    ensures forall c: nat, h :: Cheapest(hops, c) && h in hops ==> (h.face in valid <==> h.cost == c || h.cost < c * 2 % UINT64)
  {
    hide Times, TierTimes, OfCost;
    forall f: Face | f in valid ensures Cheap(hops, f) {
      var i, k := StartFinds(hops, tiers, costs, wait, valid, f);
      forall m | 0 <= m < |hops| ensures hops[k].cost <= hops[m].cost || hops[k].cost < 2 * hops[m].cost {
        LeastFirst(hops, tiers, costs, m);
      }
    }
    forall c: nat, h | Cheapest(hops, c) && h in hops ensures h.face in valid <==> h.cost == c || h.cost < c * 2 % UINT64 {
      StartKeeps(hops, tiers, costs, wait, valid, c, h);
    }
  }

  lemma LeastFirst(hops: Tier, tiers: Tiers, costs: seq<nat>, m: nat)
    requires Grouped(hops, tiers, costs) && m < |hops|
    ensures costs != [] && costs[0] <= hops[m].cost
  {
    assert HasCost(hops, hops[m].cost);
    var i :| 0 <= i < |costs| && costs[i] == hops[m].cost;
  }

  lemma StartFinds(hops: Tier, tiers: Tiers, costs: seq<nat>, wait: Tiers, valid: set<Face>, f: Face) returns (i: nat, k: nat)
    requires Grouped(hops, tiers, costs) && Cleared(tiers, costs, wait, 1) && Once(wait, valid) && f in valid
    ensures i < |costs| && Stays(costs, i) && k < |hops| && hops[k].face == f && hops[k].cost == costs[i]
  {
    TimesFound(wait, f);
    var a, j :| 0 <= a < |wait| && 0 <= j < |wait[a]| && wait[a][j].face == f;
    i := a;
    OfCostIn(hops, costs[i], wait[i][j]);
    assert wait[i][j] in OfCost(hops, costs[i]);
    k :| k < |hops| && hops[k] == wait[i][j];
  }

  lemma StartKeeps(hops: Tier, tiers: Tiers, costs: seq<nat>, wait: Tiers, valid: set<Face>, c: nat, h: Hop)
    requires Grouped(hops, tiers, costs) && DistinctFaces(hops) && Cleared(tiers, costs, wait, 1) && Once(wait, valid)
    requires Cheapest(hops, c) && h in hops
    ensures h.face in valid <==> h.cost == c || h.cost < c * 2 % UINT64
  {
    hide Times, TierTimes, OfCost;
    var m :| 0 <= m < |hops| && hops[m] == h;
    LeastFirst(hops, tiers, costs, m);
    assert costs[0] in costs && HasCost(hops, h.cost);
    assert c == costs[0] by {
      var x :| 0 <= x < |hops| && hops[x].cost == c;
      LeastFirst(hops, tiers, costs, x);
    }
    if h.face in valid {
      var i, k := StartFinds(hops, tiers, costs, wait, valid, h.face);
      assert k == m;
    } else {
      var i :| 0 <= i < |costs| && costs[i] == h.cost;
      OfCostIn(hops, costs[i], h);
      if Stays(costs, i) {
        var j :| 0 <= j < |wait[i]| && wait[i][j] == h;
        TierTimesZero(wait[i], h.face);
        TimesAtLeast(wait, i, h.face);
        assert false;
      }
    }
  }

  /** The latest tiers, of which only valid faces stay. */
  function Retiered(hops: Tier, costs: seq<nat>, keep: set<Face>): Tiers {
    seq(|costs|, i requires 0 <= i < |costs| => Within(OfCost(hops, costs[i]), keep))
  }

  method Retier(hops: Tier, valid: set<Face>) returns (tiers: Tiers, costs: seq<nat>)
    requires DistinctFaces(hops) && valid <= FacesOf(hops)
    ensures IsCosts(hops, costs) && tiers == Retiered(hops, costs, valid) && Once(tiers, valid)
  {
    hide Times, TierTimes, OfCost, Within, FacesOf, DistinctFaces, Increasing;
    var all;
    all, costs := GroupByCost(hops);
    tiers := [];
    for i := 0 to |all|
      invariant |tiers| == i && forall j :: 0 <= j < i ==> tiers[j] == Within(all[j], valid)
    {
      var tier := Narrow(all[i], valid);
      tiers := tiers + [tier];
    }
    RefreshedOnce(hops, all, costs, tiers, valid);
  }

  lemma RefreshedOnce(hops: Tier, tiers: Tiers, costs: seq<nat>, filtered: Tiers, valid: set<Face>)
    requires Grouped(hops, tiers, costs) && DistinctFaces(hops) && valid <= FacesOf(hops)
    requires |filtered| == |tiers| && forall i :: 0 <= i < |tiers| ==> filtered[i] == Within(tiers[i], valid)
    ensures Once(filtered, valid)
  {
    hide Times, TierTimes, Within;
    forall f: Face ensures Times(filtered, f) == if f in valid then 1 else 0 {
      forall i | 0 <= i < |tiers| ensures TierTimes(filtered[i], f) == if f in valid then TierTimes(tiers[i], f) else 0 {
        WithinTimes(tiers[i], valid, f);
      }
      TimesKept(tiers, filtered, f, f in valid);
      GroupedTimes(hops, tiers, costs, f);
      DistinctTimes(hops, f);
    }
  }

  // ----- What the handlers do -----

  /** The state of a node: the tiers and the current one, the probing index, the tiers still waiting,
      the faces being probed and where their round robin stands, the sets that convergence waits for,
      the valid faces, the freeze, and the faces of data transmission. */
  datatype Pd = Pd(
    tiers: Tiers, current: nat, index: int, wait: Tiers, probed: seq<Face>, cursor: nat, tierSet: set<Face>,
    nodeSet: set<Face>, converged: bool, valid: set<Face>, invalid: bool, frozen: bool, frozenFaces: set<Face>,
    recover: set<Face>, dt: seq<Face>)

  /** Faces leave every set and list. */
  function Excluded(a: Pd, gone: set<Face>): Pd {
    a.(valid := a.valid - gone, wait := LessAll(a.wait, gone), tierSet := a.tierSet - gone,
       nodeSet := a.nodeSet - gone, probed := Unlisted(a.probed, gone))
  }

  /** localNodeConverged */
  function Settle(a: Pd): Pd {
    if a.converged then a
    else a.(tierSet := {}, converged := true, tiers := NonEmpty(a.wait), dt := Gathered(NonEmpty(a.wait)))
  }

  /** isCurrentTierAllInvalid */
  predicate AllInvalid(a: Pd) {
    a.current >= |a.tiers| || forall j :: 0 <= j < |a.tiers[a.current]| ==> a.tiers[a.current][j].face !in a.valid
  }

  /** skipTier */
  function Skipped(a: Pd): Pd {
    var given := Waiting(a.wait, a.current, |a.wait|);
    Settle(a.(wait := CutFrom(a.wait, a.current), valid := a.valid - given, nodeSet := a.nodeSet - given))
  }

  function Checked(a: Pd): Pd {
    if AllInvalid(a) then Skipped(a) else a
  }

  /** The ingress face: frozen with its tier if it is being probed, excluded otherwise. */
  function WithIngress(a: Pd, inFace: Face): Option<Pd> {
    if inFace in a.probed then
      match TierIndex(a.wait, inFace)
      case None => None
      case Some(i) =>
        Some(if a.frozen then a
             else a.(frozen := true, frozenFaces := a.frozenFaces + FacesOf(a.wait[i]), recover := a.recover + FacesOf(a.wait[i])))
    else Some(Excluded(a, {inFace}))
  }

  datatype Outcome = Stop(state: Pd) | Refuse(state: Pd) | Go(state: Pd)

  /** The steps of an Interest before convergence that follow the probing index. */
  function Admit(a: Pd, inFace: Face): Outcome {
    match WithIngress(a, inFace)
    case None => Stop(a)
    case Some(b) =>
      var c := Checked(b);
      if c.valid == {} then Refuse(c.(invalid := true)) else Go(c)
  }

  /** refreshPathDiscoverySnapshot */
  function Refreshed(a: Pd, hops: Tier, costs: seq<nat>): Pd {
    if hops == [] then a
    else
      var keep := a.valid * FacesOf(hops);
      var gone, tiers, probed := a.valid - keep, Retiered(hops, costs, keep), Listed(a.probed, keep);
      a.(valid := keep, tierSet := a.tierSet - gone, nodeSet := a.nodeSet - gone, frozenFaces := a.frozenFaces - gone,
         recover := a.recover - gone, tiers := tiers, wait := tiers, probed := probed,
         cursor := if a.cursor >= |probed| then 0 else a.cursor,
         current := if |tiers| == 0 then 0 else if a.current >= |tiers| then |tiers| - 1 else a.current)
  }

  /** ProbeTier */
  function Probing(a: Pd, designated: bool, tier: nat): Pd {
    if tier >= |a.wait| then a
    else
      var b := a.(probed := Appended(a.probed, a.wait[tier]), tierSet := a.tierSet + FacesOf(a.wait[tier]));
      if designated then Settle(b) else b
  }

  /** The steps of an Interest that follow from its probing index. */
  function Advance(a: Pd, designated: bool, index: int, hops: Tier, costs: seq<nat>): Outcome {
    if index < a.index then Stop(a)
    else if index == a.index then Go(a)
    else
      var b := Refreshed(a, hops, costs);
      if b.current >= |b.wait| - 1 then Stop(b)
      else Go(Probing(b.(index := index, current := b.current + 1), designated, b.current + 1))
  }

  function Probed(a: Pd, designated: bool, index: int, hops: Tier, costs: seq<nat>, inFace: Face): Outcome {
    match Advance(a, designated, index, hops, costs)
    case Go(b) => Admit(b, inFace)
    case other => other
  }

  /** TierGrouping and StartPathDiscovery. */
  function Begun(a: Pd, designated: bool, index: int, hops: Tier, costs: seq<nat>): Pd {
    var wait := FirstWait(hops, costs);
    Probing(a.(tiers := TiersOf(hops, costs), wait := wait, valid := Everything(wait), nodeSet := Everything(wait),
               index := index, current := 0, cursor := 0), designated, 0)
  }

  /** The position whose turn it is. */
  function TurnOf(a: Pd): nat {
    if a.cursor >= |a.probed| then 0 else a.cursor
  }

  /** The round-robin forwarding, and the end of a freeze. */
  function Forwarded(a: Pd): (Option<Face>, Pd) {
    if a.probed == [] then (None, a)
    else
      var face, b := a.probed[TurnOf(a)], a.(cursor := (TurnOf(a) + 1) % |a.probed|);
      var c := if a.frozen && face in a.frozenFaces then b.(frozenFaces := a.frozenFaces - {face}) else b;
      (Some(face),
       if a.frozen && face in a.frozenFaces && c.frozenFaces == {} then Excluded(c, a.recover).(frozen := false, recover := {})
       else c)
  }

  /** The steps of an Interest for a prefix that is not refused. */
  function Accepted(a: Pd, started: bool, designated: bool, index: int, hops: Tier, costs: seq<nat>, inFace: Face)
    : (Option<Face>, bool, Pd)
  {
    var b := if started then a else Begun(a, designated, index, hops, costs);
    match if b.converged then Go(b) else Probed(b, designated, index, hops, costs, inFace)
    case Stop(c) => (None, false, c)
    case Refuse(c) => (None, true, c)
    case Go(c) => (Forwarded(c).0, false, Forwarded(c).1)
  }

  /** A path-discovery Interest: where it goes, whether it is refused, and the state afterwards. */
  function Interested(a: Pd, started: bool, designated: bool, relevant: bool, index: int, hops: Tier, costs: seq<nat>, inFace: Face)
    : (Option<Face>, bool, Pd)
  {
    if !relevant || a.invalid then (None, true, a.(invalid := true)) else Accepted(a, started, designated, index, hops, costs, inFace)
  }

  datatype Reason = NoRoute | NoReason | Other

  /** A path-discovery Nack. */
  function Nacked(a: Pd, inFace: Face, reason: Reason): Pd {
    if reason != NoRoute || a.invalid then a
    else
      var b := Checked(if a.frozen then a else Excluded(a, {inFace}));
      if b.valid == {} then b.(invalid := true) else b
  }

  /** areHigherTiersEmpty */
  predicate HigherTiersEmpty(a: Pd) {
    forall i :: a.current < i < |a.wait| ==> a.wait[i] == []
  }

  /** A path-discovery Data. */
  function DataSeen(a: Pd, inFace: Face, tierFlag: bool, nodeFlag: bool): Pd {
    var b := if tierFlag && !a.frozen then a.(tierSet := a.tierSet - {inFace}) else a;
    var c := if tierFlag && b.tierSet == {} && HigherTiersEmpty(b) then Settle(b) else b;
    if nodeFlag then c.(nodeSet := c.nodeSet - {inFace}) else c
  }

  // ----- What that means -----

  lemma ExcludedMeans(a: Pd, gone: set<Face>)
    requires Unique(a.probed)
    ensures var b := Excluded(a, gone);
      && Unique(b.probed) && SetOf(b.probed) == SetOf(a.probed) - gone && |b.wait| == |a.wait|
      && forall i :: 0 <= i < |a.wait| ==> FacesOf(b.wait[i]) == FacesOf(a.wait[i]) - gone
  {
    UnlistedUnique(a.probed, gone);
    forall i | 0 <= i < |a.wait| ensures FacesOf(LessAll(a.wait, gone)[i]) == FacesOf(a.wait[i]) - gone {
      LessFaces(a.wait[i], gone);
    }
  }

  /** A face waits in some tier. */
  predicate Waits(wait: Tiers, f: Face) {
    exists i :: 0 <= i < |wait| && f in FacesOf(wait[i])
  }

  /** An Interest with an old probing index changes nothing and stops. */
  lemma OldIndexStops(a: Pd, designated: bool, index: int, hops: Tier, costs: seq<nat>, inFace: Face)
    requires index < a.index && !a.converged && !a.invalid
    ensures Interested(a, true, designated, true, index, hops, costs, inFace) == (None, false, a)
  {
  }

  /** One with the current index stops exactly when its ingress face is being probed but waits in no
      tier. Otherwise it goes on, or is refused exactly when no valid face is left. */
  lemma SameIndex(a: Pd, designated: bool, hops: Tier, costs: seq<nat>, inFace: Face)
    ensures var r := Probed(a, designated, a.index, hops, costs, inFace);
      && (r.Stop? <==> inFace in a.probed && !Waits(a.wait, inFace))
      && (r.Stop? ==> r.state == a)
      && (!r.Stop? ==> (r.Go? <==> r.state.valid != {}) && (r.state.invalid <==> a.invalid || r.Refuse?))
  {
    hide Checked;
    assert forall b :: Checked(b).invalid == b.invalid by { CheckedKeeps(); }
  }

  lemma CheckedKeeps()
    ensures forall b :: Checked(b).invalid == b.invalid && Checked(b).probed == b.probed && Checked(b).cursor == b.cursor
    ensures forall b :: Checked(b).index == b.index && Checked(b).frozen == b.frozen && Checked(b).frozenFaces == b.frozenFaces
    ensures forall b :: Checked(b).recover == b.recover
  {
  }

  /** The faces of the tier, the ingress face among them, are frozen. */
  predicate FreezesWith(a: Pd, b: Pd, inFace: Face, tier: Tier) {
    inFace in FacesOf(tier) && b.frozenFaces == a.frozenFaces + FacesOf(tier) && b.recover == a.recover + FacesOf(tier)
  }

  /** The current tier has a hop among the faces. */
  predicate TierLeft(a: Pd, faces: set<Face>) {
    a.current < |a.tiers| && exists j :: 0 <= j < |a.tiers[a.current]| && a.tiers[a.current][j].face in faces
  }

  /** The tiers from the current one on are given up exactly when that one has no valid face. Nothing
      but the tiers, the sets of faces and the convergence can then change. */
  lemma CheckedMeans(a: Pd)
    ensures var b, given := Checked(a), Waiting(a.wait, a.current, |a.wait|);
      && (TierLeft(a, a.valid) ==> b == a)
      && (!TierLeft(a, a.valid) ==> b.converged && b.valid == a.valid - given && b.nodeSet == a.nodeSet - given && |b.wait| == |a.wait|)
      && (!TierLeft(a, a.valid) ==> forall i :: 0 <= i < |a.wait| ==> b.wait[i] == if i >= a.current then [] else a.wait[i])
      && b.probed == a.probed && b.cursor == a.cursor && b.index == a.index && b.invalid == a.invalid
      && b.frozen == a.frozen && b.frozenFaces == a.frozenFaces && b.recover == a.recover
  {
    hide NonEmpty, Gathered, Waiting;
  }

  /** What the ingress face changes: an unprobed one leaves the valid faces; a probed one freezes
      exactly the faces of its tier. The tiers are then given up exactly when the current one has no
      valid face. */
  lemma IngressEffect(a: Pd, inFace: Face)
    requires Unique(a.probed) && !Admit(a, inFace).Stop?
    ensures var b, kept := Admit(a, inFace).state, a.valid - if inFace in a.probed then {} else {inFace};
      && b.valid == (if TierLeft(a, kept) then kept else kept - Waiting(a.wait, a.current, |a.wait|))
      && (b.converged <==> a.converged || !TierLeft(a, kept))
      && b.probed == a.probed && b.cursor == a.cursor && b.index == a.index
      && (inFace !in a.probed ==> b.frozen == a.frozen && b.frozenFaces == a.frozenFaces && b.recover == a.recover)
      && (inFace in a.probed ==> b.frozen)
      && (inFace in a.probed && a.frozen ==> b.frozenFaces == a.frozenFaces && b.recover == a.recover)
      && (inFace in a.probed && !a.frozen ==> exists i :: 0 <= i < |a.wait| && FreezesWith(a, b, inFace, a.wait[i]))
  {
    hide Checked, Less, Listed;
    CheckedMeans(WithIngress(a, inFace).value);
    if inFace !in a.probed {
      UnlistedNone(a.probed, {inFace});
      WaitingLess(a.wait, {inFace}, a.current);
      var given := Waiting(a.wait, a.current, |a.wait|);
      assert a.valid - {inFace} - (given - {inFace}) == a.valid - {inFace} - given;
    } else {
      assert a.valid - {} == a.valid;
    }
  }

  /** What a NoRoute Nack changes: unless tiers are frozen its face leaves, and the tiers are given up
      exactly when the current one has no valid face. */
  lemma NackedMeans(a: Pd, inFace: Face)
    requires !a.invalid
    ensures var b, kept := Nacked(a, inFace, NoRoute), a.valid - if a.frozen then {} else {inFace};
      && b.valid == (if TierLeft(a, kept) then kept else kept - Waiting(a.wait, a.current, |a.wait|))
      && (b.converged <==> a.converged || !TierLeft(a, kept)) && (b.invalid <==> b.valid == {})
      && SetOf(b.probed) == SetOf(a.probed) - (if a.frozen then {} else {inFace}) && b.index == a.index && b.frozen == a.frozen
  {
    hide Checked, Less, Listed;
    if a.frozen {
      CheckedMeans(a);
      assert a.valid - {} == a.valid && SetOf(a.probed) - {} == SetOf(a.probed);
    } else {
      CheckedMeans(Excluded(a, {inFace}));
      WaitingLess(a.wait, {inFace}, a.current);
      ListedMeans(a.probed, SetOf(a.probed) - {inFace});
      assert SetOf(a.probed) * (SetOf(a.probed) - {inFace}) == SetOf(a.probed) - {inFace};
      var given := Waiting(a.wait, a.current, |a.wait|);
      assert a.valid - {inFace} - (given - {inFace}) == a.valid - {inFace} - given;
    }
  }

  /** What a Data changes: its face leaves the sets that convergence waits for, and the node converges
      exactly when it was the last one of the tier and no face waits in a later tier. */
  lemma DataMeans(a: Pd, inFace: Face, tierFlag: bool, nodeFlag: bool)
    ensures var b, left := DataSeen(a, inFace, tierFlag, nodeFlag), a.tierSet - if tierFlag && !a.frozen then {inFace} else {};
      && (b.converged <==> a.converged || (tierFlag && left == {} && !exists i, f :: a.current < i < |a.wait| && f in FacesOf(a.wait[i])))
      && b.tierSet == left && b.nodeSet == a.nodeSet - (if nodeFlag then {inFace} else {})
      && b.valid == a.valid && b.wait == a.wait && b.probed == a.probed && b.invalid == a.invalid && b.frozen == a.frozen
  {
    hide NonEmpty, Gathered;
    forall i | 0 <= i < |a.wait| ensures a.wait[i] == [] <==> FacesOf(a.wait[i]) == {} {
      if a.wait[i] != [] {
        TierNotEmpty(a.wait[i]);
      }
    }
    assert a.tierSet - {} == a.tierSet && a.nodeSet - {} == a.nodeSet;
  }

  lemma WaitingLess(wait: Tiers, gone: set<Face>, from: nat)
    ensures Waiting(LessAll(wait, gone), from, |wait|) == Waiting(wait, from, |wait|) - gone
  {
    var less := LessAll(wait, gone);
    forall f: Face ensures f in Waiting(less, from, |wait|) <==> f in Waiting(wait, from, |wait|) && f !in gone {
      WaitingIn(wait, from, f);
      WaitingIn(less, from, f);
      forall i | 0 <= i < |wait| ensures f in FacesOf(less[i]) <==> f in FacesOf(wait[i]) && f !in gone {
        LessFaces(wait[i], gone);
      }
    }
  }

  lemma WaitingIn(wait: Tiers, from: nat, f: Face)
    ensures f in Waiting(wait, from, |wait|) <==> exists i :: from <= i < |wait| && f in FacesOf(wait[i])
  {
    if i :| from <= i < |wait| && f in FacesOf(wait[i]) {
      var j :| 0 <= j < |wait[i]| && wait[i][j].face == f;
      assert wait[i][j].face in Waiting(wait, from, |wait|);
    }
  }

  /** A larger index first brings the tiers up to date. It stops exactly when no tier is left after the
      current one; otherwise exactly the faces of the next tier join those being probed. */
  lemma LargerIndex(a: Pd, designated: bool, index: int, hops: Tier, costs: seq<nat>)
    requires index > a.index && !a.converged
    ensures var r, b := Advance(a, designated, index, hops, costs), Advance(a, designated, index, hops, costs).state;
      var at := if hops == [] || a.current < |costs| then a.current else if |costs| == 0 then 0 else |costs| - 1;
      && b.valid == (if hops == [] then a.valid else a.valid * FacesOf(hops)) && b.invalid == a.invalid && b.frozen == a.frozen
      && b.nodeSet == a.nodeSet - (a.valid - b.valid) && b.frozenFaces == a.frozenFaces - (a.valid - b.valid)
      && b.recover == a.recover - (a.valid - b.valid) && (b.cursor == a.cursor || b.cursor == 0)
      && |b.wait| == (if hops == [] then |a.wait| else |costs|)
      && (r.Go? <==> at + 1 < |b.wait|) && !r.Refuse?
      && (r.Stop? ==> b.index == a.index && b.current == at && !b.converged)
      && (r.Stop? ==> SetOf(b.probed) == if hops == [] then SetOf(a.probed) else SetOf(a.probed) * b.valid)
      && (r.Go? ==> b.index == index && b.current == at + 1 && b.converged == designated)
      && (r.Go? ==> SetOf(b.probed) == (if hops == [] then SetOf(a.probed) else SetOf(a.probed) * b.valid) + FacesOf(b.wait[at + 1]))
      && (r.Go? ==> b.tierSet == if designated then {} else a.tierSet - (a.valid - b.valid) + FacesOf(b.wait[at + 1]))
  {
    hide Listed, Appended, Retiered, FacesOf, NonEmpty, Gathered;
    var b := Refreshed(a, hops, costs);
    assert hops != [] ==> |b.wait| == |costs| by { RetieredLength(hops, costs, b.valid); }
    if hops != [] {
      ListedMeans(a.probed, b.valid);
    }
    if b.current + 1 < |b.wait| {
      AppendedMeans(b.probed, b.wait[b.current + 1]);
    }
    assert a.valid - a.valid == {} && a.tierSet - {} == a.tierSet && a.nodeSet - {} == a.nodeSet;
    assert a.frozenFaces - {} == a.frozenFaces && a.recover - {} == a.recover;
  }

  lemma RetieredLength(hops: Tier, costs: seq<nat>, keep: set<Face>)
    ensures |Retiered(hops, costs, keep)| == |costs|
  {
  }

  /** The tiers after a refresh: by cost, exactly the hops whose faces are still valid. */
  lemma RetieredMeans(hops: Tier, costs: seq<nat>, keep: set<Face>, i: nat, f: Face)
    requires i < |costs|
    ensures f in FacesOf(Retiered(hops, costs, keep)[i]) <==> f in keep && Hop(f, costs[i]) in hops
  {
    hide OfCost, Within;
    WithinFaces(OfCost(hops, costs[i]), keep);
    OfCostIn(hops, costs[i], Hop(f, costs[i]));
    forall j | 0 <= j < |OfCost(hops, costs[i])| ensures OfCost(hops, costs[i])[j].cost == costs[i] {
      OfCostIn(hops, costs[i], OfCost(hops, costs[i])[j]);
    }
    var tier := OfCost(hops, costs[i]);
    assert f in FacesOf(tier) <==> Hop(f, costs[i]) in tier by {
      if f in FacesOf(tier) {
        var j :| 0 <= j < |tier| && tier[j].face == f;
        assert tier[j] == Hop(f, costs[i]);
      }
    }
  }

  /** Forwarding goes to the face whose turn it is, and the next turn is the next position. */
  lemma ForwardedTurn(a: Pd)
    requires a.probed != []
    ensures var (out, b) := Forwarded(a);
      && out == Some(a.probed[TurnOf(a)]) && b.cursor == (TurnOf(a) + 1) % |a.probed|
      && TurnOf(a) == (if a.cursor < |a.probed| then a.cursor else 0)
      && (!a.frozen ==> b == a.(cursor := b.cursor))
      && (b.frozen <==> a.frozen && a.frozenFaces != {out.value})
      && (a.frozen && b.frozen ==> b.valid == a.valid && b.recover == a.recover && b.frozenFaces == a.frozenFaces - {out.value})
      && (a.frozen && !b.frozen ==> a.frozenFaces == {out.value} && b.valid == a.valid - a.recover && b.recover == {})
  {
    if !a.frozen {
      assert Forwarded(a).1 == a.(cursor := (TurnOf(a) + 1) % |a.probed|);
    } else {
      var face := a.probed[TurnOf(a)];
      assert face !in a.frozenFaces ==> a.frozenFaces - {face} == a.frozenFaces;
    }
  }

  /** An Interest that is forwarded goes to the face whose turn it is, and the round robin moves on by
      one. After convergence every Interest is, if any face is being probed. */
  predicate TakesTurn(a: Pd, out: Option<Face>, nack: bool, b: Pd) {
    && (out.Some? ==> a.probed != [] && out.value == a.probed[if a.cursor < |a.probed| then a.cursor else 0])
    && (out.Some? ==> b.cursor == ((if a.cursor < |a.probed| then a.cursor else 0) + 1) % |a.probed|)
    && (a.converged ==> !nack && (out.Some? <==> a.probed != []))
  }

  lemma InterestTurn(a: Pd, designated: bool, index: int, hops: Tier, costs: seq<nat>, inFace: Face)
    requires !a.invalid && Unique(a.probed) && (a.converged || index == a.index)
    ensures var (out, nack, b) := Interested(a, true, designated, true, index, hops, costs, inFace);
      && TakesTurn(a, out, nack, b)
      && (!a.converged ==> (out.Some? <==> a.probed != [] && Admit(a, inFace).Go?) && (nack <==> Admit(a, inFace).Refuse?))
  {
    hide Admit, Excluded;
    if !a.converged && !Admit(a, inFace).Stop? {
      IngressEffect(a, inFace);
    }
    var c := if a.converged then a else Admit(a, inFace).state;
    if c.probed != [] {
      ForwardedTurn(c);
    }
  }

  /** With a larger index and a tier left, the Interest goes on as one whose index is the current one
      after the move to that tier. */
  lemma LargerIndexGoes(a: Pd, designated: bool, index: int, hops: Tier, costs: seq<nat>, inFace: Face)
    requires index > a.index && !a.converged
    ensures var b, r := Advance(a, designated, index, hops, costs), Probed(a, designated, index, hops, costs, inFace);
      && (b.Stop? ==> r == b)
      && (b.Go? ==> b.state.index == index && r == Probed(b.state, designated, index, hops, costs, inFace))
  {
    hide Admit, Refreshed;
    LargerIndex(a, designated, index, hops, costs);
  }

  lemma {:induction false} OfCostFirst(hops: Tier, c: nat)
    requires OfCost(hops, c) != []
    ensures exists k :: 0 <= k < |hops| && hops[k] == OfCost(hops, c)[0] && FirstOf(hops, k)
  {
    var m := |hops| - 1;
    if OfCost(hops[..m], c) != [] {
      OfCostFirst(hops[..m], c);
      var k :| 0 <= k < m && hops[..m][k] == OfCost(hops[..m], c)[0] && FirstOf(hops[..m], k);
      assert FirstOf(hops, k);
    } else {
      forall j | 0 <= j < m ensures hops[j].cost != c {
        OfCostIn(hops[..m], c, hops[j]);
        assert hops[..m][j] == hops[j];
      }
      assert FirstOf(hops, m);
    }
  }

  /** No earlier hop has the same cost. */
  predicate FirstOf(hops: Tier, k: nat)
    requires k < |hops|
  {
    forall j :: 0 <= j < k ==> hops[j].cost != hops[k].cost
  }

  lemma {:induction false} AppendedFirst(tier: Tier)
    requires tier != []
    ensures Appended([], tier) != [] && Appended([], tier)[0] == tier[0].face
  {
    var k := |tier| - 1;
    if k > 0 {
      AppendedFirst(tier[..k]);
    } else {
      assert Appended([], tier[..0]) == [];
    }
  }

  /** Forwarded to the first of the cheapest hops. */
  ghost predicate GoesCheapest(hops: Tier, out: Option<Face>, nack: bool) {
    && out.Some? && !nack
    && exists k :: 0 <= k < |hops| && hops[k].face == out.value && Cheapest(hops, hops[k].cost) && FirstOf(hops, k)
  }

  /** The first Interest goes to the first of the cheapest hops, whichever face it came from. */
  lemma FirstInterest(a: Pd, designated: bool, index: int, hops: Tier, costs: seq<nat>, inFace: Face)
    requires a.probed == [] && !a.invalid && hops != [] && IsCosts(hops, costs)
    ensures var r := Interested(a, false, designated, true, index, hops, costs, inFace); GoesCheapest(hops, r.0, r.1)
  {
    hide Forwarded, Probed, Begun, IsCosts, OfCost;
    var k := CheapestFirst(hops, costs);
    var b := Begun(a, designated, index, hops, costs);
    BegunProbes(a, designated, index, hops, costs);
    if !b.converged {
      BegunGoes(b, designated, hops, costs, inFace);
    }
    var c := if b.converged then b else Probed(b, designated, index, hops, costs, inFace).state;
    ForwardedTurn(c);
    assert Forwarded(c).0 == Some(hops[k].face);
  }

  lemma InterestCases(a: Pd, started: bool, designated: bool, relevant: bool, index: int, hops: Tier, inFace: Face)
    requires Unique(a.probed)
    ensures relevant && !a.invalid && started && (a.converged || index == a.index) ==>
      forall costs :: var r := Interested(a, started, designated, relevant, index, hops, costs, inFace); TakesTurn(a, r.0, r.1, r.2)
    ensures relevant && !a.invalid && !started && a.probed == [] && hops != [] ==>
      forall costs | IsCosts(hops, costs) ::
        var r := Interested(a, started, designated, relevant, index, hops, costs, inFace); GoesCheapest(hops, r.0, r.1)
  {
    hide *;
    if relevant && !a.invalid && started && (a.converged || index == a.index) {
      forall costs
        ensures var r := Interested(a, started, designated, relevant, index, hops, costs, inFace); TakesTurn(a, r.0, r.1, r.2)
      {
        InterestTurn(a, designated, index, hops, costs, inFace);
      }
    }
    if relevant && !a.invalid && !started && a.probed == [] && hops != [] {
      forall costs | IsCosts(hops, costs)
        ensures var r := Interested(a, started, designated, relevant, index, hops, costs, inFace); GoesCheapest(hops, r.0, r.1)
      {
        FirstInterest(a, designated, index, hops, costs, inFace);
      }
    }
  }

  lemma CheapestFirst(hops: Tier, costs: seq<nat>) returns (k: nat)
    requires hops != [] && IsCosts(hops, costs)
    ensures costs != [] && k < |hops| && OfCost(hops, costs[0]) != [] && hops[k] == OfCost(hops, costs[0])[0]
    ensures Cheapest(hops, hops[k].cost) && FirstOf(hops, k)
  {
    hide OfCost;
    assert HasCost(hops, hops[0].cost);
    FirstTier(hops, costs);
    OfCostFirst(hops, costs[0]);
    k :| 0 <= k < |hops| && hops[k] == OfCost(hops, costs[0])[0] && FirstOf(hops, k);
    OfCostIn(hops, costs[0], hops[k]);
    forall i | 0 <= i < |hops| ensures costs[0] <= hops[i].cost {
      assert HasCost(hops, hops[i].cost);
    }
  }

  /** Where a node stands after the first snapshot. */
  ghost predicate AtStart(b: Pd, tier: Tier) {
    && tier != [] && b.current == 0 && b.cursor == 0 && b.wait != [] && b.wait[0] == tier && FacesOf(tier) <= b.valid
    && b.probed != [] && b.probed[0] == tier[0].face && Unique(b.probed) && SetOf(b.probed) == FacesOf(tier)
    && b.nodeSet == b.valid && (!b.converged ==> b.tiers != [] && b.tiers[0] == tier && FacesOf(tier) <= b.tierSet)
  }

  lemma BegunProbes(a: Pd, designated: bool, index: int, hops: Tier, costs: seq<nat>)
    requires a.probed == [] && costs != [] && OfCost(hops, costs[0]) != []
    ensures var b := Begun(a, designated, index, hops, costs);
      AtStart(b, OfCost(hops, costs[0])) && b.index == index && b.invalid == a.invalid
  {
    hide OfCost, NonEmpty, Gathered, Appended;
    var tier, wait := OfCost(hops, costs[0]), FirstWait(hops, costs);
    assert wait[0] == tier;
    AppendedFirst(tier);
    AppendedMeans([], tier);
    forall f | f in FacesOf(tier) ensures f in Everything(wait) {
      var j :| 0 <= j < |tier| && tier[j].face == f;
      assert wait[0][j].face in Everything(wait);
    }
  }

  lemma BegunGoes(b: Pd, designated: bool, hops: Tier, costs: seq<nat>, inFace: Face)
    requires !b.converged && Unique(b.probed) && b.wait != [] && AtStart(b, b.wait[0])
    ensures var r := Probed(b, designated, b.index, hops, costs, inFace); r.Go? && r.state.probed == b.probed && r.state.cursor == 0
  {
    hide Admit, Waiting, FacesOf;
    var tier := b.wait[0];
    assert tier[0].face in FacesOf(tier) by { FirstFace(tier); }
    assert tier[0].face in b.valid;
    SameIndex(b, designated, hops, costs, inFace);
    if inFace in b.probed {
      assert inFace in FacesOf(b.wait[0]);
    }
    IngressEffect(b, inFace);
    var kept := b.valid - if inFace in b.probed then {} else {inFace};
    assert b.tiers[0][0].face in kept;
    assert TierLeft(b, kept);
  }

  lemma FirstFace(tier: Tier)
    requires tier != []
    ensures tier[0].face in FacesOf(tier)
  {
  }

  /** The first elements of the list are exactly the faces. */
  ghost predicate StartsWith(list: seq<Face>, faces: set<Face>) {
    exists n :: 0 <= n <= |list| && SetOf(list[..n]) == faces
  }

  /** At convergence the faces of earlier tiers come before those of later ones. */
  lemma {:induction false} SettledOrder(wait: Tiers, k: nat)
    requires k <= |wait|
    ensures StartsWith(Gathered(NonEmpty(wait)), Everything(wait[..k]))
  {
    hide Appended, SetOf, Everything, Gathered, NonEmpty;
    var dt, m := Gathered(NonEmpty(wait)), |wait| - 1;
    if k == |wait| {
      assert dt[..|dt|] == dt && wait[..k] == wait;
      NonEmptyEverything(wait);
      GatheredMeans(NonEmpty(wait));
    } else {
      SettledOrder(wait[..m], k);
      assert wait[..m][..k] == wait[..k];
      var before := Gathered(NonEmpty(wait[..m]));
      var n :| 0 <= n <= |before| && SetOf(before[..n]) == Everything(wait[..m][..k]);
      assert before <= dt by { GatheredStep(wait); }
      assert dt[..n] == before[..n];
      assert n <= |dt| && SetOf(dt[..n]) == Everything(wait[..k]);
    }
  }

  lemma NonEmptyEverything(wait: Tiers)
    ensures Everything(NonEmpty(wait)) == Everything(wait)
  {
    forall f: Face ensures f in Everything(NonEmpty(wait)) <==> f in Everything(wait) {
      TimesEverything(NonEmpty(wait), f);
      TimesEverything(wait, f);
      NonEmptyMeans(wait, f);
    }
  }

  lemma GatheredStep(wait: Tiers)
    requires wait != []
    ensures Gathered(NonEmpty(wait[..|wait| - 1])) <= Gathered(NonEmpty(wait))
  {
    hide Appended;
    var init, last := NonEmpty(wait[..|wait| - 1]), wait[|wait| - 1];
    if last == [] {
      assert init + [] == init;
    } else {
      AppendedMeans(Gathered(init), last);
      assert (init + [last])[..|init|] == init;
    }
  }

  // ----- The invariant -----

  /** The wait list is that of the valid faces, and no face is probed twice. */
  ghost predicate Lists(a: Pd) {
    Once(a.wait, a.valid) && a.nodeSet <= a.valid && Unique(a.probed)
  }

  /** Valid faces were cheap in the first snapshot; at convergence the valid faces become those of data
      transmission, and only leave afterwards. */
  ghost predicate Core(a: Pd, settled: set<Face>, cheap: set<Face>) {
    a.valid <= cheap && (a.converged ==> a.tierSet == {} && a.valid <= settled <= cheap && Unique(a.dt) && SetOf(a.dt) == settled)
  }

  /** Neither depends on the indices and the freeze. */
  lemma SameLists(a: Pd, b: Pd, settled: set<Face>, cheap: set<Face>)
    requires a.(index := b.index, current := b.current, cursor := b.cursor, invalid := b.invalid, frozen := b.frozen,
                frozenFaces := b.frozenFaces, recover := b.recover) == b
    ensures Lists(a) <==> Lists(b)
    ensures Core(a, settled, cheap) <==> Core(b, settled, cheap)
  {
  }

  lemma SettledFaces(wait: Tiers, valid: set<Face>)
    requires Once(wait, valid)
    ensures Unique(Gathered(NonEmpty(wait))) && SetOf(Gathered(NonEmpty(wait))) == valid
  {
    hide Gathered, NonEmpty;
    GatheredMeans(NonEmpty(wait));
    forall f: Face ensures f in Everything(NonEmpty(wait)) <==> f in valid {
      TimesEverything(NonEmpty(wait), f);
      NonEmptyMeans(wait, f);
    }
  }

  lemma ProbedAreValid(wait: Tiers, valid: set<Face>, tier: nat)
    requires Once(wait, valid) && tier < |wait|
    ensures FacesOf(wait[tier]) <= valid
  {
    forall f: Face | f in FacesOf(wait[tier]) ensures f in valid {
      TierTimesZero(wait[tier], f);
      TimesAtLeast(wait, tier, f);
    }
  }

  lemma RelistedAlike(probed: seq<Face>, gone: set<Face>, keep: set<Face>)
    requires keep !! gone
    ensures Listed(Unlisted(probed, gone), keep) == Listed(probed, keep)
  {
    hide Listed;
    var all := SetOf(probed);
    ListedTwice(probed, all - gone, keep);
    assert all * ((all - gone) * keep) == all * keep;
    ListedAlike(probed, (all - gone) * keep, keep);
  }

  class PathDiscoveryInfo {
    /** Whether the prefix belongs to this node, which then converges at once. */
    const designated: bool
    var initialized: bool
    var tierCosts: seq<nat>
    /** All other fields, which the handlers update one by one. */
    var pd: Pd
    /** The valid faces at convergence, the faces cheap in the first snapshot, and whether the node
        had not converged before that snapshot was taken, or it was empty. */
    ghost var settled: set<Face>
    ghost var cheap: set<Face>
    ghost var sound: bool

    /** The invariant of path discovery. */
    ghost predicate Consistent()
      reads this`pd, this`settled, this`cheap
    {
      && Lists(pd) && Core(pd, settled, cheap)
      && pd.tierSet <= pd.valid && (pd.converged || SetOf(pd.probed) <= pd.valid)
    }

    ghost predicate Valid()
      reads this`pd, this`settled, this`cheap, this`sound, this`initialized
    {
      && Lists(pd) && (sound ==> Consistent())
      && (!initialized ==> pd.wait == [] && pd.probed == [] && pd.valid == pd.tierSet == settled == {} && !pd.frozen)
    }

    /** Valid faces only leave, and convergence happens at most once, with faces valid before it. */
    twostate predicate Progress()
      reads this`pd, this`settled, this`sound, this`cheap, this`initialized
    {
      && pd.valid <= old(pd).valid
      && (old(pd).converged ==> pd.converged && pd.dt == old(pd).dt && settled == old(settled))
      && (pd.converged && !old(pd).converged ==> settled <= old(pd).valid)
      && sound == old(sound) && cheap == old(cheap) && initialized == old(initialized)
    }

    constructor (designated: bool)
      ensures Valid() && sound && !initialized && this.designated == designated
      ensures pd == Pd([], 0, 0, [], [], 0, {}, {}, false, {}, false, false, {}, {}, [])
    {
      this.designated := designated;
      initialized, tierCosts := false, [];
      pd := Pd([], 0, 0, [], [], 0, {}, {}, false, {}, false, false, {}, {}, []);
      settled, cheap, sound := {}, {}, true;
    }

    /** localNodeConverged: the data-transmission faces are exactly the valid ones. */
    method LocalNodeConverged()
      requires Lists(pd)
      modifies this`pd, this`tierCosts, this`settled
      ensures pd == Settle(old(pd)) && pd.converged
      ensures settled == if old(pd).converged then old(settled) else pd.valid
      ensures !old(pd).converged ==> Unique(pd.dt) && SetOf(pd.dt) == pd.valid
    {
      hide Once, NonEmpty, Gathered, Unique, SetOf;
      if !pd.converged {
        SettledFaces(pd.wait, pd.valid);
        pd := pd.(tierSet := {}, converged := true);
        var tiers, costs := Compact(pd.wait, tierCosts);
        tierCosts := costs;
        var dt := Flatten(tiers);
        pd := pd.(tiers := tiers, dt := dt);
        settled := pd.valid;
      }
    }

    /** ProbeTier */
    method ProbeTier(tier: nat)
      requires Valid() && initialized
      modifies this`pd, this`tierCosts, this`settled
      ensures pd == Probing(old(pd), designated, tier)
      ensures (sound && old(pd).converged ==> tier >= |pd.wait|) ==> Valid() && Progress()
    {
      hide Once, Unique, Appended, FacesOf, NonEmpty, Gathered, SetOf;
      if tier >= |pd.wait| {
        return;
      }
      ProbedAreValid(pd.wait, pd.valid, tier);
      AppendedMeans(pd.probed, pd.wait[tier]);
      var list := AddNew(pd.probed, pd.wait[tier]);
      pd := pd.(probed := list, tierSet := pd.tierSet + FacesOf(pd.wait[tier]));
      if !pd.converged && designated {
        LocalNodeConverged();
      }
    }

    /** ProbeNextTier */
    method ProbeNextTier()
      requires Valid() && initialized && !pd.converged
      modifies this`pd, this`tierCosts, this`settled
      ensures Valid() && Progress() && pd == Probing(old(pd).(current := old(pd).current + 1), designated, old(pd).current + 1)
    {
      hide Lists, Core;
      pd := pd.(current := pd.current + 1);
      assert Valid() by { SameLists(old(pd), pd, settled, cheap); }
      ProbeTier(pd.current);
    }

    /** The removal of a face from every set and list. */
    method Exclude(face: Face)
      requires Valid()
      modifies this`pd
      ensures Valid() && Progress() && pd == Excluded(old(pd), {face})
    {
      hide Once, Unique, SetOf, Less, Listed;
      LessOnce(pd.wait, pd.valid, {face});
      UnlistedUnique(pd.probed, {face});
      NothingLess({face});
      pd := pd.(valid := pd.valid - {face});
      var wait := DropFace(pd.wait, face);
      pd := pd.(wait := wait, tierSet := pd.tierSet - {face}, nodeSet := pd.nodeSet - {face});
      var list := Unlist(pd.probed, face);
      pd := pd.(probed := list);
    }

    /** skipTier: the faces that wait from the current tier on are given up, and the node converges.
        Those among them that are being probed stay in the probing list. */
    method SkipTier()
      requires Valid()
      modifies this`pd, this`tierCosts, this`settled
      ensures Valid() && Progress() && pd.converged && pd == Skipped(old(pd))
    {
      hide Once, Unique, Waiting, NonEmpty, Gathered, SetOf;
      var wait, v, n := ClearFrom(pd.wait, pd.valid, pd.nodeSet, pd.current);
      pd := pd.(wait := wait, valid := v, nodeSet := n);
      if !pd.converged {
        LocalNodeConverged();
      }
    }

    /** The check of the current tier, and the giving up. */
    method CheckTier()
      requires Valid()
      modifies this`pd, this`tierCosts, this`settled
      ensures Valid() && Progress() && pd == Checked(old(pd))
    {
      hide Skipped, Lists, Core;
      if pd.current < |pd.tiers| {
        var tier := pd.tiers[pd.current];
        for j := 0 to |tier|
          invariant forall k :: 0 <= k < j ==> tier[k].face !in pd.valid
        {
          if tier[j].face in pd.valid {
            return;
          }
        }
      }
      SkipTier();
    }

    /** refreshPathDiscoverySnapshot: vanished faces leave, the rest is tiered anew by the latest costs. */
    method Refresh(hops: Tier) returns (ghost costs: seq<nat>)
      requires Valid() && initialized && DistinctFaces(hops)
      modifies this`pd, this`tierCosts
      ensures Valid() && Progress() && (hops != [] ==> IsCosts(hops, costs)) && pd == Refreshed(old(pd), hops, costs)
    {
      hide Once, Unique, SetOf, FacesOf, DistinctFaces, IsCosts, Retiered, Listed, Unlisted;
      costs := [];
      if hops == [] {
        return;
      }
      var latest := FacesOf(hops);
      var gone := pd.valid - latest;
      assert latest * (pd.valid - gone) == pd.valid * latest == pd.valid - gone && gone == pd.valid - pd.valid * latest;
      UnlistedUnique(pd.probed, gone);
      RelistedAlike(pd.probed, gone, pd.valid * latest);
      ListedMeans(pd.probed, pd.valid * latest);
      var list := UnlistAll(pd.probed, gone);
      pd := pd.(valid := pd.valid - gone, tierSet := pd.tierSet - gone, nodeSet := pd.nodeSet - gone,
              frozenFaces := pd.frozenFaces - gone, recover := pd.recover - gone);
      var tiers, latestCosts := Retier(hops, pd.valid);
      costs, tierCosts := latestCosts, latestCosts;
      list := Relist(list, latest * pd.valid);
      pd := pd.(tiers := tiers, wait := tiers, probed := list);
      Clamp();
    }

    /** The round robin and the current tier are brought back into range. */
    method Clamp()
      modifies this`pd
      ensures pd == old(pd).(cursor := pd.cursor, current := pd.current)
      ensures pd.cursor == if old(pd).cursor >= |pd.probed| then 0 else old(pd).cursor
      ensures pd.current == if |pd.wait| == 0 then 0 else if old(pd).current >= |pd.wait| then |pd.wait| - 1 else old(pd).current
    {
      if pd.probed == [] || pd.cursor >= |pd.probed| {
        pd := pd.(cursor := 0);
      }
      if |pd.wait| == 0 {
        pd := pd.(current := 0);
      } else if pd.current >= |pd.wait| {
        pd := pd.(current := |pd.wait| - 1);
      }
    }

    /** The initialisation by the first Interest. The invariant holds from then on unless the node has
        converged before and there is a next hop, in which case it fails. */
    method Initialize(probeIdx: int, hops: Tier) returns (ghost costs: seq<nat>)
      requires Valid() && !initialized && DistinctFaces(hops)
      modifies this
      ensures Valid() && initialized && cheap == CheapFaces(hops)
      ensures IsCosts(hops, costs) && pd == Begun(old(pd), designated, probeIdx, hops, costs)
      ensures sound <==> old(sound) && (!old(pd).converged || hops == [])
      ensures old(pd).converged ==> pd.converged && pd.dt == old(pd).dt && (hops != [] ==> pd.tierSet != {})
      ensures AdmittedBy(hops, pd.valid)
    {
      hide Once, Unique, SetOf, DistinctFaces, AdmittedBy, CheapFaces, FacesOf, IsCosts, TiersOf, FirstWait, Everything, Appended;
      var tiers, found, wait, v := Start(hops);
      costs, tierCosts := found, found;
      initialized, cheap, sound := true, CheapFaces(hops), sound && (!pd.converged || hops == []);
      pd := pd.(index := probeIdx, tiers := tiers, wait := wait, valid := v, nodeSet := v, current := 0, cursor := 0);
      assert hops == [] ==> wait == [] by { NoTiers(hops, found); }
      assert hops == [] ==> CheapFaces(hops) == {} by { NothingCheap(); }
      ghost var early := pd.converged;
      ProbeTier(0);
      if early && hops != [] {
        TierNotEmpty(pd.wait[0]);
      }
    }

    /** An ingress face that is being probed freezes its tier; any other is excluded at once. The
        result is whether to go on. */
    method MindIngress(inFace: Face) returns (go: bool)
      requires Valid() && initialized
      modifies this`pd
      ensures Valid() && Progress()
      ensures match WithIngress(old(pd), inFace)
              case None => !go && pd == old(pd)
              case Some(b) => go && pd == b
    {
      hide Lists, Core, FacesOf, Excluded;
      if inFace in pd.probed {
        var tier := TierOf(pd.wait, inFace);
        if tier.None? {
          return false;
        }
        if !pd.frozen {
          ghost var before := pd;
          var faces := FacesOf(pd.wait[tier.value]);
          pd := pd.(frozen := true, frozenFaces := pd.frozenFaces + faces, recover := pd.recover + faces);
          SameLists(before, pd, settled, cheap);
        }
      } else {
        Exclude(inFace);
      }
      return true;
    }

    /** The probing steps of an Interest before convergence that follow from its index. */
    method AdvanceTo(probeIdx: int, hops: Tier) returns (on: bool, ghost costs: seq<nat>)
      requires Valid() && initialized && !pd.converged && DistinctFaces(hops)
      modifies this
      ensures Valid() && Progress() && (hops != [] && probeIdx > old(pd).index ==> IsCosts(hops, costs))
      ensures (if on then Go(pd) else Stop(pd)) == Advance(old(pd), designated, probeIdx, hops, costs)
    {
      hide Lists, Core, DistinctFaces, IsCosts, Refreshed, Probing;
      costs := [];
      if probeIdx > pd.index {
        costs := Refresh(hops);
        RefreshedKeeps(old(pd), hops, costs);
        if pd.current >= |pd.wait| - 1 {
          return false, costs;
        }
        ghost var before := pd;
        pd := pd.(index := probeIdx);
        SameLists(before, pd, settled, cheap);
        ProbeNextTier();
      } else if probeIdx < pd.index {
        return false, costs;
      }
      return true, costs;
    }

    /** The probing steps of an Interest before convergence. */
    method Probe(probeIdx: int, hops: Tier, inFace: Face) returns (go: bool, nack: bool, ghost costs: seq<nat>)
      requires Valid() && initialized && !pd.converged && DistinctFaces(hops)
      modifies this
      ensures Valid() && Progress() && !(go && nack) && (hops != [] && probeIdx > old(pd).index ==> IsCosts(hops, costs))
      ensures (if go then Go(pd) else if nack then Refuse(pd) else Stop(pd)) == Probed(old(pd), designated, probeIdx, hops, costs, inFace)
      ensures probeIdx < old(pd).index ==> !go && !nack && pd == old(pd)
      ensures probeIdx == old(pd).index && (inFace !in old(pd).probed || Waits(old(pd).wait, inFace)) ==>
        (go <==> pd.valid != {}) && (nack <==> pd.valid == {})
      ensures probeIdx == old(pd).index && inFace in old(pd).probed && !Waits(old(pd).wait, inFace) ==> !go && !nack && pd == old(pd)
      ensures probeIdx == old(pd).index && inFace !in old(pd).probed ==> inFace !in pd.valid && pd.frozen == old(pd).frozen
      ensures nack ==> pd.valid == {} && pd.invalid
    {
      hide Lists, Core, DistinctFaces, IsCosts, Advance, WithIngress, Checked;
      ProbeCases(pd, designated, probeIdx, hops, inFace);
      var on;
      on, costs := AdvanceTo(probeIdx, hops);
      if !on {
        return false, false, costs;
      }
      on := MindIngress(inFace);
      if !on {
        return false, false, costs;
      }
      CheckTier();
      if pd.valid == {} {
        ghost var before := pd;
        pd := pd.(invalid := true);
        SameLists(before, pd, settled, cheap);
        return false, true, costs;
      }
      return true, false, costs;
    }

    /** The delayed removals after the last frozen face was served. */
    method Recover()
      requires Valid()
      modifies this`pd
      ensures Valid() && Progress() && pd == Excluded(old(pd), old(pd).recover).(recover := {})
    {
      hide Lists, Core, LessAll, Unlisted;
      var todo := pd.recover;
      ghost var start, done := pd, {};
      NothingExcluded(start);
      while todo != {}
        invariant Valid() && Progress() && todo + done == start.recover && pd == Excluded(start, done)
        decreases todo
      {
        var f :| f in todo;
        ExcludedTwice(start, done, {f});
        Exclude(f);
        todo, done := todo - {f}, done + {f};
      }
      assert done == start.recover;
      ghost var before := pd;
      pd := pd.(recover := {});
      SameLists(before, pd, settled, cheap);
    }

    /** The round-robin forwarding, and the end of a freeze. Before convergence the chosen face is
        valid. */
    method Forward() returns (out: Option<Face>)
      requires Valid() && initialized
      modifies this`pd
      ensures Valid() && Progress() && (out, pd) == Forwarded(old(pd))
      ensures out.Some? && sound && !pd.converged ==> out.value in old(pd).valid
    {
      hide Lists, Core, Excluded;
      if pd.probed == [] {
        return None;
      }
      ghost var start := pd;
      var idx := if pd.cursor >= |pd.probed| then 0 else pd.cursor;
      var face := pd.probed[idx];
      out := Some(face);
      pd := pd.(cursor := (idx + 1) % |pd.probed|);
      SameLists(start, pd, settled, cheap);
      if pd.frozen && face in pd.frozenFaces {
        pd := pd.(frozenFaces := pd.frozenFaces - {face});
        SameLists(start, pd, settled, cheap);
        if pd.frozenFaces == {} {
          pd := pd.(frozen := false);
          SameLists(start, pd, settled, cheap);
          Recover();
          ThawedAlike(start);
        }
      }
      assert !start.converged && sound ==> face in SetOf(start.probed);
    }

    /** An Interest for a prefix that is not refused: the initialisation, the probing steps, and the
        forwarding; `live` are the faces valid when it is forwarded. */
    method Accept(probeIdx: int, hops: Tier, inFace: Face)
      returns (out: Option<Face>, nack: bool, ghost costs: seq<nat>, ghost live: set<Face>)
      requires Valid() && DistinctFaces(hops) && !pd.invalid
      modifies this
      ensures Valid() && initialized
      ensures (out, nack, pd) == Accepted(old(pd), old(initialized), designated, probeIdx, hops, costs, inFace)
      ensures hops != [] && (!old(initialized) || (probeIdx > old(pd).index && !old(pd).converged)) ==> IsCosts(hops, costs)
      ensures old(initialized) ==> Progress()
      ensures !old(initialized) ==>
        cheap == CheapFaces(hops) && AdmittedBy(hops, Begun(old(pd), designated, probeIdx, hops, costs).valid)
      ensures old(pd).converged ==> pd.converged && pd.dt == old(pd).dt
      ensures sound <==> old(sound) && !(!old(initialized) && old(pd).converged && hops != [])
      ensures old(sound) && !sound ==> !Consistent()
      ensures nack ==> pd.invalid
      ensures pd.valid <= live && (old(initialized) ==> live <= old(pd).valid)
      ensures out.Some? && sound && !pd.converged ==> out.value in live
    {
      hide Lists, Core, AdmittedBy, CheapFaces, DistinctFaces, SetOf, IsCosts, Begun, Probed, Forwarded;
      out, nack, costs, live := None, false, [], pd.valid;
      ghost var first := !initialized;
      if !initialized {
        costs := Initialize(probeIdx, hops);
        BegunKeeps(old(pd), designated, probeIdx, hops, costs);
      }
      ghost var start := pd;
      live := pd.valid;
      if !pd.converged {
        var go;
        ghost var again;
        go, nack, again := Probe(probeIdx, hops, inFace);
        SameCosts(start, designated, probeIdx, hops, costs, again, inFace, first);
        if !first {
          costs := again;
        }
        live := pd.valid;
        if !go {
          return;
        }
      }
      ghost var before := pd;
      out := Forward();
      if old(sound) && !sound {
        StaysBroken(before, out, pd);
        EarlyBreaks(pd, settled, cheap);
      }
    }

    /** A path-discovery Interest: where it goes, or that it is answered with a Nack. */
    method HandleInterest(relevant: bool, probeIdx: int, hops: Tier, inFace: Face)
      returns (out: Option<Face>, nack: bool, ghost costs: seq<nat>, ghost live: set<Face>)
      requires Valid() && DistinctFaces(hops)
      modifies this
      ensures Valid()
      ensures (out, nack, pd) == Interested(old(pd), old(initialized), designated, relevant, probeIdx, hops, costs, inFace)
      ensures relevant && !old(pd).invalid && hops != [] && (!old(initialized) || (probeIdx > old(pd).index && !old(pd).converged)) ==>
        IsCosts(hops, costs)
      ensures !relevant || old(pd).invalid ==> nack && out == None && pd == old(pd).(invalid := true)
      ensures relevant && !old(pd).invalid && old(initialized) && (old(pd).converged || probeIdx == old(pd).index) ==>
        TakesTurn(old(pd), out, nack, pd)
      ensures relevant && !old(pd).invalid && !old(initialized) && hops != [] ==> GoesCheapest(hops, out, nack)
      ensures old(initialized) ==> Progress()
      ensures initialized <==> old(initialized) || (relevant && !old(pd).invalid)
      ensures !old(initialized) && initialized ==>
        cheap == CheapFaces(hops) && AdmittedBy(hops, Begun(old(pd), designated, probeIdx, hops, costs).valid)
      ensures old(pd).converged ==> pd.converged && pd.dt == old(pd).dt
      ensures sound <==> old(sound) && !(relevant && !old(initialized) && !old(pd).invalid && old(pd).converged && hops != [])
      ensures old(sound) && !sound ==> !Consistent()
      ensures nack ==> pd.invalid
      ensures pd.valid <= live && (old(initialized) ==> live <= old(pd).valid)
      ensures out.Some? && sound && !pd.converged ==> out.value in live
    {
      InterestCases(pd, initialized, designated, relevant, probeIdx, hops, inFace);
      hide Lists, Core, AdmittedBy, CheapFaces, DistinctFaces, SetOf, IsCosts, Begun, Accepted, TakesTurn, GoesCheapest;
      if !relevant || pd.invalid {
        ghost var before := pd;
        pd := pd.(invalid := true);
        SameLists(before, pd, settled, cheap);
        return None, true, [], pd.valid;
      }
      out, nack, costs, live := Accept(probeIdx, hops, inFace);
    }

    /** A path-discovery Nack, and the reason passed on. */
    method HandleNack(inFace: Face, reason: Reason) returns (passed: Option<Reason>)
      requires Valid()
      modifies this
      ensures Valid() && Progress() && pd == Nacked(old(pd), inFace, reason)
      ensures passed == if reason == Other then None
                        else if reason == NoRoute && (old(pd).invalid || pd.valid == {}) then Some(NoRoute) else Some(NoReason)
      ensures pd.invalid <==> old(pd).invalid || (reason == NoRoute && pd.valid == {})
    {
      hide Lists, Core, Checked, Excluded;
      CheckedKeeps();
      ExcludedKeeps(pd, {inFace});
      if reason == NoRoute {
        if pd.invalid {
          return Some(NoRoute);
        }
        if !pd.frozen {
          Exclude(inFace);
        }
        CheckTier();
        if pd.valid == {} {
          ghost var before := pd;
          pd := pd.(invalid := true);
          SameLists(before, pd, settled, cheap);
          return Some(NoRoute);
        }
        return Some(NoReason);
      } else if reason == NoReason {
        return Some(NoReason);
      }
      return None;
    }

    /** A path-discovery Data: the two flags passed on. */
    method HandleData(inFace: Face, tierFlag: bool, nodeFlag: bool, producer: bool) returns (tierOut: bool, nodeOut: bool)
      requires Valid()
      modifies this
      ensures Valid() && Progress() && pd == DataSeen(old(pd), inFace, tierFlag, nodeFlag)
      ensures tierOut <==> producer || (tierFlag && old(pd).tierSet - (if pd.frozen then {} else {inFace}) == {})
      ensures pd.converged <==>
        (old(pd).converged || (tierFlag && old(pd).tierSet - (if pd.frozen then {} else {inFace}) == {} && HigherTiersEmpty(old(pd))))
      ensures nodeOut <==> nodeFlag && pd.converged && pd.nodeSet == {}
    {
      hide Once, Unique, SetOf, NonEmpty, Gathered;
      tierOut := tierFlag;
      if tierFlag {
        if !pd.frozen {
          pd := pd.(tierSet := pd.tierSet - {inFace});
        }
        tierOut := pd.tierSet == {};
        if tierOut && !pd.converged {
          var empty := AboveEmpty(pd.wait, pd.current);
          if empty {
            LocalNodeConverged();
          }
        }
      }
      if producer {
        tierOut := true;
      }
      nodeOut := false;
      if nodeFlag {
        pd := pd.(nodeSet := pd.nodeSet - {inFace});
        nodeOut := pd.converged && pd.nodeSet == {};
      }
    }

    /** One event, from one phase to the next. */
    method Handle(e: Event, phase: Phase)
      requires Valid() && InPhase(this, phase) && (e.Interest? ==> DistinctFaces(e.hops))
      modifies this
      ensures Valid() && InPhase(this, Next(phase, e))
      ensures phase != Broken && Next(phase, e) == Broken ==> !Consistent()
    {
      hide DistinctFaces, Consistent, Interested, Nacked, DataSeen, Lists, Begun, TakesTurn, GoesCheapest, AdmittedBy, CheapFaces, IsCosts;
      match e
      case Interest(relevant, probeIdx, hops, inFace) =>
        if !relevant || pd.invalid {
          EarlyInterest(pd, initialized, designated, relevant, probeIdx, hops, inFace);
        }
        var out, nack, costs, live := HandleInterest(relevant, probeIdx, hops, inFace);
      case Nack(inFace, reason) =>
        EarlyNack(pd, inFace, reason);
        var passed := HandleNack(inFace, reason);
      case Data(inFace, tierFlag, nodeFlag, producer) =>
        EarlyData(pd, inFace, tierFlag, nodeFlag);
        var tierOut, nodeOut := HandleData(inFace, tierFlag, nodeFlag, producer);
    }
  }

  /** The loop of areHigherTiersEmpty. */
  method AboveEmpty(wait: Tiers, current: nat) returns (empty: bool)
    ensures empty <==> forall i :: current < i < |wait| ==> wait[i] == []
  {
    var i := current + 1;
    while i < |wait|
      invariant current < i && forall k :: current < k < i && k < |wait| ==> wait[k] == []
    {
      if wait[i] != [] {
        return false;
      }
      i := i + 1;
    }
    return true;
  }

  // ----- Small steps -----

  lemma NoTiers(hops: Tier, costs: seq<nat>)
    ensures costs == [] ==> FirstWait(hops, costs) == []
  {
  }

  lemma NothingCheap()
    ensures CheapFaces([]) == {}
  {
  }

  lemma TierNotEmpty(tier: Tier)
    requires tier != []
    ensures FacesOf(tier) != {}
  {
    assert tier[0].face in FacesOf(tier);
  }

  lemma EarlyBreaks(a: Pd, settled: set<Face>, cheap: set<Face>)
    requires a.tierSet != {} && a.converged
    ensures !Core(a, settled, cheap)
  {
  }

  lemma RefreshedKeeps(a: Pd, hops: Tier, costs: seq<nat>)
    ensures Refreshed(a, hops, costs).converged == a.converged && Refreshed(a, hops, costs).index == a.index
    ensures Refreshed(a, hops, costs).invalid == a.invalid && Refreshed(a, hops, costs).frozen == a.frozen
  {
  }

  lemma BegunKeeps(a: Pd, designated: bool, index: int, hops: Tier, costs: seq<nat>)
    ensures Begun(a, designated, index, hops, costs).index == index && Begun(a, designated, index, hops, costs).frozen == a.frozen
  {
    hide TiersOf, FirstWait, Everything, Appended, FacesOf, NonEmpty, Gathered;
  }

  lemma ProbeCases(a: Pd, designated: bool, index: int, hops: Tier, inFace: Face)
    ensures forall costs :: index < a.index ==> Probed(a, designated, index, hops, costs, inFace) == Stop(a)
    ensures forall costs :: index == a.index ==> Probed(a, designated, index, hops, costs, inFace) == Admit(a, inFace)
    ensures Admit(a, inFace).Stop? <==> inFace in a.probed && !Waits(a.wait, inFace)
    ensures Admit(a, inFace).Stop? ==> Admit(a, inFace) == Stop(a)
    ensures !Admit(a, inFace).Stop? ==> (Admit(a, inFace).Go? <==> Admit(a, inFace).state.valid != {})
    ensures inFace !in a.probed ==> var b := Admit(a, inFace).state; inFace !in b.valid && b.frozen == a.frozen
  {
    hide Less, Listed, NonEmpty, Gathered, CutFrom;
  }

  lemma NothingLess(gone: set<Face>)
    ensures LessAll([], gone) == [] && Unlisted([], gone) == []
  {
  }

  lemma NothingExcluded(a: Pd)
    ensures Excluded(a, {}) == a
  {
    LessAllNothing(a.wait);
    UnlistedNone(a.probed, {});
  }

  lemma ExcludedTwice(a: Pd, x: set<Face>, y: set<Face>)
    ensures Excluded(Excluded(a, x), y) == Excluded(a, x + y)
  {
    hide LessAll, Unlisted;
    LessAllTwice(a.wait, x, y);
    UnlistedTwice(a.probed, x, y);
    assert a.valid - x - y == a.valid - (x + y) && a.tierSet - x - y == a.tierSet - (x + y) && a.nodeSet - x - y == a.nodeSet - (x + y);
  }

  lemma ExcludedKeeps(a: Pd, gone: set<Face>)
    ensures Excluded(a, gone).invalid == a.invalid && Excluded(a, gone).frozen == a.frozen && Excluded(a, gone).converged == a.converged
  {
  }

  lemma ThawedAlike(a: Pd)
    requires a.probed != [] && a.frozen && a.frozenFaces == {a.probed[TurnOf(a)]}
    ensures var b := a.(cursor := (TurnOf(a) + 1) % |a.probed|, frozenFaces := {}, frozen := false);
      (Some(a.probed[TurnOf(a)]), Excluded(b, a.recover).(recover := {})) == Forwarded(a)
  {
    assert a.frozenFaces - {a.probed[TurnOf(a)]} == {};
  }

  /** The costs of the first snapshot are those a probing step would find. */
  lemma SameCosts(a: Pd, designated: bool, index: int, hops: Tier, costs: seq<nat>, again: seq<nat>, inFace: Face, first: bool)
    requires first ==> a.index == index
    ensures first ==> Probed(a, designated, index, hops, costs, inFace) == Probed(a, designated, index, hops, again, inFace)
  {
  }

  lemma StaysBroken(a: Pd, out: Option<Face>, b: Pd)
    requires (out, b) == Forwarded(a) && a.tierSet != {} && !a.frozen
    ensures b.tierSet == a.tierSet && b.converged == a.converged
  {
  }

  lemma EarlyInterest(a: Pd, started: bool, designated: bool, relevant: bool, index: int, hops: Tier, inFace: Face)
    requires !relevant || a.invalid
    ensures forall costs :: Interested(a, started, designated, relevant, index, hops, costs, inFace).2 == a.(invalid := true)
  {
  }

  lemma EarlyNack(a: Pd, inFace: Face, reason: Reason)
    ensures reason != NoRoute || a.invalid ==> Nacked(a, inFace, reason) == a
    ensures a.valid == {} && reason == NoRoute ==> Nacked(a, inFace, reason).invalid
  {
    hide LessAll, Unlisted, CutFrom, NonEmpty, Gathered;
  }

  lemma EarlyData(a: Pd, inFace: Face, tierFlag: bool, nodeFlag: bool)
    ensures DataSeen(a, inFace, tierFlag, nodeFlag).invalid == a.invalid
    ensures a.tierSet == {} && a.wait == [] ==> (DataSeen(a, inFace, tierFlag, nodeFlag).converged <==> a.converged || tierFlag)
  {
  }

  /** What the fields say in each phase. */
  ghost predicate InPhase(info: PathDiscoveryInfo, phase: Phase)
    reads info
  {
    match phase
    case Unstarted => !info.initialized && !info.pd.converged && !info.pd.invalid && info.sound
    case Early => !info.initialized && info.pd.converged && !info.pd.invalid && info.sound
    case Refusing => !info.initialized && info.pd.invalid && info.sound
    case Started => info.initialized && info.sound
    case Broken => info.initialized && !info.sound
  }

  datatype Event =
    | Interest(relevant: bool, probeIdx: int, hops: Tier, inFace: Face)
    | Nack(inFace: Face, reason: Reason)
    | Data(inFace: Face, tierFlag: bool, nodeFlag: bool, producer: bool)

  /** Where a node stands: nothing known, converged with nothing known, refusing, started, or started
      after it had converged. */
  datatype Phase = Unstarted | Early | Refusing | Started | Broken

  function Next(phase: Phase, e: Event): Phase {
    if phase.Unstarted? || phase.Early? then
      match e
      case Interest(relevant, _, hops, _) =>
        if !relevant then Refusing else if phase.Early? && hops != [] then Broken else Started
      case Nack(_, reason) => if reason == NoRoute then Refusing else phase
      case Data(_, tierFlag, _, _) => if tierFlag then Early else phase
    else phase
  }

  function PhaseAfter(events: seq<Event>): Phase {
    if events == [] then Unstarted else Next(PhaseAfter(events[..|events| - 1]), events[|events| - 1])
  }

  ghost predicate AllDistinct(events: seq<Event>) {
    forall i :: 0 <= i < |events| && events[i].Interest? ==> DistinctFaces(events[i].hops)
  }

  /** Runs of the handlers: the invariant holds after every event up to the one, if any, that breaks
      it. */
  method Serve(designated: bool, events: seq<Event>) returns (info: PathDiscoveryInfo)
    requires AllDistinct(events)
    ensures fresh(info) && info.Valid() && (info.sound <==> PhaseAfter(events) != Broken)
    ensures PhaseAfter(events) != Broken ==> info.Consistent()
    ensures PhaseAfter(events) == Broken && PhaseAfter(events[..|events| - 1]) != Broken ==> !info.Consistent()
  {
    hide DistinctFaces;
    info := new PathDiscoveryInfo(designated);
    for i := 0 to |events|
      invariant fresh(info) && info.Valid() && InPhase(info, PhaseAfter(events[..i]))
      invariant i > 0 && PhaseAfter(events[..i]) == Broken && PhaseAfter(events[..i - 1]) != Broken ==> !info.Consistent()
    {
      assert events[..i + 1][..i] == events[..i];
      info.Handle(events[i], PhaseAfter(events[..i]));
    }
    assert events[..|events|] == events;
  }

  /** A Data with the tier flag before the first Interest makes a node converge with nothing known;
      that Interest then breaks the invariant. */
  lemma DataFirst(hops: Tier, inFace: Face, probeIdx: int)
    requires hops != []
    ensures PhaseAfter([Data(inFace, true, false, false), Interest(true, probeIdx, hops, inFace)]) == Broken
  {
    var first, both := [Data(inFace, true, false, false)], [Data(inFace, true, false, false), Interest(true, probeIdx, hops, inFace)];
    assert both[..|both| - 1] == first && first[..|first| - 1] == [];
    assert PhaseAfter(first) == Next(PhaseAfter([]), first[0]) == Early;
  }

  /** Only such a Data can: without one before the first accepted Interest, nothing breaks. */
  lemma {:induction false} BreaksOnlyAfterData(events: seq<Event>)
    ensures PhaseAfter(events) in {Early, Broken} ==> exists i :: 0 <= i < |events| && events[i].Data? && events[i].tierFlag
  {
    if events != [] {
      var init := events[..|events| - 1];
      BreaksOnlyAfterData(init);
      if PhaseAfter(init) in {Early, Broken} {
        var i :| 0 <= i < |init| && init[i].Data? && init[i].tierFlag;
        assert events[i].Data? && events[i].tierFlag;
      }
    }
  }
}
