/** The smooth weighted round-robin chooser of fw/fw/multipath.go: which upstream face an Interest
    is assigned to. Rates and credits are real numbers.

    With a fixed set of n faces the credits behave like the cups of a cup-emptying game, which
    bounds the unfairness by the harmonic number of n. */
module SmoothWrr {

  type FaceId = nat

  // ----- Sums over sets of faces -----

  function Times(k: nat, x: real): real {
    k as real * x
  }

  lemma TimesStep(k: nat, x: real)
    ensures Times(k + 1, x) == Times(k, x) + x && Times(0, x) == 0.0
  {
  }

  ghost function Sum(s: set<FaceId>, c: map<FaceId, real>): real
    requires s <= c.Keys
    decreases s
  {
    if s == {} then 0.0 else var f :| f in s; c[f] + Sum(s - {f}, c)
  }

  lemma {:induction false} SumOut(s: set<FaceId>, c: map<FaceId, real>, f: FaceId)
    requires s <= c.Keys && f in s
    ensures Sum(s, c) == c[f] + Sum(s - {f}, c)
    decreases s
  {
    var g :| g in s && Sum(s, c) == c[g] + Sum(s - {g}, c);
    if g != f {
      SumOut(s - {g}, c, f);
      SumOut(s - {f}, c, g);
      assert s - {g} - {f} == s - {f} - {g};
    }
  }

  lemma {:induction false} SumAdds(s: set<FaceId>, c: map<FaceId, real>, d: map<FaceId, real>, e: map<FaceId, real>)
    requires s <= c.Keys && s <= d.Keys && s <= e.Keys
    requires forall f :: f in s ==> e[f] == c[f] + d[f]
    ensures Sum(s, e) == Sum(s, c) + Sum(s, d)
    decreases s
  {
    if s != {} {
      var f :| f in s;
      SumOut(s, c, f);
      SumOut(s, d, f);
      SumOut(s, e, f);
      SumAdds(s - {f}, c, d, e);
    }
  }

  lemma {:induction false} SumSame(s: set<FaceId>, c: map<FaceId, real>, d: map<FaceId, real>)
    requires s <= c.Keys && s <= d.Keys && forall f :: f in s ==> c[f] == d[f]
    ensures Sum(s, c) == Sum(s, d)
    decreases s
  {
    if s != {} {
      var f :| f in s;
      SumOut(s, c, f);
      SumOut(s, d, f);
      SumSame(s - {f}, c, d);
    }
  }

  lemma {:induction false} SumMonotone(s: set<FaceId>, t: set<FaceId>, w: map<FaceId, real>)
    requires s <= t <= w.Keys && forall f :: f in t ==> w[f] >= 0.0
    ensures Sum(s, w) <= Sum(t, w)
    decreases t - s
  {
    if f :| f in t && f !in s {
      SumMonotone(s + {f}, t, w);
      SumOut(s + {f}, w, f);
      assert s + {f} - {f} == s;
    } else {
      assert s == t;
    }
  }

  lemma {:induction false} SumAtMost(s: set<FaceId>, c: map<FaceId, real>, m: real)
    requires s <= c.Keys && forall f :: f in s ==> c[f] <= m
    ensures Sum(s, c) <= Times(|s|, m)
    decreases s
  {
    hide Times;
    TimesStep(0, m);
    if s != {} {
      var f :| f in s;
      SumOut(s, c, f);
      SumAtMost(s - {f}, c, m);
      TimesStep(|s - {f}|, m);
    }
  }

  lemma {:induction false} SumZero(s: set<FaceId>, c: map<FaceId, real>)
    requires s <= c.Keys && forall f :: f in s ==> c[f] == 0.0
    ensures Sum(s, c) == 0.0
    decreases s
  {
    if s != {} {
      var f :| f in s;
      SumOut(s, c, f);
      SumZero(s - {f}, c);
    }
  }

  // ----- Picks -----

  ghost predicate Weights(faces: set<FaceId>, w: map<FaceId, real>) {
    w.Keys == faces && faces != {} && forall f :: f in faces ==> w[f] > 0.0
  }

  /** Credits once every face has been given its weight. */
  function Raised(c: map<FaceId, real>, w: map<FaceId, real>): map<FaceId, real>
    requires c.Keys == w.Keys
  {
    map f | f in c :: c[f] + w[f]
  }

  /** Credits after `pick` has paid the total weight. */
  function Paid(c: map<FaceId, real>, w: map<FaceId, real>, total: real, pick: FaceId): map<FaceId, real>
    requires c.Keys == w.Keys
  {
    map f | f in c :: c[f] + w[f] - if f == pick then total else 0.0
  }

  /** The face with the most credit; among equals the one with the least number. */
  ghost predicate IsTop(raised: map<FaceId, real>, faces: set<FaceId>, pick: FaceId) {
    && faces <= raised.Keys && pick in faces
    && forall f :: f in faces ==> raised[f] < raised[pick] || (raised[f] == raised[pick] && pick <= f)
  }

  /** Sum of 1/i for i from j+1 to n. */
  function Harmonic(j: nat, n: nat): (h: real)
    requires j <= n
    ensures h >= 0.0
    decreases n - j
  {
    if j == n then 0.0 else 1.0 / ((j + 1) as real) + Harmonic(j + 1, n)
  }

  /** The credits of any set of faces are bounded together: the smaller the set, the more credit
      each of its faces may have. */
  ghost predicate SetsBounded(faces: set<FaceId>, c: map<FaceId, real>, total: real)
    requires faces <= c.Keys
  {
    forall s :: s <= faces && s != {} ==> Sum(s, c) <= SetBound(|s|, |faces|, total)
  }

  function SetBound(j: nat, n: nat, total: real): real {
    if j <= n then j as real * Harmonic(j, n) * total else 0.0
  }

  /** A face that pays had at least the average, so it keeps at least this much. */
  function LeastCredit(total: real, n: nat): real {
    if n > 0 then total / (n as real) - total else 0.0
  }

  ghost predicate Fair(faces: set<FaceId>, w: map<FaceId, real>, c: map<FaceId, real>)
    requires Weights(faces, w)
  {
    var total := Sum(faces, w);
    && c.Keys == faces
    && Sum(faces, c) == 0.0
    && SetsBounded(faces, c, total)
    && (forall f :: f in faces ==> c[f] >= LeastCredit(total, |faces|))
  }

  lemma SubsetSize(s: set<FaceId>, t: set<FaceId>)
    requires s <= t
    ensures |s| <= |t|
    ensures s != t ==> |s| < |t|
  {
    assert t == s + (t - s) && |t| == |s| + |t - s|;
  }

  /** The set paying is the set bounded: nothing is gained. */
  lemma PayingSet(s: set<FaceId>, faces: set<FaceId>, c: map<FaceId, real>, w: map<FaceId, real>, pick: FaceId)
    requires Weights(faces, w) && c.Keys == faces && s <= faces && pick in s
    ensures Sum(s, Paid(c, w, Sum(faces, w), pick)) <= Sum(s, c)
  {
    var total, paid, raised := Sum(faces, w), Paid(c, w, Sum(faces, w), pick), Raised(c, w);
    SumAdds(s, c, w, raised);
    SumMonotone(s, faces, w);
    SumOut(s, paid, pick);
    SumOut(s, raised, pick);
    SumSame(s - {pick}, paid, raised);
  }

  /** A set that does not pay holds at most its share of what it and the top face hold together. */
  lemma WaitingSet(s: set<FaceId>, faces: set<FaceId>, c: map<FaceId, real>, w: map<FaceId, real>, pick: FaceId)
    requires Weights(faces, w) && c.Keys == faces && s <= faces && s != {}
    requires pick !in s && IsTop(Raised(c, w), faces, pick)
    requires Sum(s + {pick}, c) <= SetBound(|s| + 1, |faces|, Sum(faces, w))
    ensures |s| < |faces|
    ensures Sum(s, Paid(c, w, Sum(faces, w), pick)) <= SetBound(|s|, |faces|, Sum(faces, w))
  {
    hide SetBound, Sum, Times, Raised, Paid, IsTop;
    var j, n, total := |s|, |faces|, Sum(faces, w);
    var rest, x := WaitingSum(s, faces, c, w, pick);
    ShareOfTwo(rest, x, j, n, total);
  }

  lemma WaitingSum(s: set<FaceId>, faces: set<FaceId>, c: map<FaceId, real>, w: map<FaceId, real>, pick: FaceId)
    returns (rest: real, x: real)
    requires Weights(faces, w) && c.Keys == faces && s <= faces && s != {}
    requires pick !in s && IsTop(Raised(c, w), faces, pick)
    ensures 0 < |s| < |faces| && rest == Sum(s, Paid(c, w, Sum(faces, w), pick))
    ensures rest <= Times(|s|, x) && rest + x <= Sum(s + {pick}, c) + Sum(faces, w)
  {
    hide Sum, Times;
    var raised, both := Raised(c, w), s + {pick};
    rest, x := Sum(s, raised), raised[pick];
    SubsetSize(s, faces);
    SumSame(s, Paid(c, w, Sum(faces, w), pick), raised);
    SumAtMost(s, raised, x);
    SumAdds(both, c, w, raised);
    SumMonotone(both, faces, w);
    SumOut(both, raised, pick);
    assert both - {pick} == s;
  }

  lemma ShareOfTwo(rest: real, x: real, j: nat, n: nat, total: real)
    requires 0 < j < n
    requires rest <= Times(j, x)
    requires rest + x <= SetBound(j + 1, n, total) + total
    ensures rest <= SetBound(j, n, total)
  {
    var J, h := j as real, Harmonic(j + 1, n);
    assert (j + 1) as real == J + 1.0;
    assert SetBound(j + 1, n, total) == (J + 1.0) * h * total;
    // (J + 1) * rest <= J * (rest + x) <= J * ((J + 1) * h * total + total)
    assert (J + 1.0) * rest == J * rest + rest <= J * rest + J * x == J * (rest + x);
    MulMonotone(J, rest + x, (J + 1.0) * h * total + total);
    var inv := 1.0 / (J + 1.0);
    assert inv * (J + 1.0) == 1.0;
    assert J * ((J + 1.0) * h * total + total) == (J + 1.0) * (J * (inv + h) * total) by {
      Expand(J, h, total, inv);
    }
    MulCancel(J + 1.0, rest, J * (inv + h) * total);
    assert Harmonic(j, n) == inv + h;
  }

  lemma Expand(J: real, h: real, total: real, inv: real)
    requires inv * (J + 1.0) == 1.0
    ensures J * ((J + 1.0) * h * total + total) == (J + 1.0) * (J * (inv + h) * total)
  {
    calc {
      (J + 1.0) * (J * (inv + h) * total);
      == J * total * (((J + 1.0) * inv) + (J + 1.0) * h);
      == J * total * (1.0 + (J + 1.0) * h);
      == J * ((J + 1.0) * h * total + total);
    }
  }

  lemma MulMonotone(k: real, a: real, b: real)
    requires k >= 0.0 && a <= b
    ensures k * a <= k * b
  {
  }

  lemma MulCancel(k: real, a: real, b: real)
    requires k > 0.0 && k * a <= k * b
    ensures a <= b
  {
  }

  /** Every pick keeps the credits fair. */
  lemma PickKeepsFair(faces: set<FaceId>, w: map<FaceId, real>, c: map<FaceId, real>, pick: FaceId)
    requires Weights(faces, w) && Fair(faces, w, c) && IsTop(Raised(c, w), faces, pick)
    ensures Fair(faces, w, Paid(c, w, Sum(faces, w), pick))
  {
    hide SetBound, Sum, LeastCredit;
    var total, raised := Sum(faces, w), Raised(c, w);
    var paid := Paid(c, w, total, pick);
    forall s | s <= faces && s != {}
      ensures Sum(s, paid) <= SetBound(|s|, |faces|, total)
    {
      if pick in s {
        PayingSet(s, faces, c, w, pick);
      } else {
        assert |s + {pick}| == |s| + 1;
        WaitingSet(s, faces, c, w, pick);
      }
    }
    PickBalances(faces, w, c, pick);
  }

  lemma PickBalances(faces: set<FaceId>, w: map<FaceId, real>, c: map<FaceId, real>, pick: FaceId)
    requires Weights(faces, w) && c.Keys == faces && Sum(faces, c) == 0.0 && IsTop(Raised(c, w), faces, pick)
    ensures Sum(faces, Paid(c, w, Sum(faces, w), pick)) == 0.0
    ensures Paid(c, w, Sum(faces, w), pick)[pick] >= LeastCredit(Sum(faces, w), |faces|)
  {
    hide Sum, Times, LeastCredit;
    var total, raised := Sum(faces, w), Raised(c, w);
    var paid := Paid(c, w, total, pick);
    SumAdds(faces, c, w, raised);
    SumOut(faces, raised, pick);
    SumOut(faces, paid, pick);
    SumSame(faces - {pick}, raised, paid);
    SumAtMost(faces, raised, raised[pick]);
    AverageBound(total, raised[pick], |faces|);
  }

  lemma AverageBound(total: real, top: real, n: nat)
    requires n > 0 && total <= Times(n, top)
    ensures LeastCredit(total, n) <= top - total
  {
    var q := total / (n as real);
    assert q * (n as real) == total;
    MulCancel(n as real, q, top);
  }

  // ----- Runs -----

  function Credits(faces: set<FaceId>, w: map<FaceId, real>, total: real, picks: seq<FaceId>): (c: map<FaceId, real>)
    requires w.Keys == faces
    ensures c.Keys == faces
  {
    if picks == [] then map f | f in faces :: 0.0
    else Paid(Credits(faces, w, total, picks[..|picks| - 1]), w, total, picks[|picks| - 1])
  }

  /** Each pick is the face with the most credit at its time. */
  ghost predicate IsRun(faces: set<FaceId>, w: map<FaceId, real>, picks: seq<FaceId>)
    requires Weights(faces, w)
  {
    forall k :: 0 <= k < |picks| ==> IsTop(Raised(Credits(faces, w, Sum(faces, w), picks[..k]), w), faces, picks[k])
  }

  function Count(picks: seq<FaceId>, f: FaceId): nat {
    if picks == [] then 0 else Count(picks[..|picks| - 1], f) + if picks[|picks| - 1] == f then 1 else 0
  }

  lemma StartIsFair(faces: set<FaceId>, w: map<FaceId, real>)
    requires Weights(faces, w)
    ensures Fair(faces, w, Credits(faces, w, Sum(faces, w), []))
  {
    hide SetBound, Sum, LeastCredit, Times;
    var c, total, n := Credits(faces, w, Sum(faces, w), []), Sum(faces, w), |faces|;
    SumNone(w);
    SumMonotone({}, faces, w);
    forall s | s <= faces && s != {}
      ensures Sum(s, c) <= SetBound(|s|, n, total)
    {
      SubsetSize(s, faces);
      SumZero(s, c);
      BoundNotNegative(|s|, n, total);
    }
    SumZero(faces, c);
    LeastNotPositive(total, n);
  }

  lemma BoundNotNegative(j: nat, n: nat, total: real)
    requires total >= 0.0
    ensures SetBound(j, n, total) >= 0.0
  {
    if j <= n {
      assert j as real * Harmonic(j, n) >= 0.0;
      MulMonotone(j as real * Harmonic(j, n), 0.0, total);
    }
  }

  lemma LeastNotPositive(total: real, n: nat)
    requires total >= 0.0
    ensures LeastCredit(total, n) <= 0.0
  {
    if n > 0 {
      MulMonotone(total, 1.0, n as real);
      AverageBound(total, total, n);
    }
  }

  lemma {:induction false} RunIsFair(faces: set<FaceId>, w: map<FaceId, real>, picks: seq<FaceId>)
    requires Weights(faces, w) && IsRun(faces, w, picks)
    ensures Fair(faces, w, Credits(faces, w, Sum(faces, w), picks))
  {
    hide Sum, Fair, IsTop, Raised;
    if picks == [] {
      StartIsFair(faces, w);
    } else {
      var rest := picks[..|picks| - 1];
      forall k | 0 <= k < |rest| ensures IsTop(Raised(Credits(faces, w, Sum(faces, w), rest[..k]), w), faces, rest[k]) {
        assert rest[..k] == picks[..k];
      }
      RunIsFair(faces, w, rest);
      PickKeepsFair(faces, w, Credits(faces, w, Sum(faces, w), rest), picks[|picks| - 1]);
    }
  }

  /** A credit is what a face is owed: its share of the picks so far minus the picks it got. */
  lemma {:induction false} CreditIsDebt(faces: set<FaceId>, w: map<FaceId, real>, total: real, picks: seq<FaceId>, f: FaceId)
    requires w.Keys == faces && f in faces
    ensures Credits(faces, w, total, picks)[f] == Times(|picks|, w[f]) - Times(Count(picks, f), total)
  {
    hide Times;
    TimesStep(0, w[f]);
    TimesStep(0, total);
    if picks != [] {
      CreditIsDebt(faces, w, total, picks[..|picks| - 1], f);
      TimesStep(|picks| - 1, w[f]);
      TimesStep(Count(picks[..|picks| - 1], f), total);
    }
  }

  /** How far a face may lag behind its share, in credit: (1/2 + ... + 1/n) times the total. */
  function Lag(n: nat, total: real): real {
    if n >= 1 then Harmonic(1, n) * total else 0.0
  }

  /** Fairness: after k picks a face with weight w out of a total W has been chosen at most
      k*w/W + 1 - 1/n times and at least k*w/W - (1/2 + ... + 1/n) times. */
  lemma Fairness(faces: set<FaceId>, w: map<FaceId, real>, picks: seq<FaceId>, f: FaceId)
    requires Weights(faces, w) && IsRun(faces, w, picks) && f in faces
    ensures |faces| >= 1
    ensures Times(Count(picks, f), Sum(faces, w)) <= Times(|picks|, w[f]) - LeastCredit(Sum(faces, w), |faces|)
    ensures Times(Count(picks, f), Sum(faces, w)) >= Times(|picks|, w[f]) - Lag(|faces|, Sum(faces, w))
  {
    hide Sum, Times, Credits, LeastCredit, Lag, Fair, IsRun;
    RunIsFair(faces, w, picks);
    CreditIsDebt(faces, w, Sum(faces, w), picks, f);
    FairFace(faces, w, Credits(faces, w, Sum(faces, w), picks), f);
  }

  lemma FairFace(faces: set<FaceId>, w: map<FaceId, real>, c: map<FaceId, real>, f: FaceId)
    requires Weights(faces, w) && Fair(faces, w, c) && f in faces
    ensures |faces| >= 1 && LeastCredit(Sum(faces, w), |faces|) <= c[f] <= Lag(|faces|, Sum(faces, w))
  {
    hide Sum, LeastCredit, SetBound, Lag;
    SubsetSize({f}, faces);
    assert Sum({f}, c) <= SetBound(1, |faces|, Sum(faces, w)) by { assert {f} <= faces && |{f}| == 1; }
    SumOne(c, f);
    SetBoundOne(|faces|, Sum(faces, w));
  }

  lemma SumOne(c: map<FaceId, real>, f: FaceId)
    requires f in c
    ensures Sum({f}, c) == c[f]
  {
    SumOut({f}, c, f);
    assert {f} - {f} == {};
  }

  lemma SetBoundOne(n: nat, total: real)
    requires n >= 1
    ensures SetBound(1, n, total) == Lag(n, total)
  {
  }

  /** The harmonic bound is at most half of n - 1, so it improves on the bound n - 1 that the sum
      of the credits alone would give. */
  lemma {:induction false} HarmonicSmall(j: nat, n: nat)
    requires 1 <= j <= n
    ensures Harmonic(j, n) <= (n - j) as real / 2.0
    decreases n - j
  {
    if j < n {
      HarmonicSmall(j + 1, n);
      HalfBound((j + 1) as real);
    }
  }

  lemma HalfBound(x: real)
    requires x >= 2.0
    ensures 1.0 / x <= 0.5
  {
    var q := 1.0 / x;
    assert q * x == 1.0;
    MulCancel(x, q, 0.5);
  }

  /** No face starves: once its share of the picks exceeds the harmonic bound it has been chosen. */
  lemma NoStarvation(faces: set<FaceId>, w: map<FaceId, real>, picks: seq<FaceId>, f: FaceId)
    requires Weights(faces, w) && IsRun(faces, w, picks) && f in faces
    requires |faces| >= 1 && Times(|picks|, w[f]) > Lag(|faces|, Sum(faces, w))
    ensures Count(picks, f) > 0
  {
    hide Sum, Lag, LeastCredit, Times, IsRun, Count;
    Fairness(faces, w, picks, f);
    TimesStep(0, Sum(faces, w));
  }

  // ----- The chooser -----

  /** dtCurrentFaceWeight: the rate of a face, or 1 if it has none. */
  function Weight(rates: map<FaceId, real>, f: FaceId): (w: real)
    ensures w > 0.0
  {
    if f in rates && rates[f] > 0.0 then rates[f] else 1.0
  }

  function WeightsOf(rates: map<FaceId, real>, faces: set<FaceId>): map<FaceId, real> {
    map f | f in faces :: Weight(rates, f)
  }

  /** Credits of the candidate faces; a face not seen before starts at 0. */
  function Started(credits: map<FaceId, real>, faces: set<FaceId>): map<FaceId, real> {
    map f | f in faces :: CreditOf(credits, f)
  }

  predicate Candidates(candidates: seq<FaceId>) {
    && candidates != [] && 0 !in candidates
    && forall i, j :: 0 <= i < j < |candidates| ==> candidates[i] != candidates[j]
  }

  function Elements(candidates: seq<FaceId>): set<FaceId> {
    set f | f in candidates
  }

  /** Per-prefix assignment state. */
  class AssignState {
    var credits: map<FaceId, real>
    var assignCount: map<FaceId, nat>

    constructor ()
      ensures credits == map[] && assignCount == map[]
    {
      credits, assignCount := map[], map[];
    }

    /** selectDtAssignedFaceWRR */
    method Select(candidates: seq<FaceId>, rates: map<FaceId, real>) returns (selected: FaceId)
      requires candidates != [] ==> Candidates(candidates)
      modifies this
      ensures candidates == [] ==> selected == 0 && credits == old(credits) && assignCount == old(assignCount)
      ensures candidates != [] ==> Picked(old(credits), Elements(candidates), rates, credits, selected)
      ensures candidates != [] ==> assignCount == CountsAfter(old(assignCount), Elements(candidates), selected)
    {
      if candidates == [] {
        return 0;
      }
      hide Sum, IsTop, Picked, Candidates, Elements, Live;
      var faces := Elements(candidates);
      var raised, total;
      raised, total, selected := RaiseAll(credits, candidates, rates);
      PickedBy(credits, faces, rates, raised, total, selected);
      credits := Live(raised, faces)[selected := raised[selected] - total];
      assignCount := CountsAfter(assignCount, faces, selected);
    }
  }

  /** What is left of a map once the faces that are no longer candidates are deleted. */
  function Live<T>(m: map<FaceId, T>, faces: set<FaceId>): map<FaceId, T> {
    map f | f in m && f in faces :: m[f]
  }

  function CountsAfter(counts: map<FaceId, nat>, faces: set<FaceId>, selected: FaceId): map<FaceId, nat> {
    var live := Live(counts, faces);
    live[selected := (if selected in live then live[selected] else 0) + 1]
  }

  /** One call is one pick among the candidate faces, at their current weights. */
  ghost predicate Picked(credits: map<FaceId, real>, faces: set<FaceId>, rates: map<FaceId, real>,
                         credits': map<FaceId, real>, selected: FaceId) {
    var w, c := WeightsOf(rates, faces), Started(credits, faces);
    Weights(faces, w) && IsTop(Raised(c, w), faces, selected) && credits' == Paid(c, w, Sum(faces, w), selected)
  }

  /** What a pick does to the faces it does not select: each gains its rate if that is positive and 1
      otherwise. Faces that are no longer candidates are forgotten. */
  lemma OthersGain(credits: map<FaceId, real>, faces: set<FaceId>, rates: map<FaceId, real>, credits': map<FaceId, real>, selected: FaceId)
    requires Picked(credits, faces, rates, credits', selected)
    ensures selected in faces && credits'.Keys == faces
    ensures forall f :: f in faces && f != selected ==>
      credits'[f] == (if f in credits then credits[f] else 0.0) + if f in rates && rates[f] > 0.0 then rates[f] else 1.0
  {
    hide Sum;
  }

  /** Only the selected face is counted. */
  lemma SelectedCounts(counts: map<FaceId, nat>, faces: set<FaceId>, selected: FaceId)
    requires selected in faces
    ensures CountsAfter(counts, faces, selected).Keys == counts.Keys * faces + {selected}
    ensures forall f :: f in CountsAfter(counts, faces, selected) ==>
      CountsAfter(counts, faces, selected)[f] == (if f in counts then counts[f] else 0) + if f == selected then 1 else 0
  {
  }

  lemma PickedBy(credits: map<FaceId, real>, faces: set<FaceId>, rates: map<FaceId, real>,
                 raised: map<FaceId, real>, total: real, selected: FaceId)
    requires IsTop(raised, faces, selected) && total == Sum(faces, WeightsOf(rates, faces))
    requires forall f :: f in faces ==> raised[f] == CreditOf(credits, f) + Weight(rates, f)
    ensures selected in raised
    ensures Picked(credits, faces, rates, Live(raised, faces)[selected := raised[selected] - total], selected)
  {
    hide Sum, Weight, Weights, IsTop, CreditOf;
    var w, c := WeightsOf(rates, faces), Started(credits, faces);
    TopIn(raised, faces, selected);
    WeightsPositive(rates, faces);
    TopSame(raised, Raised(c, w), faces, selected);
    assert Live(raised, faces)[selected := raised[selected] - total] == Paid(c, w, total, selected);
  }

  lemma TopIn(raised: map<FaceId, real>, faces: set<FaceId>, selected: FaceId)
    requires IsTop(raised, faces, selected)
    ensures faces <= raised.Keys && selected in faces
  {
  }

  lemma TopSame(raised: map<FaceId, real>, other: map<FaceId, real>, faces: set<FaceId>, selected: FaceId)
    requires IsTop(raised, faces, selected) && faces <= raised.Keys && faces <= other.Keys
    requires forall f :: f in faces ==> other[f] == raised[f]
    ensures IsTop(other, faces, selected)
  {
  }

  lemma WeightsPositive(rates: map<FaceId, real>, faces: set<FaceId>)
    requires faces != {}
    ensures Weights(faces, WeightsOf(rates, faces))
  {
  }

  /** The loop that raises the credits and keeps the best face. */
  method RaiseAll(credits: map<FaceId, real>, candidates: seq<FaceId>, rates: map<FaceId, real>)
    returns (raised: map<FaceId, real>, total: real, selected: FaceId)
    requires Candidates(candidates)
    ensures var faces := Elements(candidates);
      && total == Sum(faces, WeightsOf(rates, faces))
      && raised.Keys == credits.Keys + faces
      && IsTop(raised, faces, selected)
      && (forall f :: f in faces ==> raised[f] == CreditOf(credits, f) + Weight(rates, f))
  {
    hide Sum, IsTop, Weight, Gained;
    ghost var w := WeightsOf(rates, Elements(candidates));
    raised, total, selected := credits, 0.0, 0;
    var best := 0.0;
    SumNone(w);
    ghost var seen := {};
    GainedNone(credits, rates);
    for i := 0 to |candidates|
      invariant seen == Elements(candidates[..i]) && total == Sum(seen, w) && Gained(credits, raised, seen, rates)
      invariant i == 0 <==> selected == 0
      invariant i > 0 ==> selected in seen && selected in raised && IsTop(raised, seen, selected) && best == raised[selected]
    {
      var face := candidates[i];
      assert Elements(candidates[..i + 1]) == seen + {face} && face !in seen && face != 0;
      var weight := Weight(rates, face);
      total := total + weight;
      SumOut(seen + {face}, w, face);
      assert seen + {face} - {face} == seen;
      ghost var before, prior := raised, selected;
      GainedStep(credits, raised, seen, rates, face);
      raised := raised[face := CreditOf(raised, face) + weight];
      if selected == 0 || raised[face] > best || (raised[face] == best && face < selected) {
        selected := face;
        best := raised[face];
      }
      if i == 0 { TopAlone(raised, face); } else { TopStep(before, raised, seen, prior, face, selected); }
      seen := seen + {face};
    }
    assert candidates[..|candidates|] == candidates;
    GainedMeans(credits, raised, seen, rates);
  }

  /** The faces seen have gained their weights, the others are as before. */
  ghost predicate Gained(credits: map<FaceId, real>, raised: map<FaceId, real>, seen: set<FaceId>, rates: map<FaceId, real>) {
    && raised.Keys == credits.Keys + seen
    && (forall f :: f in seen ==> raised[f] == CreditOf(credits, f) + Weight(rates, f))
    && (forall f :: f in credits && f !in seen ==> raised[f] == credits[f])
  }

  lemma GainedNone(credits: map<FaceId, real>, rates: map<FaceId, real>)
    ensures Gained(credits, credits, {}, rates)
  {
  }

  lemma GainedStep(credits: map<FaceId, real>, raised: map<FaceId, real>, seen: set<FaceId>, rates: map<FaceId, real>, face: FaceId)
    requires Gained(credits, raised, seen, rates) && face !in seen
    ensures Gained(credits, raised[face := CreditOf(raised, face) + Weight(rates, face)], seen + {face}, rates)
  {
  }

  lemma GainedMeans(credits: map<FaceId, real>, raised: map<FaceId, real>, seen: set<FaceId>, rates: map<FaceId, real>)
    requires Gained(credits, raised, seen, rates)
    ensures raised.Keys == credits.Keys + seen
    ensures forall f :: f in seen ==> raised[f] == CreditOf(credits, f) + Weight(rates, f)
  {
  }

  function CreditOf(credits: map<FaceId, real>, f: FaceId): real {
    if f in credits then credits[f] else 0.0
  }

  lemma TopAlone(raised: map<FaceId, real>, face: FaceId)
    requires face in raised
    ensures IsTop(raised, {} + {face}, face)
  {
  }

  lemma TopStep(before: map<FaceId, real>, raised: map<FaceId, real>, seen: set<FaceId>, prior: FaceId, face: FaceId, selected: FaceId)
    requires IsTop(before, seen, prior) && face !in seen && face in raised && raised == before[face := raised[face]]
    requires selected == if raised[face] > raised[prior] || (raised[face] == raised[prior] && face < prior) then face else prior
    ensures IsTop(raised, seen + {face}, selected)
  {
  }

  lemma SumNone(w: map<FaceId, real>)
    ensures Sum({}, w) == 0.0 && Elements([]) == {}
  {
  }

  /** Successive calls with the same candidates and rates make a run, so Fairness applies to them. */
  lemma {:induction false} CallsAreRun(faces: set<FaceId>, rates: map<FaceId, real>, states: seq<map<FaceId, real>>, picks: seq<FaceId>)
    requires faces != {} && |states| == |picks| + 1 && states[0] == map[]
    requires forall i :: 0 <= i < |picks| ==> Picked(states[i], faces, rates, states[i + 1], picks[i])
    ensures var w := WeightsOf(rates, faces);
      && Weights(faces, w) && IsRun(faces, w, picks)
      && Started(states[|picks|], faces) == Credits(faces, w, Sum(faces, w), picks)
  {
    hide Sum, Weights, Credits, IsRun, Picked, WeightsOf, Started;
    var w := WeightsOf(rates, faces);
    WeightsPositive(rates, faces);
    if picks == [] {
      NoCalls(faces, rates);
      assert picks == [];
    } else {
      var k := |picks| - 1;
      CallsAreRun(faces, rates, states[..k + 1], picks[..k]);
      assert Picked(states[k], faces, rates, states[k + 1], picks[k]);
      CallExtendsRun(faces, rates, states[k], states[k + 1], picks[..k], picks[k]);
      assert picks[..k] + [picks[k]] == picks;
    }
  }

  lemma NoCalls(faces: set<FaceId>, rates: map<FaceId, real>)
    requires Weights(faces, WeightsOf(rates, faces))
    ensures var w := WeightsOf(rates, faces);
      IsRun(faces, w, []) && Started(map[], faces) == Credits(faces, w, Sum(faces, w), [])
  {
  }

  lemma CallExtendsRun(faces: set<FaceId>, rates: map<FaceId, real>, c: map<FaceId, real>, c': map<FaceId, real>,
                       picks: seq<FaceId>, pick: FaceId)
    requires Weights(faces, WeightsOf(rates, faces)) && IsRun(faces, WeightsOf(rates, faces), picks)
    requires Started(c, faces) == Credits(faces, WeightsOf(rates, faces), Sum(faces, WeightsOf(rates, faces)), picks)
    requires Picked(c, faces, rates, c', pick)
    ensures var w := WeightsOf(rates, faces);
      IsRun(faces, w, picks + [pick]) && Started(c', faces) == Credits(faces, w, Sum(faces, w), picks + [pick])
  {
    hide Sum, IsTop, Credits, IsRun;
    var w := WeightsOf(rates, faces);
    RunAppend(faces, w, picks, pick);
    assert Started(c', faces) == c';
  }

  lemma RunAppend(faces: set<FaceId>, w: map<FaceId, real>, picks: seq<FaceId>, pick: FaceId)
    requires Weights(faces, w) && IsRun(faces, w, picks)
    requires IsTop(Raised(Credits(faces, w, Sum(faces, w), picks), w), faces, pick)
    ensures IsRun(faces, w, picks + [pick])
    ensures Credits(faces, w, Sum(faces, w), picks + [pick]) == Paid(Credits(faces, w, Sum(faces, w), picks), w, Sum(faces, w), pick)
  {
    hide Sum, IsTop, Raised;
    var more := picks + [pick];
    assert more[..|picks|] == picks;
    forall i | 0 <= i < |more|
      ensures IsTop(Raised(Credits(faces, w, Sum(faces, w), more[..i]), w), faces, more[i])
    {
      if i < |picks| { assert more[..i] == picks[..i]; }
    }
  }
}
