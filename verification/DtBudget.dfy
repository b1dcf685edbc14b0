/** The token and budget allocator of a face in fw/fw/multipath.go: how many packets each
    forwarding thread may send. Tokens, carries, weights and seconds are real numbers. */
module DtBudget {

  const QUOTA_CAP: nat := 512
  const TOKEN_BURST_CAP: real := 64.0
  const RETAINED_CAP: real := 1.0
  const CARRY_CAP: real := 1.0

  // ----- Sums -----

  function SumR(s: seq<real>): real {
    if s == [] then 0.0 else SumR(s[..|s| - 1]) + s[|s| - 1]
  }

  function SumN(s: seq<nat>): nat {
    if s == [] then 0 else SumN(s[..|s| - 1]) + s[|s| - 1]
  }

  lemma {:induction false} SumRConcat(a: seq<real>, b: seq<real>)
    ensures SumR(a + b) == SumR(a) + SumR(b)
  {
    if b == [] {
      assert a + b == a;
    } else {
      assert (a + b)[..|a + b| - 1] == a + b[..|b| - 1];
      SumRConcat(a, b[..|b| - 1]);
    }
  }

  lemma {:induction false} SumNUpdate(s: seq<nat>, k: nat, v: nat)
    requires k < |s|
    ensures SumN(s[k := v]) + s[k] == SumN(s) + v
  {
    if k < |s| - 1 {
      SumNUpdate(s[..|s| - 1], k, v);
      assert s[k := v][..|s| - 1] == s[..|s| - 1][k := v];
    } else {
      assert s[k := v][..|s| - 1] == s[..|s| - 1];
    }
  }

  lemma {:induction false} SumNZero(s: seq<nat>)
    ensures SumN(s) == 0 <==> forall i :: 0 <= i < |s| ==> s[i] == 0
  {
    if s != [] {
      SumNZero(s[..|s| - 1]);
      assert s == s[..|s| - 1] + [s[|s| - 1]];
    }
  }

  /** Threads are visited from `start` on, wrapping around. */
  function Tid(start: nat, i: nat, n: nat): nat
    requires start < n && i < n
  {
    if start + i < n then start + i else start + i - n
  }

  /** Position at which a thread is visited. */
  function Turn(start: nat, tid: nat, n: nat): nat
    requires start < n && tid < n
  {
    if tid >= start then tid - start else tid + n - start
  }

  function Rotated(s: seq<real>, start: nat): seq<real>
    requires start <= |s|
  {
    s[start..] + s[..start]
  }

  lemma RotatedSum(s: seq<real>, start: nat)
    requires start <= |s|
    ensures SumR(Rotated(s, start)) == SumR(s)
  {
    SumRConcat(s[start..], s[..start]);
    SumRConcat(s[..start], s[start..]);
    assert s[..start] + s[start..] == s;
  }

  lemma RotatedStep(s: seq<real>, start: nat, i: nat)
    requires start < |s| && i < |s|
    ensures SumR(Rotated(s, start)[..i + 1]) == SumR(Rotated(s, start)[..i]) + s[Tid(start, i, |s|)]
  {
    assert Rotated(s, start)[..i + 1][..i] == Rotated(s, start)[..i];
  }

  // ----- Weighted shares -----

  /** Weight of a thread: its demand plus a base weight of 1, or nothing if it has no demand. */
  function Weight(demand: nat): real {
    if demand > 0 then 1.0 + demand as real else 0.0
  }

  function Weights(demand: seq<nat>): seq<real> {
    seq(|demand|, i requires 0 <= i < |demand| => Weight(demand[i]))
  }

  /** Carries of the threads that take part. */
  function ActiveCarries(demand: seq<nat>, carry: seq<real>): seq<real>
    requires |demand| == |carry|
  {
    seq(|demand|, i requires 0 <= i < |demand| => if demand[i] > 0 then carry[i] else 0.0)
  }

  function Share(available: nat, weight: real, total: real): real
    requires total > 0.0
  {
    available as real * (weight / total)
  }

  lemma ShareAdds(available: nat, a: real, b: real, total: real)
    requires total > 0.0
    ensures Share(available, a, total) + Share(available, b, total) == Share(available, a + b, total)
  {
    assert (a + b) / total == a / total + b / total;
  }

  lemma ShareEnds(available: nat, total: real)
    requires total > 0.0
    ensures Share(available, total, total) == available as real && Share(available, 0.0, total) == 0.0
  {
  }

  lemma ShareNonNegative(available: nat, a: real, total: real)
    requires total > 0.0 && a >= 0.0
    ensures Share(available, a, total) >= 0.0
  {
    assert a / total >= 0.0;
  }

  /** Threads with demand share the packets in proportion to their demands plus one each, and a thread
      without demand has no share. */
  lemma SharesAreProportional(available: nat, a: nat, b: nat, total: real)
    requires total > 0.0 && a > 0 && b > 0
    ensures Share(available, Weight(a), total) * (b + 1) as real == Share(available, Weight(b), total) * (a + 1) as real
    ensures Share(available, Weight(0), total) == 0.0
  {
    var x, y := (a + 1) as real, (b + 1) as real;
    assert Weight(a) == x && Weight(b) == y;
    QuotientSwap(x, y, total);
    assert available as real * (x / total) * y == available as real * (x / total * y);
    assert available as real * (y / total) * x == available as real * (y / total * x);
  }

  lemma QuotientSwap(x: real, y: real, total: real)
    requires total > 0.0
    ensures x / total * y == y / total * x
  {
    assert x / total * y == x * y / total;
  }

  lemma {:induction false} WeightsPositive(demand: seq<nat>)
    ensures SumR(Weights(demand)) >= 0.0
    ensures SumR(Weights(demand)) > 0.0 <==> exists i :: 0 <= i < |demand| && demand[i] > 0
  {
    if demand != [] {
      var rest := demand[..|demand| - 1];
      WeightsPositive(rest);
      assert Weights(demand)[..|demand| - 1] == Weights(rest);
      if i :| 0 <= i < |demand| && demand[i] > 0 {
        if i < |rest| { assert rest[i] > 0; }
      }
    }
  }

  datatype Quotas = Quotas(budget: seq<nat>, carry: seq<real>)

  ghost predicate ValidQuotas(demand: seq<nat>, q: Quotas) {
    && |q.budget| == |q.carry| == |demand|
    && (forall i :: 0 <= i < |demand| ==> 0.0 <= q.carry[i] < 1.0)
    && (forall i :: 0 <= i < |demand| ==> q.budget[i] <= QUOTA_CAP)
  }

  /** What an allocation guarantees to each thread: nothing changes without demand, and with
      demand it gets at least its weighted share of the packets, carry included and rounded down,
      as far as the cap allows. */
  ghost predicate Served(demand: seq<nat>, before: Quotas, after: Quotas, available: nat, total: real, t: nat)
    requires ValidQuotas(demand, before) && ValidQuotas(demand, after) && t < |demand| && total > 0.0
  {
    if demand[t] == 0 then after.budget[t] == before.budget[t] && after.carry[t] == before.carry[t]
    else
      var due := (Share(available, Weight(demand[t]), total) + before.carry[t]).Floor;
      after.budget[t] >= QUOTA_CAP || after.budget[t] >= before.budget[t] + due
  }

  method TotalWeight(demand: seq<nat>, start: nat) returns (total: real)
    requires start < |demand|
    ensures total == SumR(Weights(demand))
  {
    var n := |demand|;
    total := 0.0;
    for i := 0 to n
      invariant total == SumR(Rotated(Weights(demand), start)[..i])
    {
      RotatedStep(Weights(demand), start, i);
      var tid := Tid(start, i, n);
      if demand[tid] > 0 {
        total := total + (1.0 + demand[tid] as real);
      }
    }
    assert Rotated(Weights(demand), start)[..n] == Rotated(Weights(demand), start);
    RotatedSum(Weights(demand), start);
  }

  /** The loop that hands out whole shares and keeps the fractions as carries. */
  method AssignShares(demand: seq<nat>, before: Quotas, available: nat, total: real, start: nat)
    returns (q: Quotas, issued: nat)
    requires ValidQuotas(demand, before) && start < |demand| && total == SumR(Weights(demand)) && total > 0.0
    ensures ValidQuotas(demand, q)
    ensures SumN(q.budget) == SumN(before.budget) + issued
    ensures issued as real <= available as real + SumR(ActiveCarries(demand, before.carry))
    ensures forall t :: 0 <= t < |demand| ==> Served(demand, before, q, available, total, t)
  {
    hide Share, SumR, SumN, Rotated;
    var n := |demand|;
    ghost var ws, cs := Rotated(Weights(demand), start), Rotated(ActiveCarries(demand, before.carry), start);
    RotatedSum(Weights(demand), start);
    RotatedSum(ActiveCarries(demand, before.carry), start);
    RotatedEnds(Weights(demand), start);
    RotatedEnds(ActiveCarries(demand, before.carry), start);
    ShareEnds(available, total);
    q, issued := before, 0;
    for i := 0 to n
      invariant ValidQuotas(demand, q)
      invariant SumN(q.budget) == SumN(before.budget) + issued
      invariant issued as real <= Share(available, SumR(ws[..i]), total) + SumR(cs[..i])
      invariant forall t :: 0 <= t < n && Turn(start, t, n) >= i ==> q.budget[t] == before.budget[t] && q.carry[t] == before.carry[t]
      invariant forall t :: 0 <= t < n && Turn(start, t, n) < i ==> Served(demand, before, q, available, total, t)
    {
      var tid := Tid(start, i, n);
      RotatedStep(Weights(demand), start, i);
      RotatedStep(ActiveCarries(demand, before.carry), start, i);
      var weight := Weight(demand[tid]);
      ShareAdds(available, SumR(ws[..i]), weight, total);
      if weight > 0.0 {
        ShareNonNegative(available, weight, total);
        var share := Share(available, weight, total) + q.carry[tid];
        var grant: nat := share.Floor;
        var rest := share - grant as real;
        if rest > CARRY_CAP {
          rest := CARRY_CAP;
        }
        q := q.(carry := q.carry[tid := rest]);
        if q.budget[tid] < QUOTA_CAP && grant > 0 {
          if grant > QUOTA_CAP - q.budget[tid] {
            grant := QUOTA_CAP - q.budget[tid];
          }
          SumNUpdate(q.budget, tid, q.budget[tid] + grant);
          q := q.(budget := q.budget[tid := q.budget[tid] + grant]);
          issued := issued + grant;
        }
      } else {
        ShareEnds(available, total);
      }
    }
  }

  lemma RotatedEnds(s: seq<real>, start: nat)
    requires start <= |s|
    ensures Rotated(s, start)[..|s|] == Rotated(s, start) && |Rotated(s, start)| == |s|
    ensures SumR(Rotated(s, start)[..0]) == 0.0
  {
  }

  // ----- Left-over packets -----

  predicate Eligible(demand: seq<nat>, q: Quotas, t: nat) {
    t < |demand| == |q.budget| && demand[t] > 0 && q.budget[t] < QUOTA_CAP
  }

  /** The eligible thread with the largest carry; the one visited first among equals. */
  ghost predicate IsBest(demand: seq<nat>, q: Quotas, start: nat, t: nat) {
    && |q.carry| == |demand| && start < |demand| && Eligible(demand, q, t)
    && forall u :: 0 <= u < |demand| && Eligible(demand, q, u) ==>
         q.carry[u] < q.carry[t] || (q.carry[u] == q.carry[t] && Turn(start, t, |demand|) <= Turn(start, u, |demand|))
  }

  method FindBest(demand: seq<nat>, q: Quotas, start: nat) returns (found: bool, best: nat)
    requires ValidQuotas(demand, q) && start < |demand|
    ensures found ==> IsBest(demand, q, start, best)
    ensures !found ==> forall t: nat :: !Eligible(demand, q, t)
  {
    var n := |demand|;
    found, best := false, 0;
    var bestCarry := -1.0;
    for i := 0 to n
      invariant !found ==> bestCarry == -1.0 && forall t :: 0 <= t < n && Turn(start, t, n) < i ==> !Eligible(demand, q, t)
      invariant found ==> Eligible(demand, q, best) && Turn(start, best, n) < i && bestCarry == q.carry[best]
      invariant found ==> forall u :: 0 <= u < n && Turn(start, u, n) < i && Eligible(demand, q, u) ==>
        q.carry[u] < q.carry[best] || (q.carry[u] == q.carry[best] && Turn(start, best, n) <= Turn(start, u, n))
    {
      var tid := Tid(start, i, n);
      assert forall t :: 0 <= t < n && Turn(start, t, n) == i ==> t == tid;
      if demand[tid] > 0 && q.budget[tid] < QUOTA_CAP && q.carry[tid] > bestCarry {
        found, best, bestCarry := true, tid, q.carry[tid];
      }
    }
  }

  /** One packet for thread t, whose carry is used up. */
  function Gave(q: Quotas, t: nat): Quotas
    requires t < |q.budget| == |q.carry|
  {
    Quotas(q.budget[t := q.budget[t] + 1], q.carry[t := 0.0])
  }

  /** `after` results from giving `k` packets, each to the best thread at its time. */
  ghost predicate GivenToBest(demand: seq<nat>, before: Quotas, after: Quotas, start: nat, k: nat)
    decreases k
  {
    if k == 0 then before == after
    else exists mid, t: nat :: GivenToBest(demand, before, mid, start, k - 1) && GaveBest(demand, mid, start, t, after)
  }

  ghost predicate GaveBest(demand: seq<nat>, q: Quotas, start: nat, t: nat, after: Quotas) {
    IsBest(demand, q, start, t) && after == Gave(q, t)
  }

  /** The loop that gives out what rounding has left over. */
  method AssignRemainder(demand: seq<nat>, before: Quotas, remaining: nat, start: nat) returns (q: Quotas, given: nat)
    requires ValidQuotas(demand, before) && start < |demand|
    ensures ValidQuotas(demand, q) && given <= remaining
    ensures SumN(q.budget) == SumN(before.budget) + given
    ensures given == remaining || forall t :: 0 <= t < |demand| && demand[t] > 0 ==> q.budget[t] == QUOTA_CAP
    ensures forall t :: 0 <= t < |demand| ==> before.budget[t] <= q.budget[t]
    ensures forall t :: 0 <= t < |demand| && demand[t] == 0 ==> q.budget[t] == before.budget[t] && q.carry[t] == before.carry[t]
    ensures GivenToBest(demand, before, q, start, given)
  {
    hide GivenToBest, SumN;
    q, given := before, 0;
    assert GivenToBest(demand, before, q, start, 0) by { GivenNone(demand, before, start); }
    while given < remaining
      invariant ValidQuotas(demand, q) && given <= remaining
      invariant SumN(q.budget) == SumN(before.budget) + given
      invariant forall t :: 0 <= t < |demand| ==> before.budget[t] <= q.budget[t]
      invariant forall t :: 0 <= t < |demand| && demand[t] == 0 ==> q.budget[t] == before.budget[t] && q.carry[t] == before.carry[t]
      invariant GivenToBest(demand, before, q, start, given)
    {
      var found, t := FindBest(demand, q, start);
      if !found {
        forall t | 0 <= t < |demand| && demand[t] > 0 ensures q.budget[t] == QUOTA_CAP {
          assert !Eligible(demand, q, t);
        }
        return;
      }
      SumNUpdate(q.budget, t, q.budget[t] + 1);
      GivenMore(demand, before, q, start, given, t);
      q := Quotas(q.budget[t := q.budget[t] + 1], q.carry[t := 0.0]);
      given := given + 1;
    }
  }

  lemma GivenNone(demand: seq<nat>, before: Quotas, start: nat)
    ensures GivenToBest(demand, before, before, start, 0)
  {
  }

  lemma GivenMore(demand: seq<nat>, before: Quotas, q: Quotas, start: nat, k: nat, t: nat)
    requires GivenToBest(demand, before, q, start, k) && IsBest(demand, q, start, t)
    ensures GivenToBest(demand, before, Gave(q, t), start, k + 1)
  {
    assert GaveBest(demand, q, start, t, Gave(q, t));
  }

  // ----- One allocation -----

  lemma ServedMore(demand: seq<nat>, before: Quotas, mid: Quotas, after: Quotas, available: nat, total: real, t: nat)
    requires ValidQuotas(demand, before) && ValidQuotas(demand, mid) && ValidQuotas(demand, after) && t < |demand| && total > 0.0
    requires Served(demand, before, mid, available, total, t) && mid.budget[t] <= after.budget[t]
    requires demand[t] == 0 ==> after.budget[t] == mid.budget[t] && after.carry[t] == mid.carry[t]
    ensures Served(demand, before, after, available, total, t)
  {
  }

  ghost predicate AllAtCap(demand: seq<nat>, budget: seq<nat>) {
    |budget| == |demand| && forall t :: 0 <= t < |demand| && demand[t] > 0 ==> budget[t] == QUOTA_CAP
  }

  /** assignDtWeightedThreadBudgetLocked. At least the grant is issued unless every active thread
      is at its cap, and at most the grant plus the carries held before. */
  method Assign(demand: seq<nat>, before: Quotas, available: nat, start: nat) returns (q: Quotas, issued: nat)
    requires ValidQuotas(demand, before) && (demand != [] ==> start < |demand|)
    ensures ValidQuotas(demand, q)
    ensures SumN(q.budget) == SumN(before.budget) + issued
    ensures available == 0 || SumR(Weights(demand)) <= 0.0 ==> q == before && issued == 0
    ensures available > 0 && SumR(Weights(demand)) > 0.0 ==>
      && (issued >= available || AllAtCap(demand, q.budget))
      && issued as real <= available as real + SumR(ActiveCarries(demand, before.carry))
      && (forall t :: 0 <= t < |demand| ==> Served(demand, before, q, available, SumR(Weights(demand)), t))
  {
    hide Share, Served, SumR, SumN, GivenToBest;
    if available == 0 || demand == [] {
      assert demand == [] ==> SumR(Weights(demand)) <= 0.0 by { WeightsPositive(demand); }
      return before, 0;
    }
    var total := TotalWeight(demand, start);
    if total <= 0.0 {
      return before, 0;
    }
    q, issued := AssignShares(demand, before, available, total, start);
    if issued < available {
      CarriesNonNegative(demand, before.carry);
      var mid := q;
      var given;
      q, given := AssignRemainder(demand, mid, available - issued, start);
      issued := issued + given;
      forall t | 0 <= t < |demand| ensures Served(demand, before, q, available, total, t) {
        ServedMore(demand, before, mid, q, available, total, t);
      }
    }
  }

  lemma {:induction false} CarriesNonNegative(demand: seq<nat>, carry: seq<real>)
    requires |demand| == |carry| && forall i :: 0 <= i < |demand| ==> 0.0 <= carry[i] < 1.0
    ensures 0.0 <= SumR(ActiveCarries(demand, carry)) <= Active(demand) as real
    ensures Active(demand) > 0 ==> SumR(ActiveCarries(demand, carry)) < Active(demand) as real
  {
    if demand != [] {
      var k := |demand| - 1;
      CarriesNonNegative(demand[..k], carry[..k]);
      assert ActiveCarries(demand, carry)[..k] == ActiveCarries(demand[..k], carry[..k]);
    }
  }

  /** Number of threads with demand. */
  function Active(demand: seq<nat>): nat {
    if demand == [] then 0 else Active(demand[..|demand| - 1]) + if demand[|demand| - 1] > 0 then 1 else 0
  }

  // ----- The control state of a face -----

  function Clamp(x: real, cap: real): real {
    if x > cap then cap else x
  }

  /** Tokens after minting at `rate` since the last refill; a clock that runs backwards mints none. */
  function Refilled(tokens: real, last: real, now: real, rate: real): real {
    Clamp(tokens + (if now > last then now - last else 0.0) * rate, TOKEN_BURST_CAP)
  }

  /** Unused budget goes back into the tokens, of which at most one is then retained. */
  function Reclaimed(tokens: real, leftover: nat): real {
    if leftover > 0 then Clamp(tokens + leftover as real, RETAINED_CAP) else tokens
  }

  /** What is left of the tokens when all whole ones are granted. */
  function Fraction(tokens: real): real {
    tokens - tokens.Floor as real
  }

  /** Whole packets granted: the tokens rounded down, or one forced packet if there is none. */
  function GrantOf(tokens: real, forced: nat): int {
    if tokens.Floor < 1 && forced > 0 then 1 else tokens.Floor
  }

  /** Tokens grow by the rate times the time that has passed, until the cap is reached. */
  lemma Minted(tokens: real, last: real, now: real, rate: real)
    requires last <= now
    ensures tokens + rate * (now - last) <= 64.0 ==> Refilled(tokens, last, now, rate) == tokens + rate * (now - last)
    ensures tokens + rate * (now - last) >= 64.0 ==> Refilled(tokens, last, now, rate) == 64.0
  {
  }

  /** Two refills mint what one over the whole time does, so it does not matter when tokens are
      refilled, and a longer wait never leaves fewer tokens. */
  lemma MintedTwice(tokens: real, last: real, mid: real, now: real, rate: real)
    requires last <= mid <= now && rate >= 0.0
    ensures Refilled(Refilled(tokens, last, mid, rate), mid, now, rate) == Refilled(tokens, last, now, rate)
    ensures Refilled(tokens, last, mid, rate) <= Refilled(tokens, last, now, rate)
  {
    var a, b := (mid - last) * rate, (now - mid) * rate;
    assert a >= 0.0 && b >= 0.0;
    assert (now - last) * rate == a + b;
  }

  /** Nor does it ever grant less: every token is a packet, unused budget counts for at most one, and
      a forced packet is granted only in place of none. */
  lemma WaitNeverGrantsLess(tokens: real, last: real, mid: real, now: real, rate: real, leftover: nat, forced: nat)
    requires tokens >= 0.0 && last <= mid <= now && rate >= 0.0
    ensures var early, late := Refilled(tokens, last, mid, rate), Refilled(tokens, last, now, rate);
      var grant := GrantOf(Reclaimed(late, leftover), forced);
      && 0 <= GrantOf(Reclaimed(early, leftover), forced) <= grant
      && (leftover == 0 && late >= 1.0 ==> grant as real <= late < grant as real + 1.0)
      && (leftover == 0 && late < 1.0 ==> grant == if forced > 0 then 1 else 0)
      && (leftover > 0 ==> grant == 1)
  {
    MintedTwice(tokens, last, mid, now, rate);
    Minted(tokens, last, mid, rate);
    assert (mid - last) * rate >= 0.0;
  }

  lemma {:induction false} SumNAtLeast(s: seq<nat>, i: nat)
    requires i < |s|
    ensures SumN(s) >= s[i]
  {
    if i < |s| - 1 { SumNAtLeast(s[..|s| - 1], i); }
  }

  class FaceControl {
    var activated: bool
    var rate: real
    var tokens: real
    var started: bool
    var lastRefill: real
    var demand: seq<nat>
    var quotas: Quotas
    var forced: nat
    var budgetRR: nat

    /** Carries are fractions, budgets stay below the cap, and a thread without demand holds
        neither budget nor carry. */
    ghost predicate Consistent()
      reads this
    {
      && ValidQuotas(demand, quotas) && budgetRR < |demand|
      && forall t :: 0 <= t < |demand| && demand[t] == 0 ==> quotas.budget[t] == 0 && quotas.carry[t] == 0.0
    }

    ghost predicate Valid()
      reads this
    {
      Consistent() && 0.0 <= tokens <= RETAINED_CAP
    }

    /** A control state with slots for n threads. */
    constructor (n: nat)
      requires n > 0
      ensures Valid() && |demand| == n && forall t :: 0 <= t < n ==> demand[t] == 0
    {
      activated, rate, tokens, started, lastRefill, forced, budgetRR := false, 0.0, 0.0, false, 0.0, 0, 0;
      demand, quotas := seq(n, _ => 0), Quotas(seq(n, _ => 0), seq(n, _ => 0.0));
    }

    /** noteDtThreadDemand */
    method NoteDemand(thread: int, delta: int)
      requires Valid()
      modifies this`demand, this`quotas
      ensures Valid() && |demand| == |old(demand)|
      ensures 0 <= thread < |demand| ==>
        demand == old(demand)[thread := if old(demand)[thread] + delta < 0 then 0 else old(demand)[thread] + delta]
      ensures !(0 <= thread < |demand|) ==> demand == old(demand)
      ensures forall t :: 0 <= t < |demand| && (t != thread || demand[t] > 0) ==>
        quotas.budget[t] == old(quotas).budget[t] && quotas.carry[t] == old(quotas).carry[t]
    {
      if thread < 0 || thread >= |demand| {
        return;
      }
      var d := demand[thread] + delta;
      if d < 0 {
        d := 0;
      }
      demand := demand[thread := d];
      if d == 0 {
        quotas := Quotas(quotas.budget[thread := 0], quotas.carry[thread := 0.0]);
      }
    }

    /** takeDtThreadBudget */
    method TakeBudget(thread: int, maxPackets: int) returns (grant: nat)
      requires Valid()
      modifies this`quotas
      ensures Valid() && quotas.carry == old(quotas).carry
      ensures !(0 <= thread < |demand|) || maxPackets <= 0 ==> grant == 0
      ensures 0 <= thread < |demand| && maxPackets > 0 ==>
        grant == if old(quotas).budget[thread] > maxPackets then maxPackets else old(quotas).budget[thread]
      ensures SumN(quotas.budget) + grant == SumN(old(quotas).budget)
      ensures 0 <= thread < |demand| ==> quotas.budget == old(quotas).budget[thread := old(quotas).budget[thread] - grant]
      ensures grant > 0 ==> 0 <= thread < |demand| && demand[thread] > 0
    {
      if thread < 0 || maxPackets <= 0 || thread >= |demand| {
        if 0 <= thread < |demand| { assert quotas.budget == quotas.budget[thread := quotas.budget[thread]]; }
        return 0;
      }
      grant := quotas.budget[thread];
      if grant > maxPackets {
        grant := maxPackets;
      }
      SumNUpdate(quotas.budget, thread, quotas.budget[thread] - grant);
      quotas := quotas.(budget := quotas.budget[thread := quotas.budget[thread] - grant]);
    }

    /** reclaimDtLegacyBudgetLocked */
    method Reclaim() returns (leftover: nat)
      requires Consistent()
      modifies this`quotas, this`tokens
      ensures Consistent() && quotas.carry == old(quotas).carry
      ensures leftover == SumN(old(quotas).budget) && tokens == Reclaimed(old(tokens), leftover)
      ensures forall t :: 0 <= t < |demand| ==> quotas.budget[t] == 0
    {
      leftover := 0;
      ghost var was := quotas.budget;
      for t := 0 to |quotas.budget|
        invariant Consistent() && quotas.carry == old(quotas).carry && tokens == old(tokens)
        invariant leftover == SumN(was[..t])
        invariant forall u :: 0 <= u < t ==> quotas.budget[u] == 0
        invariant forall u :: t <= u < |was| ==> quotas.budget[u] == was[u]
      {
        assert was[..t + 1][..t] == was[..t];
        leftover := leftover + quotas.budget[t];
        quotas := quotas.(budget := quotas.budget[t := 0]);
      }
      assert was[..|was|] == was;
      if leftover > 0 {
        tokens := tokens + leftover as real;
        if tokens > RETAINED_CAP {
          tokens := RETAINED_CAP;
        }
      }
    }

    /** refillDtFaceTokensLocked */
    method Refill(now: real)
      modifies this`tokens, this`lastRefill, this`started
      ensures tokens == Refilled(old(tokens), if old(started) then old(lastRefill) else now, now, rate)
      ensures lastRefill == now && started
    {
      if !started {
        lastRefill, started := now, true;
      }
      var elapsed := now - lastRefill;
      if elapsed < 0.0 {
        elapsed := 0.0;
      }
      tokens := tokens + elapsed * rate;
      if tokens > TOKEN_BURST_CAP {
        tokens := TOKEN_BURST_CAP;
      }
      lastRefill := now;
    }

    /** allocateDtFaceBudgetsLegacy. The budgets handed out amount to at least the grant and to
        less than the grant plus the number of active threads. */
    method AllocateLegacy() returns (grant: int)
      requires Consistent() && 0.0 <= tokens <= TOKEN_BURST_CAP
      modifies this`tokens, this`quotas, this`forced, this`budgetRR
      ensures Valid()
      ensures grant == GrantOf(Reclaimed(old(tokens), SumN(old(quotas).budget)), old(forced))
      ensures grant <= 0 || Active(demand) == 0 ==> SumN(quotas.budget) == 0
      ensures grant > 0 && Active(demand) > 0 ==>
        && grant <= SumN(quotas.budget) < grant + Active(demand)
        && SumN(quotas.budget) as real <= grant as real + SumR(ActiveCarries(demand, old(quotas).carry))
      ensures Active(demand) > 0 ==> tokens == Fraction(Reclaimed(old(tokens), SumN(old(quotas).budget)))
      ensures Active(demand) > 0 ==> budgetRR == if grant > 0 then (old(budgetRR) + 1) % |demand| else old(budgetRR)
      ensures forced == if old(forced) > 0 && Reclaimed(old(tokens), SumN(old(quotas).budget)) < 1.0 then old(forced) - 1 else old(forced)
    {
      hide SumN, SumR, Served, Active;
      var leftover := Reclaim();
      assert SumN(quotas.budget) == 0 by { SumNZero(quotas.budget); }
      grant := tokens.Floor;
      if grant > 0 {
        tokens := tokens - grant as real;
      }
      if grant < 1 && forced > 0 {
        grant := 1;
        forced := forced - 1;
      }
      if grant <= 0 {
        return;
      }
      var total := TotalDemand(demand);
      if total == 0 {
        tokens := tokens + grant as real;
        if tokens > RETAINED_CAP {
          tokens := RETAINED_CAP;
        }
        return;
      }
      ghost var before := quotas;
      var issued;
      quotas, issued := Assign(demand, quotas, grant, budgetRR);
      SomeActive(demand);
      var remaining := grant - issued;
      if remaining > 0 {
        tokens := tokens + remaining as real;
        if tokens > RETAINED_CAP {
          tokens := RETAINED_CAP;
        }
      }
      budgetRR := (budgetRR + 1) % |demand|;
      CarriesNonNegative(demand, before.carry);
      if AllAtCap(demand, quotas.budget) { CapSuffices(demand, quotas.budget); }
      assert Consistent() by { IdleUntouched(demand, before, quotas, grant); }
    }

    /** clearDtFaceBlockedStateLocked */
    method ClearBlocked(now: real)
      requires Consistent()
      modifies this`tokens, this`lastRefill, this`started, this`forced, this`quotas
      ensures Valid() && tokens == 0.0 && forced == 0
      ensures forall t :: 0 <= t < |demand| ==> quotas.budget[t] == 0 && quotas.carry[t] == 0.0
    {
      tokens, lastRefill, started, forced := 0.0, now, true, 0;
      quotas := Quotas(seq(|demand|, _ => 0), seq(|demand|, _ => 0.0));
    }

    /** allocateDtFaceBudgets; `blocked` says whether the face has failed. */
    method Allocate(now: real, blocked: bool)
      requires Valid()
      modifies this
      ensures Valid() && demand == old(demand) && rate == old(rate) && activated == old(activated)
      ensures 0.0 <= tokens <= 1.0 && forall t :: 0 <= t < |demand| ==> quotas.budget[t] <= 512 && 0.0 <= quotas.carry[t] < 1.0
      ensures !activated || rate <= 0.0 ==> quotas == old(quotas) && tokens == old(tokens)
      ensures activated && rate > 0.0 && (blocked || Active(demand) == 0) ==> SumN(quotas.budget) == 0
      ensures activated && rate > 0.0 && !blocked && Active(demand) > 0 ==>
        var held := Reclaimed(Refilled(old(tokens), if old(started) then old(lastRefill) else now, now, rate), SumN(old(quotas).budget));
        var grant := GrantOf(held, old(forced));
        && tokens == Fraction(held) && lastRefill == now && started
        && (grant <= 0 ==> SumN(quotas.budget) == 0)
        && (grant > 0 ==> grant <= SumN(quotas.budget) < grant + Active(demand))
    {
      hide SumN, SumR, Active;
      if !activated || rate <= 0.0 {
        return;
      }
      if blocked {
        ClearBlocked(now);
        assert SumN(quotas.budget) == 0 by { SumNZero(quotas.budget); }
        return;
      }
      var total := TotalDemand(demand);
      if total <= 0 {
        var leftover := Reclaim();
        tokens := Clamp(tokens, RETAINED_CAP);
        lastRefill, started := now, true;
        assert SumN(quotas.budget) == 0 by { SumNZero(quotas.budget); }
        return;
      }
      RefillNonNegative(tokens, if started then lastRefill else now, now, rate);
      Refill(now);
      var grant := AllocateLegacy();
    }
  }

  lemma RefillNonNegative(tokens: real, last: real, now: real, rate: real)
    requires tokens >= 0.0 && rate > 0.0
    ensures 0.0 <= Refilled(tokens, last, now, rate) <= TOKEN_BURST_CAP
  {
  }

  method TotalDemand(demand: seq<nat>) returns (total: nat)
    ensures total > 0 <==> Active(demand) > 0
  {
    total := 0;
    for i := 0 to |demand|
      invariant total > 0 <==> Active(demand[..i]) > 0
    {
      assert demand[..i + 1][..i] == demand[..i];
      total := total + demand[i];
    }
    assert demand[..|demand|] == demand;
  }

  lemma {:induction false} SomeActive(demand: seq<nat>)
    requires Active(demand) > 0
    ensures SumR(Weights(demand)) > 0.0
    ensures exists t :: 0 <= t < |demand| && demand[t] > 0
  {
    if demand[|demand| - 1] == 0 {
      SomeActive(demand[..|demand| - 1]);
      var t :| 0 <= t < |demand| - 1 && demand[..|demand| - 1][t] > 0;
      assert demand[t] > 0;
    }
    WeightsPositive(demand);
  }

  lemma CapSuffices(demand: seq<nat>, budget: seq<nat>)
    requires AllAtCap(demand, budget) && Active(demand) > 0
    ensures SumN(budget) >= QUOTA_CAP
  {
    SomeActive(demand);
    var t :| 0 <= t < |demand| && demand[t] > 0;
    SumNAtLeast(budget, t);
  }

  lemma IdleUntouched(demand: seq<nat>, before: Quotas, after: Quotas, available: nat)
    requires ValidQuotas(demand, before) && ValidQuotas(demand, after) && SumR(Weights(demand)) > 0.0
    requires forall t :: 0 <= t < |demand| ==> Served(demand, before, after, available, SumR(Weights(demand)), t)
    requires forall t :: 0 <= t < |demand| && demand[t] == 0 ==> before.budget[t] == 0 && before.carry[t] == 0.0
    ensures forall t :: 0 <= t < |demand| && demand[t] == 0 ==> after.budget[t] == 0 && after.carry[t] == 0.0
  {
    forall t | 0 <= t < |demand| && demand[t] == 0 ensures after.budget[t] == 0 && after.carry[t] == 0.0 {
      assert Served(demand, before, after, available, SumR(Weights(demand)), t);
    }
  }
}
