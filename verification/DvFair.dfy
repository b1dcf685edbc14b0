/** Asynchronous runs of the distance-vector protocol in which every link keeps delivering. Time is cut
    into epochs; in each, every neighbour's advertisement arrives at least once, and what arrives was
    published in the same epoch. Each epoch extends exactness by one hop, from any initial state and
    under every interleaving, loss, repetition and reordering within the epochs. */
module DvFair {
  import opened DvRib
  import opened DvNetwork

  /** The advertisement was published by `n` between positions `a` and `i`. */
  ghost predicate PublishedIn(es: seq<Event>, a: nat, i: nat, n: RouterId, adv: seq<AdvEntry>) {
    exists j :: a <= j < i && j < |es| && es[j] == Publish(n, adv)
  }

  ghost predicate DeliveredIn(es: seq<Event>, a: nat, b: nat, r: RouterId, n: RouterId) {
    exists i :: a <= i < b && i < |es| && es[i].Deliver? && es[i].router == r && es[i].from == n
  }

  /** Routers only publish and receive, and what they receive is fresh. */
  ghost predicate IsFresh(es: seq<Event>, a: nat, b: nat) {
    forall i :: a <= i < b && i < |es| ==>
      es[i].Publish? || (es[i].Deliver? && PublishedIn(es, a, i, es[i].from, es[i].adv))
  }

  ghost predicate IsEpoch(g: Graph, es: seq<Event>, a: nat, b: nat) {
    && a <= b <= |es| && IsFresh(es, a, b)
    && forall r, n :: Link(g, r, n) ==> DeliveredIn(es, a, b, r, n)
  }

  /** A run from any state of the network, on a fixed graph. */
  ghost predicate IsRunOf(g: Graph, ws: seq<World>, es: seq<Event>) {
    IsStepped(g, ws, es) && NetOk(g, ws[0].net)
  }

  ghost predicate IsStepped(g: Graph, ws: seq<World>, es: seq<Event>) {
    && ValidGraph(g) && |ws| == |es| + 1
    && (forall i :: 0 <= i < |ws| ==> ws[i].net.Keys == g.nodes)
    && (forall i :: 0 <= i < |es| ==> Step(g, ws[i], es[i], ws[i + 1]))
  }

  /** The epochs follow each other from the start of the run. */
  ghost predicate InEpochs(g: Graph, es: seq<Event>, marks: seq<nat>) {
    && |marks| > 0 && marks[0] == 0
    && forall e :: 0 <= e < |marks| - 1 ==> IsEpoch(g, es, marks[e], marks[e + 1])
  }

  // ----- One delivery -----

  /** The stored costs through one neighbour are exact below `k`. */
  ghost predicate ColumnExact(g: Graph, net: Net, r: RouterId, n: RouterId, k: nat)
    requires r in net
  {
    forall d, c: nat :: c < k && c < COST_INFINITY ==> ExactAt(g, net, r, d, n, c)
  }

  /** What an advertisement of a network exact below `k` offers is exact below `k + 1`. */
  lemma OfferExact(g: Graph, src: Net, k: nat, r: RouterId, n: RouterId, adv: seq<AdvEntry>, d: RouterId, c: nat)
    requires ValidGraph(g) && NetOk(g, src) && ExactBelow(g, src, k) && Link(g, r, n) && IsAdvertOf(src[n], adv)
    requires c < k + 1 && c < COST_INFINITY
    ensures LastOffer(r, adv, d) == c <==> ShortestWalk(g, r, n, d, c)
    ensures 1 <= LastOffer(r, adv, d) <= COST_INFINITY
  {
    hide HasWalk, HasWalkAvoiding, IsAdvertOf, ExactBelow, IsLeastExcept, LastOffer;
    NetTable(g, src, n);
    var m := OfferIsLeastExcept(src[n], adv, r, d);
    WalkZero(g, r, n, d);
    if c > 0 {
      LeastIsShortest(g, src, k, r, d, n, m, c - 1);
      ShortestStep(g, r, n, d, c);
    }
  }

  lemma DeliveryOk(g: Graph, src: Net, r: RouterId, n: RouterId, adv: seq<AdvEntry>, t: Table)
    requires ValidGraph(g) && NetOk(g, src) && TableOk(g, r, t) && Link(g, r, n) && IsAdvertOf(src[n], adv)
    ensures TableOk(g, r, Updated(t, r, n, adv))
  {
    hide HasWalk, IsAdvertOf, LastOffer, Updated, Cost, WellFormed;
    ExactAtStart(g, src);
    UpdatedCosts(t, r, n, adv);
    forall d ensures 1 <= LastOffer(r, adv, d) {
      OfferExact(g, src, 1, r, n, adv, d, 0);
    }
  }

  /** After a delivery the column of the sender is exact one hop further, and the others are as before. */
  lemma DeliveryExact(g: Graph, src: Net, k: nat, net: Net, r: RouterId, n: RouterId, adv: seq<AdvEntry>)
    requires ValidGraph(g) && NetOk(g, src) && ExactBelow(g, src, k) && NetOk(g, net)
    requires Link(g, r, n) && IsAdvertOf(src[n], adv)
    ensures var net' := net[r := Updated(net[r], r, n, adv)];
      && NetOk(g, net') && ColumnExact(g, net', r, n, k + 1)
      && forall x, h, j: nat :: x in g.nodes && (x != r || h != n) ==>
        (ColumnExact(g, net', x, h, j) <==> ColumnExact(g, net, x, h, j))
  {
    hide HasWalk, IsAdvertOf, LastOffer, Updated, Cost, ExactBelow, TableOk, ShortestWalk;
    var net' := net[r := Updated(net[r], r, n, adv)];
    NetTable(g, net, r);
    DeliveryOk(g, src, r, n, adv, net[r]);
    assert WellFormed(net[r]) by { TableFormed(g, r, net[r]); }
    UpdatedCosts(net[r], r, n, adv);
    forall d, c: nat | c < k + 1 && c < COST_INFINITY ensures ExactAt(g, net', r, d, n, c) {
      OfferExact(g, src, k, r, n, adv, d, c);
    }
    forall x, h, j: nat | x in g.nodes && (x != r || h != n) ensures ColumnExact(g, net', x, h, j) <==> ColumnExact(g, net, x, h, j) {
      ColumnSame(g, net, net', x, h, j);
    }
  }

  lemma ColumnSame(g: Graph, net: Net, net': Net, x: RouterId, h: RouterId, j: nat)
    requires x in net && x in net' && forall d :: Cost(net[x], d, h) == Cost(net'[x], d, h)
    ensures ColumnExact(g, net', x, h, j) <==> ColumnExact(g, net, x, h, j)
  {
    hide ShortestWalk, Cost;
    forall d, c: nat ensures ExactAt(g, net, x, d, h, c) <==> ExactAt(g, net', x, d, h, c) {
    }
  }

  lemma ByColumns(g: Graph, net: Net, k: nat)
    requires net.Keys == g.nodes
    ensures ExactBelow(g, net, k) <==> forall r, n :: r in g.nodes ==> ColumnExact(g, net, r, n, k)
  {
    hide ExactAt;
    if forall r, n :: r in g.nodes ==> ColumnExact(g, net, r, n, k) {
      forall r, d, h, c: nat | r in g.nodes && c < k && c < COST_INFINITY ensures ExactAt(g, net, r, d, h, c) {
        assert ColumnExact(g, net, r, h, k);
      }
    }
  }

  /** Columns of routers that are no neighbours are exact at any time. */
  lemma OtherColumn(g: Graph, net: Net, r: RouterId, n: RouterId, k: nat)
    requires ValidGraph(g) && NetOk(g, net) && r in g.nodes && !Link(g, r, n)
    ensures ColumnExact(g, net, r, n, k)
  {
    hide HasWalk;
    NetTable(g, net, r);
    forall d, c: nat | c < k && c < COST_INFINITY ensures ExactAt(g, net, r, d, n, c) {
      WalkZero(g, r, n, d);
      if c > 0 {
        WalkStep(g, r, n, d, c);
      }
    }
  }

  // ----- One epoch -----

  /** During an epoch: everything is exact below `k`, and what has arrived one hop further. */
  ghost predicate Midway(g: Graph, es: seq<Event>, a: nat, i: nat, net: Net, k: nat) {
    && NetOk(g, net) && ExactBelow(g, net, k)
    && forall r, n :: Link(g, r, n) && r in net && DeliveredIn(es, a, i, r, n) ==> ColumnExact(g, net, r, n, k + 1)
  }

  lemma DeliveredStep(es: seq<Event>, a: nat, i: nat, r: RouterId, n: RouterId)
    requires a <= i < |es|
    ensures DeliveredIn(es, a, i + 1, r, n) <==> DeliveredIn(es, a, i, r, n) || (es[i].Deliver? && es[i].router == r && es[i].from == n)
  {
  }

  /** Where a fresh advertisement comes from. */
  lemma {:induction false} FreshSource(g: Graph, ws: seq<World>, es: seq<Event>, a: nat, i: nat)
    requires IsRunOf(g, ws, es) && a <= i < |es| && es[i].Deliver? && PublishedIn(es, a, i, es[i].from, es[i].adv)
    ensures exists j :: a <= j < i && es[i].from in g.nodes && IsAdvertOf(ws[j].net[es[i].from], es[i].adv)
  {
    hide IsAdvertOf, NetOk;
    var j :| a <= j < i && j < |es| && es[j] == Publish(es[i].from, es[i].adv);
    assert Step(g, ws[j], es[j], ws[j + 1]);
  }

  lemma {:induction false} EpochMidway(g: Graph, ws: seq<World>, es: seq<Event>, a: nat, i: nat, k: nat)
    requires IsRunOf(g, ws, es) && a <= i <= |es| && IsFresh(es, a, i)
    requires NetOk(g, ws[a].net) && ExactBelow(g, ws[a].net, k)
    ensures Midway(g, es, a, i, ws[i].net, k)
    decreases i
  {
    hide NetOk, ExactBelow, ColumnExact, Step, PublishedIn;
    if i == a {
      forall r, n ensures !DeliveredIn(es, a, i, r, n) {
      }
    } else {
      forall j | a <= j < i ensures Midway(g, es, a, j, ws[j].net, k) {
        EpochMidway(g, ws, es, a, j, k);
      }
      EpochStep(g, ws, es, a, i - 1, k);
    }
  }

  lemma EpochStep(g: Graph, ws: seq<World>, es: seq<Event>, a: nat, i: nat, k: nat)
    requires IsRunOf(g, ws, es) && a <= i < |es| && IsFresh(es, a, i + 1)
    requires forall j :: a <= j <= i ==> Midway(g, es, a, j, ws[j].net, k)
    ensures Midway(g, es, a, i + 1, ws[i + 1].net, k)
  {
    hide NetOk, ExactBelow, ColumnExact, IsAdvertOf, DeliveredIn, PublishedIn, Updated;
    assert Step(g, ws[i], es[i], ws[i + 1]);
    assert Midway(g, es, a, i, ws[i].net, k);
    forall r, n ensures DeliveredIn(es, a, i + 1, r, n)
      <==> (DeliveredIn(es, a, i, r, n) || (es[i].Deliver? && es[i].router == r && es[i].from == n)) {
      DeliveredStep(es, a, i, r, n);
    }
    if es[i].Deliver? {
      var r, n, adv := es[i].router, es[i].from, es[i].adv;
      FreshSource(g, ws, es, a, i);
      var j :| a <= j < i && n in g.nodes && IsAdvertOf(ws[j].net[n], adv);
      assert Midway(g, es, a, j, ws[j].net, k);
      assert r in g.nodes && n in g.nodes;
      DeliveryMidway(g, es, a, i, ws[j].net, ws[i].net, r, n, adv, k);
    }
  }

  lemma DeliveryMidway(g: Graph, es: seq<Event>, a: nat, i: nat, src: Net, net: Net, r: RouterId, n: RouterId, adv: seq<AdvEntry>, k: nat)
    requires ValidGraph(g) && NetOk(g, src) && ExactBelow(g, src, k) && Link(g, r, n) && n in src && IsAdvertOf(src[n], adv)
    requires Midway(g, es, a, i, net, k) && r in net
    requires i < |es| && es[i] == Deliver(r, n, adv)
    requires forall x, y :: DeliveredIn(es, a, i + 1, x, y) <==> DeliveredIn(es, a, i, x, y) || (x == r && y == n)
    ensures Midway(g, es, a, i + 1, net[r := Updated(net[r], r, n, adv)], k)
  {
    hide ExactBelow, ColumnExact, IsAdvertOf, DeliveredIn, Updated, TableOk;
    var net' := net[r := Updated(net[r], r, n, adv)];
    DeliveryExact(g, src, k, net, r, n, adv);
    ByColumns(g, net, k);
    ByColumns(g, net', k);
    assert ColumnExact(g, net', r, n, k) by { ColumnWeaker(g, net', r, n, k); }
    forall x, y | x in g.nodes ensures ColumnExact(g, net', x, y, k) {
      assert x != r || y != n ==> (ColumnExact(g, net', x, y, k) <==> ColumnExact(g, net, x, y, k));
    }
    forall x, y | Link(g, x, y) && x in net' && DeliveredIn(es, a, i + 1, x, y) ensures ColumnExact(g, net', x, y, k + 1) {
      assert x != r || y != n ==> (ColumnExact(g, net', x, y, k + 1) <==> ColumnExact(g, net, x, y, k + 1));
    }
  }

  lemma ColumnWeaker(g: Graph, net: Net, r: RouterId, n: RouterId, k: nat)
    requires r in net && ColumnExact(g, net, r, n, k + 1)
    ensures ColumnExact(g, net, r, n, k)
  {
  }

  /** An epoch extends exactness by one hop. */
  lemma EpochExtendsExactness(g: Graph, ws: seq<World>, es: seq<Event>, a: nat, b: nat, k: nat)
    requires IsRunOf(g, ws, es) && IsEpoch(g, es, a, b)
    requires NetOk(g, ws[a].net) && ExactBelow(g, ws[a].net, k)
    ensures NetOk(g, ws[b].net) && ExactBelow(g, ws[b].net, k + 1)
  {
    hide NetOk, ExactBelow, ColumnExact, IsFresh, DeliveredIn;
    EpochMidway(g, ws, es, a, b, k);
    var net, next := ws[b].net, k + 1;
    assert net.Keys == g.nodes;
    forall r, n | r in g.nodes ensures ColumnExact(g, net, r, n, next) {
      if Link(g, r, n) {
        assert DeliveredIn(es, a, b, r, n);
      } else {
        OtherColumn(g, net, r, n, next);
      }
    }
    ByColumns(g, net, next);
  }

  // ----- Convergence -----

  lemma {:induction false} EpochsAreExact(g: Graph, ws: seq<World>, es: seq<Event>, marks: seq<nat>, e: nat)
    requires IsRunOf(g, ws, es) && InEpochs(g, es, marks) && e < |marks|
    ensures marks[e] < |ws| && NetOk(g, ws[marks[e]].net) && ExactBelow(g, ws[marks[e]].net, e + 1)
  {
    hide NetOk, ExactBelow;
    if e == 0 {
      ExactAtStart(g, ws[0].net);
    } else {
      EpochsAreExact(g, ws, es, marks, e - 1);
      assert IsEpoch(g, es, marks[e - 1], marks[e - 1 + 1]);
      EpochExtendsExactness(g, ws, es, marks[e - 1], marks[e], e);
    }
  }

  /** Whatever the tables held before, fifteen epochs later every cost is exact. */
  lemma FairRunConverges(g: Graph, ws: seq<World>, es: seq<Event>, marks: seq<nat>, e: nat)
    requires IsRunOf(g, ws, es) && InEpochs(g, es, marks) && 15 <= e < |marks|
    ensures marks[e] < |ws| && Converged(g, ws[marks[e]].net)
  {
    hide NetOk, ExactBelow;
    EpochsAreExact(g, ws, es, marks, e);
    assert ExactBelow(g, ws[marks[e]].net, COST_INFINITY) by { ExactWeaker(g, ws[marks[e]].net, e + 1); }
  }

  lemma ExactWeaker(g: Graph, net: Net, k: nat)
    requires net.Keys == g.nodes && ExactBelow(g, net, k) && k >= COST_INFINITY
    ensures ExactBelow(g, net, COST_INFINITY)
  {
  }

  /** And stays exact while fresh advertisements keep arriving, fairly or not. */
  lemma StaysConverged(g: Graph, ws: seq<World>, es: seq<Event>, a: nat, i: nat)
    requires IsRunOf(g, ws, es) && a <= i <= |es| && IsFresh(es, a, i) && Converged(g, ws[a].net)
    ensures Converged(g, ws[i].net)
  {
    EpochMidway(g, ws, es, a, i, COST_INFINITY);
  }

  /** Recovery without rounds: after any asynchronous run, links lost and stale routes included,
      fifteen epochs on the links that are left restore exact routes for them. */
  lemma RecoversFairly(g: Graph, past: seq<World>, events: seq<Event>, now: Graph, ws: seq<World>, es: seq<Event>, marks: seq<nat>, e: nat)
    requires IsAsyncRun(g, past, events) && Settled(g, now, past[|past| - 1].net)
    requires IsStepped(now, ws, es) && ws[0].net == past[|past| - 1].net && InEpochs(now, es, marks) && 15 <= e < |marks|
    ensures marks[e] < |ws| && Converged(now, ws[marks[e]].net)
  {
    hide NetOk, ExactBelow, IsStepped, InEpochs;
    SettledOk(g, past, events, now);
    FairRunConverges(now, ws, es, marks, e);
  }
}
