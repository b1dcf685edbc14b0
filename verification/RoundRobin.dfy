/** Round robin over a list of clients: serve the first one with work from a starting point on, and
    start right after it the next time. */
module RoundRobin {

  /** The position `k` turns after `start` in a cycle of `n`. */
  function TurnIndex(start: nat, k: nat, n: nat): nat
    requires start < n && k < n
  {
    if start + k < n then start + k else start + k - n
  }

  /** How many turns from position `start` to position `i`. */
  function Turns(start: nat, i: nat, n: nat): nat
    requires start < n && i < n
  {
    if i >= start then i - start else i + n - start
  }

  /** The position after `i`. */
  function After(i: nat, n: nat): nat
    requires i < n
  {
    if i + 1 == n then 0 else i + 1
  }

  lemma TurnsBack(start: nat, k: nat, i: nat, n: nat)
    requires start < n && k < n && i < n
    ensures TurnIndex(start, k, n) < n && Turns(start, i, n) < n
    ensures TurnIndex(start, Turns(start, i, n), n) == i && Turns(start, TurnIndex(start, k, n), n) == k
  {
  }

  /** Moving the start past the k-th turn brings everyone further on nearer, and the others round. */
  lemma TurnsAfter(start: nat, k: nat, i: nat, n: nat)
    requires start < n && k < n && i < n
    ensures var next, turns := After(TurnIndex(start, k, n), n), Turns(start, i, n);
      Turns(next, i, n) == if turns > k then turns - (k + 1) else turns + n - (k + 1)
  {
  }

  predicate Distinct<T(==)>(s: seq<T>) {
    forall i, j :: 0 <= i < j < |s| ==> s[i] != s[j]
  }

  /** The k-th client is the first with work. */
  predicate IsNext<T(==)>(clients: seq<T>, start: nat, work: set<T>, k: nat) {
    && start < |clients| && k < |clients| && clients[TurnIndex(start, k, |clients|)] in work
    && forall j: nat :: j < k ==> clients[TurnIndex(start, j, |clients|)] !in work
  }

  /** `x` was served, and `p` not since. */
  ghost predicate ServedSince<T>(order: seq<T>, p: T, x: T) {
    exists c :: 0 <= c < |order| && order[c] == x && forall d :: c < d < |order| ==> order[d] != p
  }

  lemma ServedStep<T>(order: seq<T>, s: T, p: T, x: T)
    requires x != p
    ensures ServedSince(order + [s], p, x) <==> x == s || (p != s && ServedSince(order, p, x))
  {
    var more := order + [s];
    assert more[|order|] == s;
    if p != s && ServedSince(order, p, x) {
      var c :| 0 <= c < |order| && order[c] == x && forall d :: c < d < |order| ==> order[d] != p;
      assert more[c] == x;
    }
    if ServedSince(more, p, x) && x != s {
      var c :| 0 <= c < |more| && more[c] == x && forall d :: c < d < |more| ==> more[d] != p;
      assert order[c] == x && more[|order|] != p;
      forall d | c < d < |order| ensures order[d] != p { assert more[d] == order[d]; }
    }
  }

  /** The client at `j`, if it has work and has waited since the one at `i` was served, has its turn
      before that one. */
  ghost predicate AheadAt<T>(clients: seq<T>, start: nat, work: set<T>, order: seq<T>, i: nat, j: nat)
    requires start < |clients| && i < |clients| && j < |clients|
  {
    i != j && clients[i] in order && clients[j] in work && !ServedSince(order, clients[i], clients[j]) ==>
      Turns(start, j, |clients|) < Turns(start, i, |clients|)
  }

  ghost predicate Ahead<T>(clients: seq<T>, start: nat, work: set<T>, order: seq<T>) {
    start < |clients| && forall i: nat, j: nat :: i < |clients| && j < |clients| ==> AheadAt(clients, start, work, order, i, j)
  }

  /** Between two services of one client, every other that still has work was served. */
  ghost predicate TakeTurns<T>(order: seq<T>, work: set<T>) {
    forall a, b, x :: 0 <= a < b < |order| && order[a] == order[b] != x && x in work ==> Between(order, a, b, x)
  }

  ghost predicate Between<T>(order: seq<T>, a: nat, b: nat, x: T)
    requires b <= |order|
  {
    exists c :: a < c < b && order[c] == x
  }

  lemma FurtherOn<T>(clients: seq<T>, start: nat, work: set<T>, k: nat, j: nat)
    requires IsNext(clients, start, work, k) && j < |clients| && clients[j] in work
    requires clients[j] != clients[TurnIndex(start, k, |clients|)]
    ensures Turns(start, j, |clients|) > k
  {
    hide Turns, TurnIndex;
    TurnsBack(start, k, j, |clients|);
  }

  lemma AheadStep<T>(clients: seq<T>, start: nat, work: set<T>, k: nat, order: seq<T>, less: set<T>, i: nat, j: nat)
    requires IsNext(clients, start, work, k) && Distinct(clients) && less <= work && i < |clients| && j < |clients|
    requires AheadAt(clients, start, work, order, i, j)
    ensures var at := TurnIndex(start, k, |clients|);
      AheadAt(clients, After(at, |clients|), less, order + [clients[at]], i, j)
  {
    hide ServedSince, Turns;
    var n, at := |clients|, TurnIndex(start, k, |clients|);
    if i != j && clients[j] in less {
      assert clients[i] != clients[j];
      ServedStep(order, clients[at], clients[i], clients[j]);
      TurnsAfter(start, k, i, n);
      TurnsAfter(start, k, j, n);
      TurnsBack(start, k, i, n);
      TurnsBack(start, k, j, n);
      assert clients[i] == clients[at] ==> i == at;
      if clients[j] != clients[at] {
        FurtherOn(clients, start, work, k, j);
      }
    }
  }

  lemma ServedBetween<T>(clients: seq<T>, start: nat, work: set<T>, k: nat, order: seq<T>, x: T)
    requires IsNext(clients, start, work, k) && Ahead(clients, start, work, order)
    requires var p := clients[TurnIndex(start, k, |clients|)]; p in order && x != p && x in work && x in clients
    ensures ServedSince(order, clients[TurnIndex(start, k, |clients|)], x)
  {
    hide ServedSince, Turns;
    var at := TurnIndex(start, k, |clients|);
    var j :| 0 <= j < |clients| && clients[j] == x;
    TurnsBack(start, k, j, |clients|);
    FurtherOn(clients, start, work, k, j);
    assert AheadAt(clients, start, work, order, at, j);
  }

  /** One service. */
  lemma Serve<T>(clients: seq<T>, start: nat, work: set<T>, k: nat, order: seq<T>, less: set<T>)
    requires IsNext(clients, start, work, k) && Distinct(clients) && less <= work
    requires Ahead(clients, start, work, order) && TakeTurns(order, work) && forall x :: x in work ==> x in clients
    ensures var at := TurnIndex(start, k, |clients|);
      Ahead(clients, After(at, |clients|), less, order + [clients[at]]) && TakeTurns(order + [clients[at]], less)
  {
    hide ServedSince, IsNext, AheadAt, Between;
    assert start < |clients| && k < |clients| by { NextBounds(clients, start, work, k); }
    var at := TurnIndex(start, k, |clients|);
    var p, more := clients[at], order + [clients[at]];
    forall i: nat, j: nat | i < |clients| && j < |clients| ensures AheadAt(clients, After(at, |clients|), less, more, i, j) {
      AheadStep(clients, start, work, k, order, less, i, j);
    }
    forall a, b, x | 0 <= a < b < |more| && more[a] == more[b] != x && x in less ensures Between(more, a, b, x) {
      if b < |order| {
        assert order[a] == order[b] && Between(order, a, b, x);
        BetweenMore(order, p, a, b, x);
      } else {
        assert order[a] == p;
        ServedBetween(clients, start, work, k, order, x);
        SinceIsBetween(order, p, a, x);
      }
    }
  }

  lemma NextBounds<T>(clients: seq<T>, start: nat, work: set<T>, k: nat)
    requires IsNext(clients, start, work, k)
    ensures start < |clients| && k < |clients|
  {
  }

  lemma BetweenMore<T>(order: seq<T>, p: T, a: nat, b: nat, x: T)
    requires b <= |order| && Between(order, a, b, x)
    ensures Between(order + [p], a, b, x)
  {
    var c :| a < c < b && order[c] == x;
    assert (order + [p])[c] == x;
  }

  lemma SinceIsBetween<T>(order: seq<T>, p: T, a: nat, x: T)
    requires a < |order| && order[a] == p != x && ServedSince(order, p, x)
    ensures Between(order + [p], a, |order|, x)
  {
    var c :| 0 <= c < |order| && order[c] == x && forall d :: c < d < |order| ==> order[d] != p;
    assert (order + [p])[c] == x && c > a;
  }

  lemma NobodyServed<T>(clients: seq<T>, start: nat, work: set<T>)
    requires start < |clients|
    ensures Ahead(clients, start, work, []) && TakeTurns([], work)
  {
  }
}
