/** Name trees kept as maps from names to node contents: what fw/table/rib.go and
    fw/table/pit-cs-tree.go share, and the pruning of the latter. A node's children are the nodes one component longer. */
module NameTree {
  import opened NdnName

  ghost predicate HasParent<V>(nodes: map<Name, V>, n: Name) {
    n == [] || Parent(n) in nodes
  }

  /** The nodes form a tree under the root. */
  ghost predicate Closed<V>(nodes: map<Name, V>) {
    [] in nodes && forall n {:trigger HasParent(nodes, n)} :: n in nodes ==> HasParent(nodes, n)
  }

  /** What a node holds; missing nodes hold what empty ones do. */
  function Get<V>(nodes: map<Name, V>, n: Name, empty: V): V {
    if n in nodes then nodes[n] else empty
  }

  /** Names at or below a node. */
  function Below<V>(nodes: map<Name, V>, n: Name): set<Name> {
    set x | x in nodes && n <= x
  }

  function Children<V>(nodes: map<Name, V>, n: Name): set<Name> {
    set x | x in nodes && x != [] && Parent(x) == n
  }

  lemma ClosedRoot<V>(nodes: map<Name, V>)
    requires Closed(nodes)
    ensures [] in nodes
  {
  }

  lemma {:induction false} PrefixClosed<V>(nodes: map<Name, V>, x: Name, k: nat)
    requires Closed(nodes) && x in nodes && k <= |x|
    ensures x[..k] in nodes
    decreases |x|
  {
    if k == |x| {
      assert x[..k] == x;
    } else {
      assert HasParent(nodes, x);
      PrefixClosed(nodes, Parent(x), k);
      assert Parent(x)[..k] == x[..k];
    }
  }

  lemma BelowChild<V>(nodes: map<Name, V>, n: Name, child: Name)
    requires child in Children(nodes, n)
    ensures Below(nodes, child) < Below(nodes, n) || n !in nodes
    ensures n < child && |child| == |n| + 1
  {
    if n in nodes {
      assert n in Below(nodes, n) && n !in Below(nodes, child);
    }
  }

  lemma BelowShrinks<V>(a: map<Name, V>, b: map<Name, V>, n: Name, child: Name)
    requires b.Keys <= a.Keys && n in a && n < child
    ensures Below(b, child) < Below(a, n)
  {
    assert n in Below(a, n) && n !in Below(b, child);
  }

  lemma ChildrenNeedParent<V>(nodes: map<Name, V>, n: Name)
    requires Closed(nodes) && n !in nodes
    ensures Children(nodes, n) == {}
  {
    forall x | x in nodes && x != [] ensures Parent(x) != n {
      assert HasParent(nodes, x);
    }
  }

  // ----- Walking the subtree of a node child by child -----

  /** The node lies strictly below `n`, in the subtree of a child that is not waiting. */
  ghost predicate Done<V>(nodes: map<Name, V>, n: Name, x: Name, todo: set<Name>) {
    n < x && x in nodes && x[..|n| + 1] !in todo
  }

  lemma DoneSteps<V>(nodes: map<Name, V>, n: Name, x: Name, todo: set<Name>, child: Name)
    requires Closed(nodes) && (child in todo ==> child in Children(nodes, n))
    ensures !Done(nodes, n, x, Children(nodes, n))
    ensures child in todo ==> (Done(nodes, n, x, todo - {child}) <==> Done(nodes, n, x, todo) || (child <= x && x in nodes))
    ensures Done(nodes, n, x, {}) <==> n < x && x in nodes
  {
    if n < x && x in nodes {
      PrefixClosed(nodes, x, |n| + 1);
      assert Parent(x[..|n| + 1]) == n;
    }
    if child in todo {
      BelowChild(nodes, n, child);
      assert child <= x ==> x[..|n| + 1] == child;
    }
  }

  lemma ChildWaits<V>(nodes: map<Name, V>, n: Name, x: Name, todo: set<Name>, child: Name)
    requires child in todo && child in Children(nodes, n) && child <= x
    ensures !Done(nodes, n, x, todo) && x != n
  {
    assert x[..|n| + 1] == child;
  }

  // ----- Lookup -----

  /** findLongestPrefixEntryEnc */
  function FindLongest<V>(nodes: map<Name, V>, at: Name, name: Name): (r: Name)
    requires Closed(nodes) && at in nodes && at <= name
    ensures r <= name && Longest(nodes, name, |r|)
    decreases |name| - |at|
  {
    assert name[..|at|] == at;
    if |name| > |at| && name[..|at| + 1] in nodes then FindLongest(nodes, name[..|at| + 1], name)
    else
      DeadEnd(nodes, at, name);
      at
  }

  lemma DeadEnd<V>(nodes: map<Name, V>, at: Name, name: Name)
    requires Closed(nodes) && at <= name && (|name| > |at| ==> name[..|at| + 1] !in nodes)
    ensures forall j :: |at| < j <= |name| ==> name[..j] !in nodes
  {
    forall j | |at| < j <= |name| ensures name[..j] !in nodes {
      assert name[..j][..|at| + 1] == name[..|at| + 1];
      if name[..j] in nodes {
        PrefixClosed(nodes, name[..j], |at| + 1);
      }
    }
  }

  // ----- Growing and pruning -----

  ghost predicate Alive<V>(nodes: map<Name, V>, x: Name, empty: V) {
    x == [] || Get(nodes, x, empty) != empty || Children(nodes, x) != {}
  }

  /** No dead branches: every leaf but the root, and perhaps one exempt node, holds something. */
  ghost predicate Tidy<V>(nodes: map<Name, V>, exempt: Name, empty: V) {
    forall x {:trigger Alive(nodes, x, empty)} :: x in nodes && x != exempt ==> Alive(nodes, x, empty)
  }

  lemma AddedOk<V>(nodes: map<Name, V>, at: Name, child: Name, empty: V)
    requires Closed(nodes) && at in nodes && child !in nodes && child != [] && Parent(child) == at
    ensures Closed(nodes[child := empty])
  {
    var more := nodes[child := empty];
    forall x | x in more ensures HasParent(more, x) {
      assert x in nodes ==> HasParent(nodes, x);
    }
  }

  /** fillTreeToPrefixEnc: the missing prefixes are added, empty. */
  method Fill<V>(nodes0: map<Name, V>, name: Name, empty: V) returns (nodes: map<Name, V>)
    requires Closed(nodes0)
    ensures Closed(nodes) && name in nodes
    ensures forall x :: x in nodes <==> x in nodes0 || x <= name
    ensures forall x :: Get(nodes, x, empty) == Get(nodes0, x, empty)
  {
    hide Closed;
    nodes := nodes0;
    ClosedRoot(nodes0);
    var at := FindLongest(nodes0, [], name);
    assert name[..|at|] == at;
    forall x | x <= at ensures x in nodes0 {
      PrefixClosed(nodes0, at, |x|);
      assert at[..|x|] == x;
    }
    while |at| < |name|
      invariant Closed(nodes) && at <= name && at in nodes
      invariant forall j :: |at| < j <= |name| ==> name[..j] !in nodes
      invariant forall x :: x in nodes <==> x in nodes0 || x <= at
      invariant forall x :: Get(nodes, x, empty) == Get(nodes0, x, empty)
    {
      var child := name[..|at| + 1];
      assert Parent(child) == at;
      AddedOk(nodes, at, child, empty);
      nodes := nodes[child := empty];
      forall x ensures x in nodes <==> x in nodes0 || x <= child {
        assert x <= child <==> x <= at || x == child;
      }
      at := child;
    }
    assert at == name;
  }

  lemma TidyDone<V>(nodes: map<Name, V>, at: Name, empty: V)
    requires Alive(nodes, at, empty)
    ensures Tidy(nodes, at, empty) ==> Tidy(nodes, [], empty)
  {
    if Tidy(nodes, at, empty) {
      forall x | x in nodes && x != [] ensures Alive(nodes, x, empty) {
      }
    }
  }

  lemma RemovedOk<V>(nodes: map<Name, V>, at: Name, empty: V)
    requires Closed(nodes) && at in nodes && at != [] && Children(nodes, at) == {}
    ensures Closed(nodes - {at}) && Parent(at) in nodes - {at}
    ensures Tidy(nodes, at, empty) ==> Tidy(nodes - {at}, Parent(at), empty)
  {
    var less := nodes - {at};
    forall x | x in less ensures HasParent(less, x) {
      assert HasParent(nodes, x);
      assert x != [] && Parent(x) == at ==> x in Children(nodes, at);
    }
    assert HasParent(nodes, at);
    if Tidy(nodes, at, empty) {
      forall x | x in less && x != Parent(at) ensures Alive(less, x, empty) {
        assert Alive(nodes, x, empty);
        if Children(nodes, x) != {} {
          var y :| y in Children(nodes, x);
          assert y in Children(less, x);
        }
      }
    }
  }

  /** The prefixes of `n` longer than `k` are gone: they held nothing, and had no other children. */
  ghost predicate PrunedTo<V>(nodes0: map<Name, V>, nodes: map<Name, V>, n: Name, k: nat, empty: V) {
    && k <= |n| && n[..k] in nodes && Alive(nodes, n[..k], empty)
    && (forall x :: x in nodes <==> x in nodes0 && !(x <= n && k < |x|))
    && forall x :: x in nodes ==> nodes[x] == nodes0[x]
  }

  /** pruneIfEmpty of the PIT: empty leaves go, up to the first node that is alive. */
  method PruneIfEmpty<V(==)>(nodes0: map<Name, V>, n: Name, empty: V) returns (nodes: map<Name, V>)
    requires Closed(nodes0) && n in nodes0
    ensures Closed(nodes) && exists k: nat :: PrunedTo(nodes0, nodes, n, k, empty)
    ensures forall x :: Get(nodes, x, empty) == Get(nodes0, x, empty)
    ensures Tidy(nodes0, n, empty) ==> Tidy(nodes, [], empty)
  {
    hide Tidy, Closed, Alive;
    nodes := nodes0;
    var at := n;
    while at != [] && Children(nodes, at) == {} && nodes[at] == empty
      invariant Closed(nodes) && at in nodes && at <= n
      invariant forall x :: x in nodes <==> x in nodes0 && !(x <= n && |at| < |x|)
      invariant Tidy(nodes0, n, empty) ==> Tidy(nodes, at, empty)
      invariant forall x :: Get(nodes, x, empty) == Get(nodes0, x, empty)
      decreases |at|
    {
      RemovedOk(nodes, at, empty);
      forall x ensures x <= n && |x| == |at| <==> x == at {
      }
      nodes := nodes - {at};
      at := Parent(at);
    }
    assert Alive(nodes, at, empty) by { AliveAt(nodes, at, empty); }
    TidyDone(nodes, at, empty);
    assert n[..|at|] == at;
    forall x | x in nodes ensures nodes[x] == nodes0[x] {
      assert Get(nodes, x, empty) == Get(nodes0, x, empty);
    }
    assert PrunedTo(nodes0, nodes, n, |at|, empty);
  }

  lemma AliveAt<V>(nodes: map<Name, V>, at: Name, empty: V)
    requires at in nodes && (at == [] || Children(nodes, at) != {} || nodes[at] != empty)
    ensures Alive(nodes, at, empty)
  {
  }

  lemma ChangedOk<V>(nodes: map<Name, V>, n: Name, v: V)
    requires Closed(nodes) && n in nodes
    ensures Closed(nodes[n := v])
  {
    var more := nodes[n := v];
    forall x | x in more ensures HasParent(more, x) {
      assert HasParent(nodes, x);
    }
  }
}
