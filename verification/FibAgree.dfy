/** The two FIB tables are interchangeable, except for clearing a nil name. */
module FibAgree {
  import opened NdnName
  import opened Wrappers
  import opened FibSpec
  import FibHash
  import FibTree

  /** After any sequence of updates both tables mean the same, whatever the virtual depth. */
  method RunBoth(hash: FibHash.HashFib, tree: FibTree.TreeFib, updates: seq<Update>)
    requires hash.Valid() && tree.Valid() && hash.Meaning() == tree.Meaning()
    modifies hash, tree
    ensures hash.Valid() && tree.Valid()
    ensures hash.Meaning() == tree.Meaning() == Run(old(hash.Meaning()), updates)
  {
    hide Apply;
    assert updates[..0] == [];
    for i := 0 to |updates|
      invariant hash.Valid() && tree.Valid()
      invariant hash.Meaning() == tree.Meaning() == Run(old(hash.Meaning()), updates[..i])
    {
      assert updates[..i + 1][..i] == updates[..i];
      match updates[i]
      case Insert(n, f, c) => hash.InsertNextHop(n, f, c); tree.InsertNextHop(n, f, c);
      case Remove(n, f) => hash.RemoveNextHop(n, f); tree.RemoveNextHop(n, f);
      case Clear(n) => hash.ClearNextHops(n); tree.ClearNextHops(n, false);
      case SetStrategy(n, s) => hash.SetStrategy(n, s); tree.SetStrategy(n, s);
      case UnsetStrategy(n) => hash.UnsetStrategy(n); tree.UnsetStrategy(n);
    }
    assert updates[..|updates|] == updates;
  }

  /** Freshly built tables give the same answer to every query after any updates: the next hops
      (as face-to-cost maps) and the strategy of the longest prefix holding any. */
  method SameAnswers(m: nat, defaultStrategy: Name, updates: seq<Update>, name: Name)
    returns (hashHops: seq<NextHop>, treeHops: seq<NextHop>, hashStrategy: Option<Name>, treeStrategy: Option<Name>)
    requires m > 0
    ensures CostsOf(hashHops) == CostsOf(treeHops) && hashStrategy == treeStrategy
    ensures FoundHops(Run(Table(map[], map[[] := defaultStrategy]), updates), name, hashHops)
    ensures hashStrategy == Lookup(Run(Table(map[], map[[] := defaultStrategy]), updates).strategies, name)
  {
    var hash := new FibHash.HashFib(m, defaultStrategy);
    var tree := new FibTree.TreeFib(defaultStrategy);
    RunBoth(hash, tree, updates);
    hashHops := hash.FindNextHops(name);
    treeHops := tree.FindHops(name);
    hashStrategy := hash.FindStrategy(name);
    treeStrategy := tree.FindStrategyOf(name);
  }

  /** Clearing a nil name keeps the tables in step exactly when the root has no next hops. */
  method ClearNil(hash: FibHash.HashFib, tree: FibTree.TreeFib) returns (same: bool)
    requires hash.Valid() && tree.Valid() && hash.Meaning() == tree.Meaning()
    modifies hash, tree
    ensures hash.Valid() && tree.Valid()
    ensures hash.Meaning() == tree.Meaning() <==> [] !in old(tree.Meaning()).hops
    ensures same <==> hash.Meaning() == tree.Meaning()
  {
    hide Lookup, CostsOf;
    same := tree.nodes[[]].entry.hops == [];
    ghost var was := tree.Meaning();
    hash.ClearNextHops([]);
    tree.ClearNextHops([], true);
    assert [] !in hash.Meaning().hops && ([] !in was.hops ==> was.hops - {[]} == was.hops);
  }
}
