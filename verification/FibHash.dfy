/** The hashed FIB with virtual nodes at depth m (fw/table/fib-strategy-hashtable.go). */
module FibHash {
  import opened NdnName
  import opened Wrappers
  import opened FibSpec

  /** The virtual tables cover the real one: the names filed under each virtual name are exactly the
      real names of length at least m below it, and its depth bounds their lengths. The depth may be
      too large, and virtual names may linger after their last real name. */
  ghost predicate VirtOk(m: nat, table: map<Name, Entry>, virt: map<Name, nat>, names: map<Name, map<Name, nat>>) {
    && (forall n :: n in table && |n| >= m ==> n[..m] in names && n in names[n[..m]])
    && (forall v, n :: v in names && n in names[v] ==> n in table && |n| >= m && n[..m] == v && names[v][n] == |n|)
    && (forall v :: v in names ==> v in virt && names[v] != map[])
    && (forall v, n :: v in names && n in names[v] && v in virt ==> |n| <= virt[v])
  }

  lemma DepthCovers(m: nat, table: map<Name, Entry>, virt: map<Name, nat>, names: map<Name, map<Name, nat>>, name: Name, j: nat)
    requires VirtOk(m, table, virt, names) && m < j <= |name| && name[..j] in table
    ensures name[..m] in virt && j <= virt[name[..m]]
  {
    assert name[..j][..m] == name[..m];
  }

  /** What is filed under the virtual name after an insertion. */
  function Filed(m: nat, names: map<Name, map<Name, nat>>, n: Name): map<Name, map<Name, nat>>
    requires |n| >= m
  {
    names[n[..m] := (if n[..m] in names then names[n[..m]] else map[])[n := |n|]]
  }

  lemma FiledOk(m: nat, table: map<Name, Entry>, virt: map<Name, nat>, names: map<Name, map<Name, nat>>, n: Name, e: Entry, md: nat)
    requires VirtOk(m, table, virt, names) && |n| >= m
    requires md >= |n| && (n[..m] in virt ==> md >= virt[n[..m]])
    ensures VirtOk(m, table[n := e], virt[n[..m] := md], Filed(m, names, n))
  {
    var v, names' := n[..m], Filed(m, names, n);
    assert n in names'[v];
    forall w, x | w in names' && x in names'[w]
      ensures x in table[n := e] && |x| >= m && x[..m] == w && names'[w][x] == |x|
    {
    }
  }

  lemma ShortOk(m: nat, table: map<Name, Entry>, virt: map<Name, nat>, names: map<Name, map<Name, nat>>, n: Name, e: Entry)
    requires VirtOk(m, table, virt, names) && (|n| < m || n in table)
    ensures VirtOk(m, table[n := e], virt, names)
    ensures |n| < m ==> VirtOk(m, table - {n}, virt, names)
  {
  }

  /** What stays filed after a removal. */
  function Unfiled(m: nat, names: map<Name, map<Name, nat>>, n: Name): map<Name, map<Name, nat>>
    requires |n| >= m && n[..m] in names
  {
    var rest := names[n[..m]] - {n};
    if rest == map[] then names - {n[..m]} else names[n[..m] := rest]
  }

  lemma UnfiledOk(m: nat, table: map<Name, Entry>, virt: map<Name, nat>, names: map<Name, map<Name, nat>>, n: Name)
    requires VirtOk(m, table, virt, names) && |n| >= m && n in table
    ensures n[..m] in virt && n[..m] in names && n in names[n[..m]]
    ensures VirtOk(m, table - {n}, virt, Unfiled(m, names, n))
  {
    var v := n[..m];
    assert v in virt && v in names && n in names[v];
    var names', rest := Unfiled(m, names, n), names[v] - {n};
    assert forall w :: w in names' <==> w in names && (w == v ==> rest != map[]);
    assert forall w :: w in names' ==> names'[w] == if w == v then rest else names[w];
    hide Unfiled;
    forall x | x in table - {n} && |x| >= m ensures x[..m] in names' && x in names'[x[..m]] {
      if x[..m] == v {
        assert x in rest;
      }
    }
  }

  lemma VirtChangeOk(m: nat, table: map<Name, Entry>, virt: map<Name, nat>, names: map<Name, map<Name, nat>>, v: Name, md: nat)
    requires VirtOk(m, table, virt, names) && v in virt && md >= virt[v]
    ensures v !in names ==> VirtOk(m, table, virt - {v}, names)
    ensures VirtOk(m, table, virt[v := md], names)
  {
  }

  /** The largest of the depth and the lengths left, as the loop of pruneTables computes it. */
  method Deepest(md: nat, lengths: map<Name, nat>) returns (r: nat)
    ensures r >= md && forall n :: n in lengths ==> lengths[n] <= r
  {
    r := md;
    var todo := lengths.Keys;
    while todo != {}
      invariant todo <= lengths.Keys && r >= md
      invariant forall n :: n in lengths && n !in todo ==> lengths[n] <= r
      decreases todo
    {
      var n :| n in todo;
      if lengths[n] > r {
        r := lengths[n];
      }
      todo := todo - {n};
    }
  }

  class HashFib {
    const m: nat
    var realTable: map<Name, Entry>
    var virtTable: map<Name, nat>
    var virtTableNames: map<Name, map<Name, nat>>

    ghost predicate Valid()
      reads this
    {
      m > 0 && AllDistinct(realTable) && VirtOk(m, realTable, virtTable, virtTableNames)
    }

    function Meaning(): Table
      reads this
    {
      View(realTable)
    }

    constructor (m: nat, defaultStrategy: Name)
      requires m > 0
      ensures Valid() && Meaning() == Table(map[], map[[] := defaultStrategy])
    {
      this.m := m;
      realTable, virtTable, virtTableNames := map[[] := Entry([], Some(defaultStrategy))], map[], map[];
    }

    /** findLongestPrefixMatchEnc */
    method FindLongest(name: Name) returns (r: Option<Name>)
      requires Valid()
      ensures r.Some? ==> |r.value| <= |name| && r.value == name[..|r.value|] && Longest(realTable, name, |r.value|)
      ensures r.None? ==> forall k :: 0 <= k <= |name| ==> name[..k] !in realTable
    {
      var top := |name|;
      if |name| > m {
        top := m;
        var deep := m;
        if name[..m] in virtTable {
          deep := if virtTable[name[..m]] < |name| then virtTable[name[..m]] else |name|;
        }
        var pfx := deep;
        forall j | m < j <= |name| && name[..j] in realTable ensures j <= deep {
          DepthCovers(m, realTable, virtTable, virtTableNames, name, j);
        }
        while pfx > m
          invariant pfx <= |name| && forall j :: m < j <= |name| && name[..j] in realTable ==> j <= pfx
        {
          if name[..pfx] in realTable {
            return Some(name[..pfx]);
          }
          pfx := pfx - 1;
        }
      }
      var pfx := top;
      while pfx >= 0
        invariant -1 <= pfx <= top && forall j :: pfx < j <= |name| ==> name[..j] !in realTable
      {
        if name[..pfx] in realTable {
          return Some(name[..pfx]);
        }
        pfx := pfx - 1;
      }
      return None;
    }

    /** insertEntryEnc */
    method InsertEntry(name: Name)
      requires Valid()
      modifies this
      ensures Valid()
      ensures realTable == old(realTable)[name := At(old(realTable), name)]
    {
      hide VirtOk;
      ghost var was := realTable;
      if name !in realTable {
        realTable := realTable[name := EMPTY];
      }
      assert realTable == was[name := At(was, name)];
      if |name| < m {
        ShortOk(m, was, virtTable, virtTableNames, name, At(was, name));
      } else {
        var v := name[..m];
        var md := if v in virtTable && virtTable[v] > |name| then virtTable[v] else |name|;
        FiledOk(m, was, virtTable, virtTableNames, name, At(was, name), md);
        virtTable := virtTable[v := md];
        virtTableNames := Filed(m, virtTableNames, name);
      }
    }

    /** pruneTables */
    method PruneTables(name: Name)
      requires Valid() && name in realTable
      modifies this
      ensures Valid()
      ensures realTable == if old(realTable)[name] == EMPTY then old(realTable) - {name} else old(realTable)
    {
      hide VirtOk;
      if realTable[name].hops != [] || realTable[name].strategy != None {
        return;
      }
      ghost var was := realTable;
      realTable := realTable - {name};
      if |name| < m {
        ShortOk(m, was, virtTable, virtTableNames, name, EMPTY);
      } else {
        UnfiledOk(m, was, virtTable, virtTableNames, name);
        var v := name[..m];
        if v in virtTable && v in virtTableNames && name in virtTableNames[v] {
          virtTableNames := Unfiled(m, virtTableNames, name);
        }
        VirtChangeOk(m, realTable, virtTable, virtTableNames, v, virtTable[v]);
        if v in virtTable && |name| == virtTable[v] {
          if v !in virtTableNames {
            virtTable := virtTable - {v};
          } else {
            var md := Deepest(virtTable[v], virtTableNames[v]);
            VirtChangeOk(m, realTable, virtTable, virtTableNames, v, md);
            virtTable := virtTable[v := md];
          }
        }
      }
    }

    /** FindNextHopsEnc */
    method FindNextHops(name: Name) returns (r: seq<NextHop>)
      requires Valid()
      ensures FoundHops(Meaning(), name, r)
    {
      var e := FindLongest(name);
      if e == None {
        LookupIsLongest(Meaning().hops, name);
        return [];
      }
      var pfx := |e.value|;
      while pfx >= 0
        invariant -1 <= pfx <= |name| && forall j :: pfx < j <= |name| ==> name[..j] !in Meaning().hops
      {
        if name[..pfx] in realTable && realTable[name[..pfx]].hops != [] {
          LookupFrom(Meaning().hops, name, pfx);
          return realTable[name[..pfx]].hops;
        }
        pfx := pfx - 1;
      }
      LookupIsLongest(Meaning().hops, name);
      return [];
    }

    /** FindStrategyEnc */
    method FindStrategy(name: Name) returns (r: Option<Name>)
      requires Valid()
      ensures r == Lookup(Meaning().strategies, name)
    {
      var e := FindLongest(name);
      if e == None {
        LookupIsLongest(Meaning().strategies, name);
        return None;
      }
      var pfx := |e.value|;
      while pfx >= 0
        invariant -1 <= pfx <= |name| && forall j :: pfx < j <= |name| ==> name[..j] !in Meaning().strategies
      {
        if name[..pfx] in realTable && realTable[name[..pfx]].strategy != None {
          LookupFrom(Meaning().strategies, name, pfx);
          return realTable[name[..pfx]].strategy;
        }
        pfx := pfx - 1;
      }
      LookupIsLongest(Meaning().strategies, name);
      return None;
    }

    /** InsertNextHopEnc */
    method InsertNextHop(name: Name, face: FaceId, cost: nat)
      requires Valid()
      modifies this
      ensures Valid() && Meaning() == Apply(old(Meaning()), Insert(name, face, cost))
    {
      hide VirtOk, View;
      ghost var was := realTable;
      InsertEntry(name);
      var hops := SetHop(realTable[name].hops, face, cost);
      ShortOk(m, realTable, virtTable, virtTableNames, name, realTable[name].(hops := hops));
      realTable := realTable[name := realTable[name].(hops := hops)];
      assert realTable == was[name := At(was, name).(hops := hops)];
      ViewHops(was, name, hops);
      CostsEmpty(hops);
    }

    /** The end of every removal: the changed entry is stored and pruned if it holds nothing. */
    method Store(name: Name, e: Entry)
      requires Valid() && name in realTable && Distinct(e.hops)
      modifies this
      ensures Valid() && Meaning() == View(old(realTable)[name := e])
    {
      hide VirtOk, View;
      ghost var was := realTable;
      ShortOk(m, realTable, virtTable, virtTableNames, name, e);
      realTable := realTable[name := e];
      PruneTables(name);
      ViewIgnoresEmpty(realTable, was[name := e]);
    }

    /** ClearNextHopsEnc */
    method ClearNextHops(name: Name)
      requires Valid()
      modifies this
      ensures Valid() && Meaning() == Apply(old(Meaning()), Clear(name))
    {
      hide VirtOk;
      ViewHops(realTable, name, []);
      if name in realTable {
        Store(name, realTable[name].(hops := []));
      }
    }

    /** RemoveNextHopEnc: the last hop takes the place of the removed one. */
    method RemoveNextHop(name: Name, face: FaceId)
      requires Valid()
      modifies this
      ensures Valid() && Meaning() == Apply(old(Meaning()), Remove(name, face))
    {
      hide VirtOk, View;
      ghost var was := realTable;
      ViewHops(was, name, At(was, name).hops);
      if name !in realTable {
        assert was[name := EMPTY.(hops := [])] == was[name := EMPTY];
        ViewIgnoresEmpty(was, was[name := EMPTY]);
        return;
      }
      var hops := realTable[name].hops;
      CostsAt(hops);
      for i := 0 to |hops|
        invariant realTable == was && Valid()
        invariant forall j :: 0 <= j < i ==> hops[j].face != face
      {
        if hops[i].face == face {
          RemovedSwap(hops, i);
          ViewHops(was, name, Swapped(hops, i));
          Store(name, realTable[name].(hops := Swapped(hops, i)));
          return;
        }
      }
      assert CostsOf(hops) - {face} == CostsOf(hops);
      assert was[name := At(was, name).(hops := hops)] == was;
    }

    /** SetStrategyEnc */
    method SetStrategy(name: Name, strategy: Name)
      requires Valid()
      modifies this
      ensures Valid() && Meaning() == Apply(old(Meaning()), Update.SetStrategy(name, strategy))
    {
      hide VirtOk, View;
      ghost var was := realTable;
      InsertEntry(name);
      ShortOk(m, realTable, virtTable, virtTableNames, name, realTable[name].(strategy := Some(strategy)));
      realTable := realTable[name := realTable[name].(strategy := Some(strategy))];
      assert realTable == was[name := At(was, name).(strategy := Some(strategy))];
      ViewStrategy(was, name, Some(strategy));
    }

    /** UnSetStrategyEnc */
    method UnsetStrategy(name: Name)
      requires Valid()
      modifies this
      ensures Valid() && Meaning() == Apply(old(Meaning()), Update.UnsetStrategy(name))
    {
      hide VirtOk;
      ViewStrategy(realTable, name, None);
      if name in realTable {
        Store(name, realTable[name].(strategy := None));
      }
    }
  }

  /** Removal at `i` with the last hop moved there. */
  function Swapped(hops: seq<NextHop>, i: nat): seq<NextHop>
    requires i < |hops|
  {
    hops[i := hops[|hops| - 1]][..|hops| - 1]
  }

  lemma SwappedAt(hops: seq<NextHop>, i: nat)
    requires Distinct(hops) && i < |hops|
    ensures |Swapped(hops, i)| == |hops| - 1 && Distinct(Swapped(hops, i))
    ensures forall j :: 0 <= j < |hops| - 1 ==> Swapped(hops, i)[j] == hops[if j == i then |hops| - 1 else j]
  {
  }

  lemma RemovedSwap(hops: seq<NextHop>, i: nat)
    requires Distinct(hops) && i < |hops|
    ensures Distinct(Swapped(hops, i)) && CostsOf(Swapped(hops, i)) == CostsOf(hops) - {hops[i].face}
  {
    hide CostsOf, Swapped;
    var r, costs := Swapped(hops, i), CostsOf(hops) - {hops[i].face};
    CostsAt(hops);
    SwappedAt(hops, i);
    forall f: FaceId | f in costs ensures exists j :: 0 <= j < |r| && r[j].face == f {
      var j :| 0 <= j < |hops| && hops[j].face == f;
      var k := if j == |hops| - 1 then i else j;
      assert 0 <= k < |r| && r[k] == hops[if k == i then |hops| - 1 else k];
    }
    CostsAre(r, costs);
  }
}
