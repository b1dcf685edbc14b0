/** The PIT and the Content Store in one name tree (fw/table/pit-cs-tree.go). Nodes are kept in one map
    keyed by their name; PIT entries have an identity. */
module PitCs {
  import opened NdnName
  import opened Wrappers
  import opened NameTree
  import opened CsLru

  type EntryId = nat

  /** nameTreePitEntry; `serial` numbers the tokens issued, and a nil hint is the empty name. */
  datatype PitEntry = PitEntry(name: Name, canBePrefix: bool, mustBeFresh: bool, hint: Name, serial: nat)

  /** nameTreeCsEntry */
  datatype CsEntry = CsEntry(wire: Bytes, staleTime: int)

  /** pitCsTreeNode */
  datatype Node = Node(pit: seq<EntryId>, cs: Option<CsEntry>)

  type Nodes = map<Name, Node>
  type Entries = map<EntryId, PitEntry>

  const BARE := Node([], None)

  // ----- PIT entries in the tree -----

  predicate SameKey(e: PitEntry, canBePrefix: bool, mustBeFresh: bool, hint: Name) {
    e.canBePrefix == canBePrefix && e.mustBeFresh == mustBeFresh && e.hint == hint
  }

  function ListAt(nodes: Nodes, n: Name): seq<EntryId> {
    Get(nodes, n, BARE).pit
  }

  /** Each live entry is listed once, at the node that spells its name, and nothing else is listed. */
  ghost predicate Filed(nodes: Nodes, entries: Entries) {
    && (forall id :: id in entries ==> id in ListAt(nodes, entries[id].name))
    && (forall n, id :: id in ListAt(nodes, n) ==> id in entries && entries[id].name == n)
    && (forall n :: Unique(ListAt(nodes, n)))
  }

  /** One entry per name, CanBePrefix, MustBeFresh and forwarding hint. */
  ghost predicate OneEach(entries: Entries) {
    forall a, b :: a in entries && b in entries && a != b ==>
      !(entries[a].name == entries[b].name && SameKey(entries[a], entries[b].canBePrefix, entries[b].mustBeFresh, entries[b].hint))
  }

  lemma FiledSame(a: Nodes, b: Nodes, entries: Entries)
    requires Filed(a, entries) && forall n :: ListAt(a, n) == ListAt(b, n)
    ensures Filed(b, entries)
  {
  }

  lemma UniqueAppend(list: seq<EntryId>, id: EntryId)
    requires Unique(list) && id !in list
    ensures Unique(list + [id])
  {
  }

  lemma FiledAdd(nodes: Nodes, entries: Entries, id: EntryId, e: PitEntry)
    requires Filed(nodes, entries) && id !in entries && e.name in nodes
    ensures Filed(nodes[e.name := nodes[e.name].(pit := nodes[e.name].pit + [id])], entries[id := e])
  {
    hide Unique;
    var more, list, all := nodes[e.name := nodes[e.name].(pit := nodes[e.name].pit + [id])], ListAt(nodes, e.name), entries[id := e];
    assert forall n :: ListAt(more, n) == if n == e.name then list + [id] else ListAt(nodes, n);
    assert id !in list;
    UniqueAppend(list, id);
    forall x | x in all ensures x in ListAt(more, all[x].name) {
      assert x in entries ==> x in ListAt(nodes, entries[x].name);
    }
  }

  /** Removal at `i` with the last one moved there. */
  function Swapped(list: seq<EntryId>, i: nat): seq<EntryId>
    requires i < |list|
  {
    list[i := list[|list| - 1]][..|list| - 1]
  }

  lemma SwappedIn(list: seq<EntryId>, i: nat)
    requires Unique(list) && i < |list|
    ensures Unique(Swapped(list, i)) && forall x :: x in Swapped(list, i) <==> x in list && x != list[i]
  {
    var r := Swapped(list, i);
    forall x | x in list && x != list[i] ensures x in r {
      var j :| 0 <= j < |list| && list[j] == x;
      assert r[if j == |list| - 1 then i else j] == x;
    }
  }

  lemma FiledRemove(nodes: Nodes, entries: Entries, i: nat, id: EntryId)
    requires Filed(nodes, entries) && id in entries && entries[id].name in nodes
    requires var list := nodes[entries[id].name].pit; i < |list| && list[i] == id
    ensures var n := entries[id].name;
      Filed(nodes[n := nodes[n].(pit := Swapped(nodes[n].pit, i))], entries - {id})
  {
    hide Swapped, Unique, ListAt;
    var n := entries[id].name;
    var list := nodes[n].pit;
    var less, rest := nodes[n := nodes[n].(pit := Swapped(list, i))], entries - {id};
    ListAtSet(nodes, n, Swapped(list, i));
    SwappedIn(list, i);
    forall x, y | y in ListAt(less, x) ensures y in rest && rest[y].name == x {
      assert y in ListAt(nodes, x);
    }
    forall y | y in rest ensures y in ListAt(less, rest[y].name) {
      assert y in ListAt(nodes, entries[y].name);
    }
    forall x ensures Unique(ListAt(less, x)) {
      assert Unique(ListAt(nodes, x));
    }
  }

  lemma ListAtSet(nodes: Nodes, n: Name, list: seq<EntryId>)
    requires n in nodes
    ensures ListAt(nodes, n) == nodes[n].pit
    ensures forall x :: ListAt(nodes[n := nodes[n].(pit := list)], x) == if x == n then list else ListAt(nodes, x)
  {
  }

  // ----- Tokens -----

  const TOKEN_SLOTS: nat := 125000

  const TOKENS: nat := 0x1_0000_0000

  function Token(serial: nat): nat {
    serial % TOKENS
  }

  /** pitTokenIdx */
  function SlotOf(token: nat): (r: nat)
    ensures r < TOKEN_SLOTS
  {
    token % TOKEN_SLOTS
  }

  /** No later token has taken the slot. */
  ghost predicate Unclaimed(serial: nat, issued: nat) {
    forall s {:trigger Token(s)} :: serial < s <= issued ==> SlotOf(Token(s)) != SlotOf(Token(serial))
  }

  /** Every filled slot holds a live entry under its own token; an entry is in its slot exactly until
      a later token takes it. */
  ghost predicate TokensOk(tokens: seq<Option<EntryId>>, entries: Entries, issued: nat) {
    && |tokens| == TOKEN_SLOTS
    && (forall s :: 0 <= s < TOKEN_SLOTS && tokens[s].Some? ==>
      tokens[s].value in entries && SlotOf(Token(entries[tokens[s].value].serial)) == s)
    && (forall id :: id in entries ==> entries[id].serial <= issued)
    && (forall id :: id in entries ==>
      (tokens[SlotOf(Token(entries[id].serial))] == Some(id) <==> Unclaimed(entries[id].serial, issued)))
  }

  /** How many tokens after this one the 32-bit counter starts again from 0. */
  function UntilWrap(serial: nat): (w: nat)
    ensures 1 <= w <= TOKENS
  {
    TOKENS - Token(serial)
  }

  lemma TokenAhead(serial: nat, d: nat)
    requires d < TOKENS
    ensures Token(serial + d) == if d < UntilWrap(serial) then Token(serial) + d else Token(serial) + d - TOKENS
  {
  }

  lemma SameSlot(x: nat, y: nat)
    ensures SlotOf(x) == SlotOf(y) <==> (x - y) % TOKEN_SLOTS == 0
  {
  }

  /** The size of the table does not divide the number of tokens: 92296 are left over. */
  lemma Remainder(d: nat)
    ensures (d - TOKENS) % TOKEN_SLOTS == 0 <==> d % TOKEN_SLOTS == 92296
  {
    assert TOKENS == 34359 * TOKEN_SLOTS + 92296;
    assert d == d / TOKEN_SLOTS * TOKEN_SLOTS + d % TOKEN_SLOTS;
  }

  /** Which later tokens share the slot of a token. */
  lemma Collides(serial: nat, d: nat)
    requires d < TOKENS
    ensures SlotOf(Token(serial + d)) == SlotOf(Token(serial))
      <==> d % TOKEN_SLOTS == if d < UntilWrap(serial) then 0 else 92296
  {
    hide Token, SlotOf, UntilWrap;
    TokenAhead(serial, d);
    SameSlot(Token(serial + d), Token(serial));
    Remainder(d);
  }

  /** Tokens less than a table apart collide exactly when the counter wraps in between and they are
      92296 apart. */
  lemma SlotsApart(serial: nat, s: nat)
    requires serial < s < serial + TOKEN_SLOTS
    ensures SlotOf(Token(serial)) == SlotOf(Token(s)) <==> s == serial + 92296 && serial / TOKENS != s / TOKENS
  {
    hide SlotOf;
    var d := s - serial;
    Collides(serial, d);
    assert serial + d == s && d % TOKEN_SLOTS == d;
    WrapsBetween(serial, d);
  }

  lemma WrapsBetween(serial: nat, d: nat)
    requires d < TOKENS
    ensures d < UntilWrap(serial) <==> serial / TOKENS == (serial + d) / TOKENS
  {
  }

  /** The number of later tokens at which a slot is taken over: a table's worth, unless the counter
      wraps first. */
  function Lifetime(serial: nat): nat {
    if UntilWrap(serial) > TOKEN_SLOTS then TOKEN_SLOTS
    else if UntilWrap(serial) <= 92296 then 92296
    else TOKEN_SLOTS + 92296
  }

  /** An entry keeps its slot exactly for its lifetime. */
  lemma KeptForLifetime(serial: nat, issued: nat)
    ensures Unclaimed(serial, issued) <==> issued < serial + Lifetime(serial)
  {
    hide Token, SlotOf, UntilWrap;
    var life := Lifetime(serial);
    assert SlotOf(Token(serial + life)) == SlotOf(Token(serial)) by { Collides(serial, life); }
    forall s: nat | serial < s < serial + life ensures SlotOf(Token(s)) != SlotOf(Token(serial)) {
      Collides(serial, s - serial);
      assert serial + (s - serial) == s;
    }
  }

  /** Across the wrap of the counter a live entry can lose its slot early, and can keep it longer. */
  lemma WrapChangesLifetime()
    ensures Lifetime(1) == TOKEN_SLOTS && Lifetime(TOKENS - 92296) == 92296 && Lifetime(TOKENS - 92297) == 217296
  {
    assert Token(TOKENS - 92296) == TOKENS - 92296 && Token(TOKENS - 92297) == TOKENS - 92297;
  }

  lemma UnclaimedStep(serial: nat, issued: nat)
    ensures Unclaimed(serial, issued + 1) <==>
      Unclaimed(serial, issued) && (serial < issued + 1 ==> SlotOf(Token(issued + 1)) != SlotOf(Token(serial)))
  {
    if Unclaimed(serial, issued + 1) && serial < issued + 1 {
      var t := Token(issued + 1);
    }
  }

  lemma TokensAdd(tokens: seq<Option<EntryId>>, entries: Entries, issued: nat, id: EntryId, e: PitEntry)
    requires TokensOk(tokens, entries, issued) && id !in entries && e.serial == issued + 1
    ensures TokensOk(tokens[SlotOf(Token(issued + 1)) := Some(id)], entries[id := e], issued + 1)
  {
    hide Unclaimed, SlotOf, Token;
    var slot, tokens' := SlotOf(Token(issued + 1)), tokens[SlotOf(Token(issued + 1)) := Some(id)];
    forall x | x in entries[id := e]
      ensures tokens'[SlotOf(Token(entries[id := e][x].serial))] == Some(x) <==> Unclaimed(entries[id := e][x].serial, issued + 1)
    {
      UnclaimedStep(entries[id := e][x].serial, issued);
      if x == id {
        UnclaimedNow(issued + 1);
      }
    }
  }

  lemma UnclaimedNow(serial: nat)
    ensures Unclaimed(serial, serial)
  {
  }

  lemma TokensRemove(tokens: seq<Option<EntryId>>, entries: Entries, issued: nat, id: EntryId)
    requires TokensOk(tokens, entries, issued) && id in entries
    ensures var slot := SlotOf(Token(entries[id].serial));
      TokensOk(if tokens[slot] == Some(id) then tokens[slot := None] else tokens, entries - {id}, issued)
  {
    hide Unclaimed, SlotOf, Token;
  }

  // ----- Lookup of PIT entries by Data name -----

  /** The entry is satisfied by Data of this name. */
  ghost predicate Satisfies(e: PitEntry, name: Name) {
    e.name <= name && (e.canBePrefix || |e.name| == |name|)
  }

  /** The inner loop over one node's entries. */
  method Matching(list: seq<EntryId>, entries: Entries, exact: bool) returns (r: seq<EntryId>)
    requires Unique(list) && forall id :: id in list ==> id in entries
    ensures Unique(r) && forall id :: id in r <==> id in list && (entries[id].canBePrefix || exact)
  {
    r := [];
    for i := 0 to |list|
      invariant Unique(r) && forall id :: id in r <==> id in list[..i] && (entries[id].canBePrefix || exact)
    {
      assert list[..i + 1] == list[..i] + [list[i]];
      if entries[list[i]].canBePrefix || exact {
        r := r + [list[i]];
      }
    }
    assert list[..|list|] == list;
  }

  lemma ListedAbove(nodes: Nodes, entries: Entries, name: Name, at: Name)
    requires Filed(nodes, entries) && at <= name && forall j :: |at| < j <= |name| ==> name[..j] !in nodes
    ensures forall id :: id in entries && Satisfies(entries[id], name) ==> |entries[id].name| <= |at|
  {
    forall id | id in entries && Satisfies(entries[id], name) ensures |entries[id].name| <= |at| {
      assert id in ListAt(nodes, entries[id].name);
      assert name[..|entries[id].name|] == entries[id].name;
    }
  }

  lemma AtPrefix(e: PitEntry, name: Name, at: Name)
    requires at <= name
    ensures Satisfies(e, name) && |e.name| == |at| <==> e.name == at && (e.canBePrefix || |at| == |name|)
  {
    if e.name <= name && |e.name| == |at| {
      assert e.name == name[..|at|] == at;
    }
  }

  lemma UniqueConcat(a: seq<EntryId>, b: seq<EntryId>)
    requires Unique(a) && Unique(b) && forall x :: x in a ==> x !in b
    ensures Unique(a + b)
  {
    forall i, j | 0 <= i < j < |a + b| ensures (a + b)[i] != (a + b)[j] {
      if i < |a| <= j {
        assert a[i] in a && b[j - |a|] in b;
      }
    }
  }

  /** findInterestPrefixMatchByNameEnc */
  method FindByName(nodes: Nodes, entries: Entries, name: Name) returns (r: seq<EntryId>)
    requires Closed(nodes) && Filed(nodes, entries)
    ensures Unique(r) && forall id :: id in r <==> id in entries && Satisfies(entries[id], name)
  {
    hide Closed, Satisfies, Unique;
    ClosedRoot(nodes);
    var at := FindLongest(nodes, [], name);
    ListedAbove(nodes, entries, name, at);
    r := [];
    UniqueNone();
    while true
      invariant at <= name && Unique(r)
      invariant forall id :: id in r <==> id in entries && Satisfies(entries[id], name) && |entries[id].name| > |at|
      decreases |at|
    {
      var list := ListAt(nodes, at);
      var more := Matching(list, entries, |at| == |name|);
      forall id ensures id in more <==> id in entries && Satisfies(entries[id], name) && |entries[id].name| == |at| {
        if id in entries {
          AtPrefix(entries[id], name, at);
          assert id in ListAt(nodes, entries[id].name);
        }
      }
      UniqueConcat(r, more);
      r := r + more;
      if at == [] {
        return;
      }
      at := Parent(at);
    }
  }

  lemma UniqueNone()
    ensures Unique<EntryId>([])
  {
  }

  // ----- Content Store lookup -----

  predicate Fresh(e: CsEntry, mustBeFresh: bool, now: int) {
    !mustBeFresh || now < e.staleTime
  }

  /** The name holds Data that an Interest with this prefix may get. */
  ghost predicate Servable(nodes: Nodes, prefix: Name, x: Name, mustBeFresh: bool, now: int) {
    prefix <= x && Get(nodes, x, BARE).cs.Some? && Fresh(Get(nodes, x, BARE).cs.value, mustBeFresh, now)
  }

  /** findMatchingDataCSPrefix: finds Data below the node whenever there is any. */
  method FindBelow(nodes: Nodes, n: Name, mustBeFresh: bool, now: int) returns (r: Option<Name>)
    requires Closed(nodes) && n in nodes
    ensures r.Some? ==> r.value in nodes && Servable(nodes, n, r.value, mustBeFresh, now)
    ensures r.None? ==> forall x :: !Servable(nodes, n, x, mustBeFresh, now)
    decreases Below(nodes, n)
  {
    hide Done;
    if nodes[n].cs.Some? && Fresh(nodes[n].cs.value, mustBeFresh, now) {
      return Some(n);
    }
    var todo := Children(nodes, n);
    forall x ensures !Done(nodes, n, x, todo) { DoneSteps(nodes, n, x, {}, n); }
    while todo != {}
      invariant todo <= Children(nodes, n)
      invariant forall x :: Done(nodes, n, x, todo) ==> !Servable(nodes, n, x, mustBeFresh, now)
      decreases todo
    {
      var child :| child in todo;
      BelowChild(nodes, n, child);
      var found := FindBelow(nodes, child, mustBeFresh, now);
      if found.Some? {
        return found;
      }
      forall x | Done(nodes, n, x, todo - {child}) ensures !Servable(nodes, n, x, mustBeFresh, now) {
        DoneSteps(nodes, n, x, todo, child);
        assert !Servable(nodes, child, x, mustBeFresh, now);
      }
      todo := todo - {child};
    }
    forall x ensures !Servable(nodes, n, x, mustBeFresh, now) {
      DoneSteps(nodes, n, x, {}, n);
      assert n <= x ==> n < x || x == n;
    }
    return None;
  }

  /** The tree, the index and the replacement queue hold the same Data. */
  ghost predicate CsAgrees(nodes: Nodes, csMap: map<Name, CsEntry>, queued: seq<Name>) {
    && (forall n :: Get(nodes, n, BARE).cs == if n in csMap then Some(csMap[n]) else None)
    && (forall n :: n in csMap <==> n in queued)
  }

  class PitCsTree {
    var nodes: Nodes
    var entries: Entries
    /** The identity of the next PIT entry. */
    var nextEntry: EntryId
    var nPitEntries: int
    var nPitToken: nat
    const pitTokens: array<Option<EntryId>>
    var csMap: map<Name, CsEntry>
    var nCsEntries: int
    const lru: Lru<Name>
    const capacity: nat
    /** The names inserted, refreshed or matched exactly so far. */
    ghost var touched: seq<Name>

    ghost predicate PitValid()
      reads this`nodes, this`entries, this`nextEntry, this`nPitEntries, this`nPitToken, pitTokens
    {
      && Closed(nodes) && Filed(nodes, entries) && OneEach(entries)
      && (forall id :: id in entries ==> id < nextEntry)
      && nPitEntries == |entries|
      && TokensOk(pitTokens[..], entries, nPitToken)
    }

    /** The replacement queue holds the most recently touched names. */
    ghost predicate LruValid()
      reads this`csMap, this`nCsEntries, this`touched, lru
    {
      && lru.Valid()
      && nCsEntries == |csMap| == |lru.queue|
      && Indices(lru.queue) == Last(Order(touched), capacity)
    }

    ghost predicate Valid()
      reads this, pitTokens, lru
    {
      PitValid() && LruValid() && CsAgrees(nodes, csMap, Indices(lru.queue))
    }

    constructor (capacity: nat)
      ensures Valid() && entries == map[] && csMap == map[] && touched == [] && this.capacity == capacity
      ensures fresh(pitTokens) && fresh(lru)
    {
      hide Closed, Filed, TokensOk, OneEach, Order, Last, CsAgrees, Get;
      nodes, entries, nextEntry, nPitEntries, nPitToken := map[[] := BARE], map[], 0, 0, 0;
      pitTokens := new Option<EntryId>[TOKEN_SLOTS](_ => None);
      csMap, nCsEntries, touched := map[], 0, [];
      lru := new Lru<Name>();
      this.capacity := capacity;
      new;
      NothingYet(pitTokens[..], capacity);
    }

    /** InsertInterest */
    method InsertInterest(name: Name, canBePrefix: bool, mustBeFresh: bool, hint: Name) returns (id: EntryId)
      requires Valid()
      modifies this`nodes, this`entries, this`nextEntry, this`nPitEntries, this`nPitToken, pitTokens
      ensures Valid()
      ensures id in entries && entries[id].name == name && SameKey(entries[id], canBePrefix, mustBeFresh, hint)
      ensures entries == old(entries)
        || (id !in old(entries) && nPitToken == old(nPitToken) + 1 && entries == old(entries)[id := entries[id]])
    {
      hide Closed, Filed, TokensOk, OneEach, CsAgrees, Get, Indices, LruValid;
      var filled := Fill(nodes, name, BARE);
      SameFiled(nodes, filled, entries, csMap, Indices(lru.queue));
      nodes := filled;
      FiledParts(nodes, entries, name);
      var found := FindKey(ListAt(nodes, name), entries, canBePrefix, mustBeFresh, hint);
      if found.Some? {
        return found.value;
      }
      id := AddEntry(name, canBePrefix, mustBeFresh, hint);
    }

    /** The creation branch of InsertInterest. */
    method AddEntry(name: Name, canBePrefix: bool, mustBeFresh: bool, hint: Name) returns (id: EntryId)
      requires Valid() && name in nodes
      requires forall x :: x in entries && entries[x].name == name ==> !SameKey(entries[x], canBePrefix, mustBeFresh, hint)
      modifies this`nodes, this`entries, this`nextEntry, this`nPitEntries, this`nPitToken, pitTokens
      ensures Valid() && id !in old(entries) && nPitToken == old(nPitToken) + 1
      ensures entries == old(entries)[id := PitEntry(name, canBePrefix, mustBeFresh, hint, nPitToken)]
    {
      hide Closed, Filed, TokensOk, OneEach, CsAgrees, SameKey, SlotOf, Token, Indices, LruValid;
      id := nextEntry;
      var e := PitEntry(name, canBePrefix, mustBeFresh, hint, nPitToken + 1);
      var node := nodes[name].(pit := nodes[name].pit + [id]);
      ghost var was := pitTokens[..];
      FiledAdd(nodes, entries, id, e);
      OneEachAdd(entries, id, e);
      TokensAdd(was, entries, nPitToken, id, e);
      TokensParts(was, entries, nPitToken);
      ChangedOk(nodes, name, node);
      CsKept(nodes, name, node, csMap, Indices(lru.queue));
      nPitEntries := nPitEntries + 1;
      nodes := nodes[name := node];
      entries := entries[id := e];
      nextEntry := nextEntry + 1;
      nPitToken := nPitToken + 1;
      var slot := SlotOf(Token(nPitToken));
      pitTokens[slot] := Some(id);
      assert pitTokens[..] == was[slot := Some(id)];
    }

    /** RemoveInterest of a live entry. */
    method RemoveInterest(id: EntryId)
      requires Valid() && id in entries
      modifies this`nodes, this`entries, this`nPitEntries, pitTokens
      ensures Valid() && entries == old(entries) - {id}
    {
      hide Closed, Filed, TokensOk, OneEach, CsAgrees, SlotOf, Token, Indices, LruValid;
      nodes := Unfile(nodes, entries, id, csMap, Indices(lru.queue));
      nPitEntries := nPitEntries - 1;
      ghost var was := pitTokens[..];
      TokensRemove(was, entries, nPitToken, id);
      TokensParts(was, entries, nPitToken);
      OneEachRemove(entries, id);
      var slot := SlotOf(Token(entries[id].serial));
      if pitTokens[slot] == Some(id) {
        pitTokens[slot] := None;
        assert pitTokens[..] == was[slot := None];
      }
      entries := entries - {id};
    }

    /** FindInterestPrefixMatchByDataEnc: a token names at most one entry, and always finds one within
        its lifetime; otherwise all entries that the name satisfies are found. */
    method FindByData(name: Name, token: Option<nat>) returns (r: seq<EntryId>)
      requires Valid()
      ensures (exists id :: id in entries && r == [id] && token == Some(Token(entries[id].serial)) && entries[id].name != [])
        || (Unique(r) && forall id :: id in r <==> id in entries && Satisfies(entries[id], name))
      ensures forall id :: id in entries && nPitToken < entries[id].serial + Lifetime(entries[id].serial) ==>
        (token == Some(Token(entries[id].serial)) && entries[id].name != [] ==> r == [id])
    {
      hide Closed, Order, Last, CsAgrees, Satisfies, Unclaimed, Lifetime;
      forall id | id in entries && nPitToken < entries[id].serial + Lifetime(entries[id].serial)
        ensures pitTokens[SlotOf(Token(entries[id].serial))] == Some(id)
      {
        KeptForLifetime(entries[id].serial, nPitToken);
      }
      if token.Some? {
        var slot := pitTokens[SlotOf(token.value)];
        if slot.Some? && entries[slot.value].name != [] && Token(entries[slot.value].serial) == token.value {
          return [slot.value];
        }
      }
      r := FindByName(nodes, entries, name);
    }

    // ----- Content Store -----

    /** FindMatchingDataFromCS: an exact match counts as a use, a prefix match does not. */
    method FindData(name: Name, canBePrefix: bool, mustBeFresh: bool, now: int) returns (r: Option<Name>)
      requires Valid()
      modifies this`touched, lru
      ensures Valid()
      ensures !canBePrefix ==> r == if name in csMap && (!mustBeFresh || now < csMap[name].staleTime) then Some(name) else None
      ensures canBePrefix && r.Some? ==> name <= r.value && r.value in csMap && (!mustBeFresh || now < csMap[r.value].staleTime)
      ensures canBePrefix && r.None? ==> forall x :: x in csMap && name <= x ==> mustBeFresh && csMap[x].staleTime <= now
      ensures touched == if !canBePrefix && r.Some? then old(touched) + [name] else old(touched)
    {
      hide Closed, Filed, TokensOk, OneEach, Order, Last, Indices, Without, Located;
      assert name in csMap ==> name in nodes;
      if name !in nodes {
        forall x | name <= x ensures x !in csMap {
          NotBelow(nodes, name, x);
          assert Get(nodes, x, BARE) == BARE;
        }
        return None;
      }
      if canBePrefix {
        r := FindBelow(nodes, name, mustBeFresh, now);
        forall x | x in csMap && name <= x && r.None? ensures !Fresh(csMap[x], mustBeFresh, now) {
          assert !Servable(nodes, name, x, mustBeFresh, now);
        }
      } else if nodes[name].cs.Some? && Fresh(nodes[name].cs.value, mustBeFresh, now) {
        Use(name);
        return Some(name);
      } else {
        return None;
      }
    }

    /** BeforeUse of Data that is held. */
    method Use(name: Name)
      requires Valid() && name in csMap
      modifies this`touched, lru
      ensures Valid() && touched == old(touched) + [name]
    {
      hide Closed, Filed, TokensOk, OneEach, Order, Last, Indices, Without, Located;
      ghost var q := Indices(lru.queue);
      LocatedUnique(lru.queue, lru.locations, lru.next);
      TouchHeld(touched, capacity, name);
      lru.Touch(name);
      TouchedSame(q, name);
      touched := touched + [name];
    }

    /** eraseCsDataFromReplacementStrategy and the removal of the queue's front. */
    method EvictOldest()
      requires PitValid() && lru.Valid() && CsAgrees(nodes, csMap, Indices(lru.queue))
      requires nCsEntries == |csMap| == |lru.queue| && lru.queue != []
      modifies this`nodes, this`csMap, this`nCsEntries, lru
      ensures PitValid() && lru.Valid() && CsAgrees(nodes, csMap, Indices(lru.queue))
      ensures nCsEntries == |csMap| == |lru.queue| && csMap == old(csMap) - {old(Indices(lru.queue))[0]}
      ensures Indices(lru.queue) == old(Indices(lru.queue))[1..]
    {
      hide Closed, Filed, TokensOk, OneEach, Indices, Located, CsAgrees, Unique, Get;
      ghost var q := Indices(lru.queue);
      LocatedUnique(lru.queue, lru.locations, lru.next);
      var index := lru.queue[0].index;
      assert index == q[0] by { IndicesAt(lru.queue); }
      HeldOk(nodes, csMap, q, index);
      var node := nodes[index].(cs := None);
      ChangedOk(nodes, index, node);
      FiledKept(nodes, index, node, entries);
      ErasedOk(nodes, csMap, q);
      nodes := nodes[index := node];
      csMap := csMap - {index};
      nCsEntries := nCsEntries - 1;
      lru.PopFront();
      assert |csMap| == |lru.queue| by { IndicesAt(lru.queue); }
    }

    /** EvictEntries, while the queue is longer than the capacity. */
    method EvictEntries()
      requires PitValid() && lru.Valid() && CsAgrees(nodes, csMap, Indices(lru.queue))
      requires nCsEntries == |csMap| == |lru.queue|
      modifies this`nodes, this`csMap, this`nCsEntries, lru
      ensures PitValid() && lru.Valid() && CsAgrees(nodes, csMap, Indices(lru.queue))
      ensures nCsEntries == |csMap| == |lru.queue|
      ensures Indices(lru.queue) == Last(old(Indices(lru.queue)), capacity)
      ensures forall n :: n in csMap ==> n in old(csMap) && csMap[n] == old(csMap)[n]
    {
      hide Closed, Filed, TokensOk, OneEach, Located, CsAgrees, PitValid, Unique;
      ghost var q, was := Indices(lru.queue), csMap;
      while |lru.queue| > capacity
        invariant PitValid() && lru.Valid() && CsAgrees(nodes, csMap, Indices(lru.queue))
        invariant nCsEntries == |csMap| == |lru.queue|
        invariant Last(Indices(lru.queue), capacity) == Last(q, capacity)
        invariant forall n :: n in csMap ==> n in was && csMap[n] == was[n]
        decreases |lru.queue|
      {
        EvictOldest();
      }
    }

    /** InsertData of a name that is held. */
    method Refresh(name: Name, e: CsEntry)
      requires Valid() && name in csMap
      modifies this`nodes, this`csMap, this`touched, lru
      ensures Valid() && touched == old(touched) + [name] && csMap == old(csMap)[name := e]
    {
      hide Closed, Filed, TokensOk, OneEach, Located, CsAgrees, Unique, Order, Last, Indices, Get, Without;
      ghost var q := Indices(lru.queue);
      LocatedUnique(lru.queue, lru.locations, lru.next);
      HeldOk(nodes, csMap, q, name);
      TouchHeld(touched, capacity, name);
      TouchedSame(q, name);
      StoredOk(nodes, csMap, q, Without(q, name) + [name], name, e);
      ChangedOk(nodes, name, nodes[name].(cs := Some(e)));
      FiledKept(nodes, name, nodes[name].(cs := Some(e)), entries);
      csMap := csMap[name := e];
      nodes := nodes[name := nodes[name].(cs := Some(e))];
      lru.Touch(name);
      IndicesAt(lru.queue);
      touched := touched + [name];
    }

    /** InsertData of a name that is not held, before eviction. */
    method StoreNew(name: Name, e: CsEntry)
      requires Valid() && name !in csMap
      modifies this`nodes, this`csMap, this`nCsEntries, lru
      ensures PitValid() && lru.Valid() && CsAgrees(nodes, csMap, Indices(lru.queue))
      ensures nCsEntries == |csMap| == |lru.queue| && csMap == old(csMap)[name := e]
      ensures Indices(lru.queue) == old(Indices(lru.queue)) + [name]
    {
      hide Closed, Filed, TokensOk, OneEach, Located, CsAgrees, Unique, Order, Last, Indices, Get;
      ghost var q := Indices(lru.queue);
      NotHeld(nodes, csMap, q, name);
      nCsEntries := nCsEntries + 1;
      var filled := Fill(nodes, name, BARE);
      SameFiled(nodes, filled, entries, csMap, q);
      StoredOk(filled, csMap, q, q + [name], name, e);
      ChangedOk(filled, name, filled[name].(cs := Some(e)));
      FiledKept(filled, name, filled[name].(cs := Some(e)), entries);
      nodes := filled[name := filled[name].(cs := Some(e))];
      csMap := csMap[name := e];
      lru.AfterInsert(name);
      IndicesAt(lru.queue);
    }

    /** InsertData: the Data is fresh for its freshness period, and never if it has none. */
    method InsertData(name: Name, wire: Bytes, now: int, freshness: Option<nat>)
      requires Valid()
      modifies this`nodes, this`csMap, this`nCsEntries, this`touched, lru
      ensures Valid() && touched == old(touched) + [name]
      ensures name in csMap ==> csMap[name] == CsEntry(wire, now + if freshness.Some? then freshness.value else 0)
      ensures forall n :: n in csMap && n != name ==> n in old(csMap) && csMap[n] == old(csMap)[n]
    {
      hide Closed, Filed, TokensOk, OneEach, Located, CsAgrees, Order, Last, Indices, PitValid;
      var staleTime := now;
      if freshness.Some? {
        staleTime := staleTime + freshness.value;
      }
      if name in csMap {
        Refresh(name, CsEntry(wire, staleTime));
      } else {
        NotHeld(nodes, csMap, Indices(lru.queue), name);
        TouchNew(touched, capacity, name);
        StoreNew(name, CsEntry(wire, staleTime));
        EvictEntries();
        touched := touched + [name];
      }
    }

    /** The names held are exactly those touched with fewer than `capacity` others touched since. */
    lemma HoldsMostRecent(name: Name)
      requires Valid()
      ensures name in csMap <==> exists i: nat :: RecentAt(touched, capacity, name, i)
    {
      Recency(touched, capacity, name);
    }
  }

  lemma IndicesAt(queue: seq<Element<Name>>)
    ensures |Indices(queue)| == |queue| && forall i :: 0 <= i < |queue| ==> Indices(queue)[i] == queue[i].index
  {
  }

  lemma HeldOk(nodes: Nodes, csMap: map<Name, CsEntry>, queued: seq<Name>, n: Name)
    requires CsAgrees(nodes, csMap, queued) && (n in csMap || n in queued)
    ensures n in csMap && n in queued && n in nodes && nodes[n].cs == Some(csMap[n])
  {
    assert Get(nodes, n, BARE).cs == Some(csMap[n]);
  }

  lemma NotHeld(nodes: Nodes, csMap: map<Name, CsEntry>, queued: seq<Name>, n: Name)
    requires CsAgrees(nodes, csMap, queued) && n !in csMap
    ensures n !in queued
  {
  }

  lemma FiledKept(nodes: Nodes, name: Name, node: Node, entries: Entries)
    requires Filed(nodes, entries) && name in nodes && node.pit == nodes[name].pit
    ensures Filed(nodes[name := node], entries)
  {
    FiledSame(nodes, nodes[name := node], entries);
  }

  lemma ErasedOk(nodes: Nodes, csMap: map<Name, CsEntry>, queued: seq<Name>)
    requires CsAgrees(nodes, csMap, queued) && Unique(queued) && queued != [] && queued[0] in nodes
    ensures CsAgrees(nodes[queued[0] := nodes[queued[0]].(cs := None)], csMap - {queued[0]}, queued[1..])
  {
    var n, rest := queued[0], queued[1..];
    forall x ensures Get(nodes[n := nodes[n].(cs := None)], x, BARE).cs == if x == n then None else Get(nodes, x, BARE).cs {
    }
    assert queued == [n] + rest;
    UniqueParts([n], rest);
  }

  lemma StoredOk(nodes: Nodes, csMap: map<Name, CsEntry>, queued: seq<Name>, queued': seq<Name>, n: Name, e: CsEntry)
    requires CsAgrees(nodes, csMap, queued) && n in nodes
    requires forall x :: x in queued' <==> x in queued || x == n
    ensures CsAgrees(nodes[n := nodes[n].(cs := Some(e))], csMap[n := e], queued')
  {
    forall x ensures Get(nodes[n := nodes[n].(cs := Some(e))], x, BARE).cs == if x == n then Some(e) else Get(nodes, x, BARE).cs {
    }
  }

  lemma TouchedSame(q: seq<Name>, name: Name)
    requires Unique(q) && name in q
    ensures |Without(q, name) + [name]| == |q| && forall n :: n in Without(q, name) + [name] <==> n in q
  {
    WithoutUnique(q, name);
    forall n ensures n in Without(q, name) <==> n in q && n != name { WithoutIn(q, name, n); }
  }

  lemma NotBelow(nodes: Nodes, name: Name, x: Name)
    requires Closed(nodes) && name !in nodes && name <= x
    ensures x !in nodes
  {
    assert x[..|name|] == name;
    if x in nodes {
      PrefixClosed(nodes, x, |name|);
    }
  }

  lemma NothingYet(tokens: seq<Option<EntryId>>, capacity: nat)
    requires |tokens| == TOKEN_SLOTS && forall i :: 0 <= i < |tokens| ==> tokens[i] == None
    ensures Closed(map[[] := BARE]) && Filed(map[[] := BARE], map[]) && OneEach(map[]) && TokensOk(tokens, map[], 0)
    ensures CsAgrees(map[[] := BARE], map[], []) && Last(Order<Name>([]), capacity) == []
  {
  }

  /** The search loop over a node's entries. */
  method FindKey(list: seq<EntryId>, entries: Entries, canBePrefix: bool, mustBeFresh: bool, hint: Name) returns (r: Option<EntryId>)
    requires forall id :: id in list ==> id in entries
    ensures r.Some? ==> r.value in list && SameKey(entries[r.value], canBePrefix, mustBeFresh, hint)
    ensures r.None? ==> forall id :: id in list ==> !SameKey(entries[id], canBePrefix, mustBeFresh, hint)
  {
    for i := 0 to |list|
      invariant forall j :: 0 <= j < i ==> !SameKey(entries[list[j]], canBePrefix, mustBeFresh, hint)
    {
      if SameKey(entries[list[i]], canBePrefix, mustBeFresh, hint) {
        return Some(list[i]);
      }
    }
    return None;
  }

  method Position(list: seq<EntryId>, id: EntryId) returns (i: nat)
    requires id in list
    ensures i < |list| && list[i] == id
  {
    i := 0;
    while list[i] != id
      invariant i < |list| && id in list[i..]
      decreases |list| - i
    {
      assert list[i..] == [list[i]] + list[i + 1..];
      i := i + 1;
    }
  }

  /** The tree without the entry: taken out of its node's list, and the node pruned. */
  method Unfile(nodes: Nodes, entries: Entries, id: EntryId, csMap: map<Name, CsEntry>, ghost queued: seq<Name>) returns (r: Nodes)
    requires Closed(nodes) && Filed(nodes, entries) && id in entries && CsAgrees(nodes, csMap, queued)
    ensures Closed(r) && Filed(r, entries - {id}) && CsAgrees(r, csMap, queued)
  {
    hide Closed, Filed, CsAgrees, Get, Swapped, Unique;
    var name := entries[id].name;
    FiledParts(nodes, entries, name);
    assert name in nodes && nodes[name].pit == ListAt(nodes, name) by { ListNeedsNode(nodes, name, id); }
    var i := Position(nodes[name].pit, id);
    var node := nodes[name].(pit := Swapped(nodes[name].pit, i));
    FiledRemove(nodes, entries, i, id);
    CsKept(nodes, name, node, csMap, queued);
    ChangedOk(nodes, name, node);
    r := PruneIfEmpty(nodes[name := node], name, BARE);
    SameFiled(nodes[name := node], r, entries - {id}, csMap, queued);
  }

  lemma ListNeedsNode(nodes: Nodes, n: Name, id: EntryId)
    requires id in ListAt(nodes, n)
    ensures n in nodes && nodes[n].pit == ListAt(nodes, n)
  {
  }

  lemma SameFiled(a: Nodes, b: Nodes, entries: Entries, csMap: map<Name, CsEntry>, queued: seq<Name>)
    requires forall x :: Get(b, x, BARE) == Get(a, x, BARE)
    ensures Filed(a, entries) ==> Filed(b, entries)
    ensures CsAgrees(a, csMap, queued) ==> CsAgrees(b, csMap, queued)
  {
    if Filed(a, entries) {
      FiledSame(a, b, entries);
    }
  }

  lemma CsKept(nodes: Nodes, name: Name, node: Node, csMap: map<Name, CsEntry>, queued: seq<Name>)
    requires CsAgrees(nodes, csMap, queued) && name in nodes && node.cs == nodes[name].cs
    ensures CsAgrees(nodes[name := node], csMap, queued)
  {
    forall n ensures Get(nodes[name := node], n, BARE).cs == Get(nodes, n, BARE).cs {
    }
  }

  lemma OneEachRemove(entries: Entries, id: EntryId)
    requires OneEach(entries)
    ensures OneEach(entries - {id})
  {
  }

  lemma FiledParts(nodes: Nodes, entries: Entries, n: Name)
    requires Filed(nodes, entries)
    ensures Unique(ListAt(nodes, n)) && forall id :: id in ListAt(nodes, n) <==> id in entries && entries[id].name == n
  {
  }

  lemma TokensParts(tokens: seq<Option<EntryId>>, entries: Entries, issued: nat)
    requires TokensOk(tokens, entries, issued)
    ensures |tokens| == TOKEN_SLOTS
  {
  }

  lemma OneEachAdd(entries: Entries, id: EntryId, e: PitEntry)
    requires OneEach(entries) && id !in entries
    requires forall x :: x in entries && entries[x].name == e.name ==> !SameKey(entries[x], e.canBePrefix, e.mustBeFresh, e.hint)
    ensures OneEach(entries[id := e])
  {
  }
}
