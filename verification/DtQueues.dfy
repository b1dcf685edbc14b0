/** The data-transmission queues of fw/fw/multipath.go. Each forwarding thread keeps one queue per
    prefix; a queued Interest is assigned to one upstream face (0 for none). Demand counters per
    face and thread, an index of prefixes per face, and a global length per prefix are kept beside
    the queues and must agree with them. */
module DtQueues {
  import opened RoundRobin

  type Prefix = string
  type FaceId = nat

  datatype Item = Item(id: nat, owner: nat, candidates: seq<FaceId>, face: FaceId)

  type Queues = map<Prefix, seq<Item>>

  /** What one forwarding thread keeps: its queues, the prefixes that may hold work for a face,
      the faces in order of first use, and where the round robin of a face resumes. */
  datatype Local = Local(queues: Queues, prefixes: map<FaceId, seq<Prefix>>, order: seq<FaceId>, resume: map<FaceId, nat>)

  // ----- Counting -----

  function QueueOf(q: Queues, p: Prefix): seq<Item> {
    if p in q then q[p] else []
  }

  function Count(items: seq<Item>, f: FaceId): nat {
    if items == [] then 0 else Count(items[..|items| - 1], f) + if items[|items| - 1].face == f then 1 else 0
  }

  lemma {:induction false} CountConcat(a: seq<Item>, b: seq<Item>, f: FaceId)
    ensures Count(a + b, f) == Count(a, f) + Count(b, f)
  {
    if b == [] {
      assert a + b == a;
    } else {
      assert (a + b)[..|a + b| - 1] == a + b[..|b| - 1];
      CountConcat(a, b[..|b| - 1], f);
    }
  }

  lemma CountAt(items: seq<Item>, i: nat, f: FaceId)
    requires i < |items|
    ensures Count(items, f) == Count(items[..i], f) + (if items[i].face == f then 1 else 0) + Count(items[i + 1..], f)
  {
    assert items == items[..i] + [items[i]] + items[i + 1..];
    CountConcat(items[..i] + [items[i]], items[i + 1..], f);
    CountConcat(items[..i], [items[i]], f);
    assert [items[i]][..0] == [];
    assert Count([items[i]], f) == Count([], f) + if items[i].face == f then 1 else 0;
  }

  lemma {:induction false} CountNone(items: seq<Item>, f: FaceId)
    ensures Count(items, f) == 0 <==> forall i :: 0 <= i < |items| ==> items[i].face != f
  {
    if items != [] {
      CountNone(items[..|items| - 1], f);
      assert items == items[..|items| - 1] + [items[|items| - 1]];
    }
  }

  /** Items of a face over a set of prefixes. */
  ghost function PendingIn(q: Queues, ps: set<Prefix>, f: FaceId): nat
    decreases ps
  {
    if ps == {} then 0 else var p :| p in ps; Count(QueueOf(q, p), f) + PendingIn(q, ps - {p}, f)
  }

  /** Items of a face queued by a thread. */
  ghost function Pending(q: Queues, f: FaceId): nat {
    PendingIn(q, q.Keys, f)
  }

  lemma {:induction false} PendingOut(q: Queues, ps: set<Prefix>, f: FaceId, p: Prefix)
    requires p in ps
    ensures PendingIn(q, ps, f) == Count(QueueOf(q, p), f) + PendingIn(q, ps - {p}, f)
    decreases ps
  {
    var r :| r in ps && PendingIn(q, ps, f) == Count(QueueOf(q, r), f) + PendingIn(q, ps - {r}, f);
    if r != p {
      PendingOut(q, ps - {r}, f, p);
      PendingOut(q, ps - {p}, f, r);
      assert ps - {r} - {p} == ps - {p} - {r};
    }
  }

  lemma {:induction false} PendingSame(q: Queues, q': Queues, ps: set<Prefix>, f: FaceId)
    requires forall p :: p in ps ==> Count(QueueOf(q, p), f) == Count(QueueOf(q', p), f)
    ensures PendingIn(q, ps, f) == PendingIn(q', ps, f)
    decreases ps
  {
    if ps != {} {
      var p :| p in ps;
      PendingOut(q, ps, f, p);
      PendingOut(q', ps, f, p);
      PendingSame(q, q', ps - {p}, f);
    }
  }

  /** Replacing one queue changes the total by the difference of that queue. */
  lemma PendingUpdate(q: Queues, p: Prefix, items: seq<Item>, f: FaceId)
    ensures Pending(q[p := items], f) + Count(QueueOf(q, p), f) == Pending(q, f) + Count(items, f)
  {
    var q' := q[p := items];
    PendingOut(q', q'.Keys, f, p);
    assert q'.Keys - {p} == q.Keys - {p};
    PendingSame(q, q', q.Keys - {p}, f);
    if p in q {
      PendingOut(q, q.Keys, f, p);
    } else {
      assert q.Keys - {p} == q.Keys;
      assert Count([], f) == 0;
    }
  }

  lemma {:induction false} PendingNone(q: Queues, ps: set<Prefix>, f: FaceId)
    ensures PendingIn(q, ps, f) == 0 <==> forall p :: p in ps ==> Count(QueueOf(q, p), f) == 0
    decreases ps
  {
    if ps != {} {
      var p :| p in ps;
      PendingOut(q, ps, f, p);
      PendingNone(q, ps - {p}, f);
    }
  }

  // ----- The invariant of a thread -----

  function DemandOf(demand: map<FaceId, nat>, f: FaceId): nat {
    if f in demand then demand[f] else 0
  }

  function PrefixesOf(l: Local, f: FaceId): seq<Prefix> {
    if f in l.prefixes then l.prefixes[f] else []
  }

  /** Every queued item is owned by the thread and its prefix is indexed under its face. */
  predicate Indexed(l: Local, thread: nat) {
    forall p, i :: p in l.queues && 0 <= i < |l.queues[p]| ==>
      l.queues[p][i].owner == thread && (l.queues[p][i].face != 0 ==> p in PrefixesOf(l, l.queues[p][i].face))
  }

  /** The index lists are free of duplicates, and every indexed face is in the visiting order. */
  predicate IndexOk(l: Local) {
    && Distinct(l.order)
    && (forall f :: f in l.prefixes ==> Distinct(l.prefixes[f]) && f in l.order)
  }

  /** Demand counters count the queued items. */
  ghost predicate Counted(l: Local, demand: map<FaceId, nat>) {
    forall f: FaceId :: f != 0 ==> DemandOf(demand, f) == Pending(l.queues, f)
  }

  ghost predicate Agrees(l: Local, demand: map<FaceId, nat>, thread: nat) {
    Indexed(l, thread) && IndexOk(l) && Counted(l, demand)
  }

  /** noteDtThreadDemand, as far as demand goes. */
  function Noted(demand: map<FaceId, nat>, f: FaceId, delta: int): map<FaceId, nat> {
    demand[f := if DemandOf(demand, f) + delta < 0 then 0 else DemandOf(demand, f) + delta]
  }

  /** noteLocalPrefixEligibleForFace */
  function Eligible(l: Local, f: FaceId, p: Prefix): Local {
    var l1 := if f in l.order then l else l.(order := l.order + [f]);
    if p in PrefixesOf(l1, f) then l1 else l1.(prefixes := l1.prefixes[f := PrefixesOf(l1, f) + [p]])
  }

  lemma EligibleKeeps(l: Local, f: FaceId, p: Prefix, thread: nat)
    requires Indexed(l, thread) && IndexOk(l)
    ensures var l' := Eligible(l, f, p);
      && Indexed(l', thread) && IndexOk(l') && l'.queues == l.queues && l'.resume == l.resume
      && p in PrefixesOf(l', f)
      && (forall g, x :: x in PrefixesOf(l, g) ==> x in PrefixesOf(l', g))
  {
    hide IndexOk, Eligible, PrefixesOf;
    EligibleLists(l, f, p);
    EligibleIndexOk(l, f, p);
  }

  lemma EligibleLists(l: Local, f: FaceId, p: Prefix)
    ensures var l' := Eligible(l, f, p);
      && l'.queues == l.queues && l'.resume == l.resume
      && forall g ::
        PrefixesOf(l', g) == if g == f && p !in PrefixesOf(l, f) then PrefixesOf(l, f) + [p] else PrefixesOf(l, g)
  {
  }

  lemma DistinctAppend<T>(s: seq<T>, x: T)
    requires Distinct(s) && x !in s
    ensures Distinct(s + [x])
  {
  }

  lemma EligibleIndexOk(l: Local, f: FaceId, p: Prefix)
    requires IndexOk(l)
    ensures IndexOk(Eligible(l, f, p))
  {
    assert f in l.prefixes ==> Distinct(l.prefixes[f]);
    hide Distinct;
    if f !in l.order {
      DistinctAppend(l.order, f);
    }
    if p !in PrefixesOf(l, f) {
      if f !in l.prefixes {
        DistinctNone<Prefix>();
      }
      DistinctAppend(PrefixesOf(l, f), p);
    }
  }

  lemma DistinctNone<T>()
    ensures Distinct<T>([])
  {
  }

  /** enqueueLocalDtInterest */
  function Enqueued(l: Local, p: Prefix, item: Item): Local {
    var l1 := l.(queues := l.queues[p := QueueOf(l.queues, p) + [item]]);
    if item.face != 0 then Eligible(l1, item.face, p) else l1
  }

  /** An item may join or replace part of a queue if it is indexed. */
  predicate ItemOk(l: Local, thread: nat, p: Prefix, item: Item) {
    item.owner == thread && (item.face != 0 ==> p in PrefixesOf(l, item.face))
  }

  lemma IndexedSet(l: Local, thread: nat, p: Prefix, items: seq<Item>)
    requires Indexed(l, thread) && forall i :: 0 <= i < |items| ==> ItemOk(l, thread, p, items[i])
    ensures Indexed(l.(queues := l.queues[p := items]), thread)
  {
    hide PrefixesOf;
    var l' := l.(queues := l.queues[p := items]);
    assert forall f :: PrefixesOf(l', f) == PrefixesOf(l, f) by { SamePrefixes(l, l'); }
  }

  lemma SamePrefixes(l: Local, l': Local)
    requires l.prefixes == l'.prefixes
    ensures forall f :: PrefixesOf(l', f) == PrefixesOf(l, f)
  {
  }

  lemma EnqueuedAgrees(l: Local, demand: map<FaceId, nat>, thread: nat, p: Prefix, item: Item)
    requires Agrees(l, demand, thread) && item.owner == thread
    ensures Agrees(Enqueued(l, p, item), if item.face != 0 then Noted(demand, item.face, 1) else demand, thread)
  {
    hide Pending, Indexed, PrefixesOf;
    var q := QueueOf(l.queues, p);
    forall f: FaceId ensures Pending(l.queues[p := q + [item]], f) == Pending(l.queues, f) + if item.face == f then 1 else 0 {
      PendingUpdate(l.queues, p, q + [item], f);
      assert (q + [item])[..|q|] == q;
    }
    // The index is extended first; the queue then satisfies it.
    var l1 := if item.face != 0 then Eligible(l, item.face, p) else l;
    if item.face != 0 { EligibleKeeps(l, item.face, p, thread); }
    QueueItemsOk(l1, thread, p);
    assert l1.queues == l.queues && IndexOk(l1) && ItemOk(l1, thread, p, item);
    IndexedSet(l1, thread, p, q + [item]);
    EligibleCommutes(l, item.face, p, q + [item]);
    var l' := Enqueued(l, p, item);
    assert l' == l1.(queues := l.queues[p := q + [item]]);
    assert IndexOk(l');
    var d' := if item.face != 0 then Noted(demand, item.face, 1) else demand;
    forall f: FaceId | f != 0 ensures DemandOf(d', f) == Pending(l'.queues, f) {
      assert DemandOf(demand, f) == Pending(l.queues, f);
    }
  }

  lemma QueueItemsOk(l: Local, thread: nat, p: Prefix)
    requires Indexed(l, thread)
    ensures forall i :: 0 <= i < |QueueOf(l.queues, p)| ==> ItemOk(l, thread, p, QueueOf(l.queues, p)[i])
  {
  }

  lemma EligibleCommutes(l: Local, f: FaceId, p: Prefix, items: seq<Item>)
    ensures Eligible(l.(queues := l.queues[p := items]), f, p)
            == var l1 := Eligible(l, f, p); l1.(queues := l1.queues[p := items])
  {
  }

  // ----- Taking items out -----

  function Without(items: seq<Item>, i: nat): seq<Item>
    requires i < |items|
  {
    items[..i] + items[i + 1..]
  }

  /** The items assigned to a face, or those that are not, in queue order. */
  function OfFace(items: seq<Item>, f: FaceId, yes: bool): seq<Item> {
    if items == [] then []
    else OfFace(items[..|items| - 1], f, yes) + if (items[|items| - 1].face == f) == yes then [items[|items| - 1]] else []
  }

  lemma {:induction false} OfFaceConcat(a: seq<Item>, b: seq<Item>, f: FaceId, yes: bool)
    ensures OfFace(a + b, f, yes) == OfFace(a, f, yes) + OfFace(b, f, yes)
  {
    if b == [] {
      assert a + b == a;
    } else {
      assert (a + b)[..|a + b| - 1] == a + b[..|b| - 1];
      OfFaceConcat(a, b[..|b| - 1], f, yes);
    }
  }

  lemma {:induction false} OfFaceNone(items: seq<Item>, f: FaceId)
    requires forall i :: 0 <= i < |items| ==> items[i].face != f
    ensures OfFace(items, f, true) == []
  {
    if items != [] {
      OfFaceNone(items[..|items| - 1], f);
    }
  }

  predicate IsFirst(items: seq<Item>, i: nat, f: FaceId) {
    i < |items| && items[i].face == f && forall j :: 0 <= j < i ==> items[j].face != f
  }

  /** Taking the first item of a face is taking the head of that face's items; the others keep
      their order. */
  lemma TakeFirst(items: seq<Item>, i: nat, f: FaceId)
    requires IsFirst(items, i, f)
    ensures OfFace(items, f, true) == [items[i]] + OfFace(Without(items, i), f, true)
    ensures OfFace(items, f, false) == OfFace(Without(items, i), f, false)
  {
    var a, b := items[..i], items[i + 1..];
    assert items == a + [items[i]] + b;
    OfFaceNone(a, f);
    assert [items[i]][..0] == [];
    forall yes: bool ensures OfFace(items, f, yes) == OfFace(a, f, yes) + OfFace([items[i]], f, yes) + OfFace(b, f, yes) {
      OfFaceConcat(a + [items[i]], b, f, yes);
      OfFaceConcat(a, [items[i]], f, yes);
      OfFaceConcat(a, b, f, yes);
    }
    OfFaceConcat(a, b, f, true);
    OfFaceConcat(a, b, f, false);
    assert OfFace([items[i]], f, true) == [items[i]] && OfFace([items[i]], f, false) == [];
  }

  /** Where the round robin of a face starts. */
  function StartOf(l: Local, f: FaceId): nat
    requires PrefixesOf(l, f) != []
  {
    (if f in l.resume then l.resume[f] else 0) % |PrefixesOf(l, f)|
  }

  /** The k-th prefix of the round robin is the first with work for the face, and item i is its
      oldest. */
  ghost predicate NextUp(l: Local, f: FaceId, k: nat, p: Prefix, i: nat) {
    var ps := PrefixesOf(l, f);
    && k < |ps|
    && p == ps[TurnIndex(StartOf(l, f), k, |ps|)] && p in l.queues && IsFirst(l.queues[p], i, f)
    && forall j: nat :: j < k ==> Count(QueueOf(l.queues, ps[TurnIndex(StartOf(l, f), j, |ps|)]), f) == 0
  }

  /** The thread's state once that item has been taken. */
  function Taken(l: Local, f: FaceId, k: nat, p: Prefix, i: nat): Local
    requires p in l.queues && i < |l.queues[p]| && k < |PrefixesOf(l, f)|
  {
    var at := TurnIndex(StartOf(l, f), k, |PrefixesOf(l, f)|);
    l.(queues := l.queues[p := Without(l.queues[p], i)], resume := l.resume[f := at + 1])
  }

  method FindFirst(items: seq<Item>, thread: nat, f: FaceId) returns (i: nat)
    requires forall j :: 0 <= j < |items| ==> items[j].owner == thread
    ensures i == |items| || IsFirst(items, i, f)
    ensures i == |items| ==> Count(items, f) == 0
  {
    i := 0;
    while i < |items| && !(items[i].owner == thread && items[i].face == f)
      invariant i <= |items| && forall j :: 0 <= j < i ==> items[j].face != f
    {
      i := i + 1;
    }
    CountNone(items, f);
  }

  /** dequeueDtInterestForFaceRR, up to the counters: nothing is found only if nothing is pending. */
  method Dequeue(l: Local, thread: nat, f: FaceId) returns (found: bool, ghost k: nat, p: Prefix, item: Item, ghost i: nat, l': Local)
    requires Indexed(l, thread) && IndexOk(l) && f != 0
    ensures found ==> NextUp(l, f, k, p, i) && item == l.queues[p][i] && l' == Taken(l, f, k, p, i)
    ensures !found ==> l' == l && Pending(l.queues, f) == 0
  {
    hide Pending, Count;
    found, p, item, l' := false, "", Item(0, 0, [], 0), l;
    k, i := 0, 0;
    var ps := PrefixesOf(l, f);
    if ps == [] {
      assert Pending(l.queues, f) == 0 by { NothingIndexed(l, thread, f); }
      return;
    }
    var start := (if f in l.resume then l.resume[f] else 0) % |ps|;
    for t := 0 to |ps|
      invariant forall j: nat :: j < t ==> Count(QueueOf(l.queues, ps[TurnIndex(start, j, |ps|)]), f) == 0
    {
      var index := TurnIndex(start, t, |ps|);
      var queue := QueueOf(l.queues, ps[index]);
      CountNone([], f);
      if queue != [] {
        assert ps[index] in l.queues;
        var first := FindFirst(queue, thread, f);
        if first < |queue| {
          found, p, item := true, ps[index], queue[first];
          k, i := t, first;
          l' := l.(queues := l.queues[p := queue[..first] + queue[first + 1..]], resume := l.resume[f := index + 1]);
          return;
        }
      }
    }
    forall x | x in ps ensures Count(QueueOf(l.queues, x), f) == 0 {
      var at :| 0 <= at < |ps| && ps[at] == x;
      var j := if at >= start then at - start else at + |ps| - start;
      assert TurnIndex(start, j, |ps|) == at;
    }
    NothingIndexed(l, thread, f);
  }

  /** A face without work in the indexed prefixes has no work at all. */
  lemma NothingIndexed(l: Local, thread: nat, f: FaceId)
    requires Indexed(l, thread) && f != 0
    requires forall p :: p in PrefixesOf(l, f) ==> Count(QueueOf(l.queues, p), f) == 0
    ensures Pending(l.queues, f) == 0
  {
    forall p | p in l.queues ensures Count(QueueOf(l.queues, p), f) == 0 {
      CountNone(l.queues[p], f);
    }
    PendingNone(l.queues, l.queues.Keys, f);
  }

  lemma TakenAgrees(l: Local, demand: map<FaceId, nat>, thread: nat, f: FaceId, k: nat, p: Prefix, i: nat)
    requires Agrees(l, demand, thread) && f != 0 && NextUp(l, f, k, p, i)
    ensures Agrees(Taken(l, f, k, p, i), Noted(demand, f, -1), thread)
    ensures Pending(l.queues, f) == Pending(Taken(l, f, k, p, i).queues, f) + 1
  {
    hide Pending, Indexed, Count;
    var items, l' := l.queues[p], Taken(l, f, k, p, i);
    QueueItemsOk(l, thread, p);
    var rest := Without(items, i);
    forall j | 0 <= j < |rest| ensures ItemOk(l, thread, p, rest[j]) {
      assert rest[j] == QueueOf(l.queues, p)[if j < i then j else j + 1];
    }
    IndexedSet(l, thread, p, rest);
    assert Indexed(l', thread) by { IndexedResume(l.(queues := l'.queues), l', thread); }
    forall g: FaceId ensures Pending(l.queues, g) == Pending(l'.queues, g) + if g == f then 1 else 0 {
      PendingUpdate(l.queues, p, Without(items, i), g);
      CountAt(items, i, g);
      CountConcat(items[..i], items[i + 1..], g);
    }
    forall g: FaceId | g != 0 ensures DemandOf(Noted(demand, f, -1), g) == Pending(l'.queues, g) {
      assert DemandOf(demand, g) == Pending(l.queues, g);
    }
  }

  lemma IndexedResume(l: Local, l': Local, thread: nat)
    requires Indexed(l, thread) && l' == l.(resume := l'.resume)
    ensures Indexed(l', thread)
  {
    SamePrefixes(l, l');
  }

  // ----- Reassignment after a face failure -----

  /** dtFilterFacesWithoutFailure */
  function Surviving(faces: seq<FaceId>, blocked: FaceId): (r: seq<FaceId>)
    ensures blocked !in r && forall f :: f != blocked ==> (f in r <==> f in faces)
  {
    if faces == [] then []
    else
      var rest := Surviving(faces[..|faces| - 1], blocked);
      assert faces == faces[..|faces| - 1] + [faces[|faces| - 1]];
      if faces[|faces| - 1] == blocked then rest else rest + [faces[|faces| - 1]]
  }

  /** Where an item of a failed face may go: its own candidates, else the valid faces of the prefix. */
  function Alternatives(item: Item, blocked: FaceId, fallback: seq<FaceId>): seq<FaceId> {
    var own := Surviving(item.candidates, blocked);
    if own == [] then Surviving(fallback, blocked) else own
  }

  /** The item after reassignment: only items of the failed face move, and those move whenever
      there is somewhere to go. */
  ghost predicate Rerouted(a: Item, b: Item, blocked: FaceId, fallback: seq<FaceId>) {
    var alts := Alternatives(a, blocked, fallback);
    if a.face != blocked || alts == [] then b == a
    else exists f: FaceId :: f in alts && b == if f == 0 then a else a.(candidates := alts, face := f)
  }

  lemma ReplacedAgrees(l: Local, demand: map<FaceId, nat>, thread: nat, p: Prefix, i: nat, item: Item)
    requires Agrees(l, demand, thread) && p in l.queues && i < |l.queues[p]| && item.owner == thread
    requires l.queues[p][i].face != 0 && item.face != 0
    ensures var l1 := l.(queues := l.queues[p := l.queues[p][i := item]]);
      Agrees(Eligible(l1, item.face, p), Noted(Noted(demand, l.queues[p][i].face, -1), item.face, 1), thread)
  {
    hide Pending, Indexed, Count, PrefixesOf;
    var items, was := l.queues[p], l.queues[p][i].face;
    var changed := items[i := item];
    forall g: FaceId
      ensures Pending(l.queues[p := changed], g) + (if g == was then 1 else 0) == Pending(l.queues, g) + if g == item.face then 1 else 0
    {
      PendingUpdate(l.queues, p, changed, g);
      CountAt(items, i, g);
      CountAt(changed, i, g);
      assert changed[..i] == items[..i] && changed[i + 1..] == items[i + 1..];
    }
    EligibleKeeps(l, item.face, p, thread);
    var l2 := Eligible(l, item.face, p);
    QueueItemsOk(l2, thread, p);
    forall j | 0 <= j < |changed| ensures ItemOk(l2, thread, p, changed[j]) {
      if j == i {
        assert changed[j] == item && p in PrefixesOf(l2, item.face);
      } else {
        assert changed[j] == items[j] == QueueOf(l2.queues, p)[j];
      }
    }
    IndexedSet(l2, thread, p, changed);
    EligibleCommutes(l, item.face, p, changed);
    var l', d' := Eligible(l.(queues := l.queues[p := changed]), item.face, p), Noted(Noted(demand, was, -1), item.face, 1);
    assert l' == l2.(queues := l.queues[p := changed]) && IndexOk(l');
    assert DemandOf(demand, was) == Pending(l.queues, was);
    assert Pending(l.queues, was) >= 1 by { PendingAtLeast(l.queues, p, i); }
    forall g: FaceId | g != 0 ensures DemandOf(d', g) == Pending(l'.queues, g) {
      assert DemandOf(demand, g) == Pending(l.queues, g);
    }
  }

  lemma PendingAtLeast(q: Queues, p: Prefix, i: nat)
    requires p in q && i < |q[p]|
    ensures Pending(q, q[p][i].face) >= 1
  {
    PendingOut(q, q.Keys, q[p][i].face, p);
    CountAt(q[p], i, q[p][i].face);
  }

  ghost predicate QueueRerouted(a: seq<Item>, b: seq<Item>, blocked: FaceId, fallback: seq<FaceId>) {
    |a| == |b| && forall i :: 0 <= i < |a| ==> Rerouted(a[i], b[i], blocked, fallback)
  }

  /** The inner loop of reassignLocalDtInterestsFromFailedFace, for one prefix. */
  method ReassignQueue(l0: Local, d0: map<FaceId, nat>, thread: nat, p: Prefix, blocked: FaceId, fallback: seq<FaceId>)
    returns (l: Local, d: map<FaceId, nat>)
    requires Agrees(l0, d0, thread) && p in l0.queues && blocked != 0
    ensures Agrees(l, d, thread) && l.queues.Keys == l0.queues.Keys
    ensures QueueRerouted(l0.queues[p], l.queues[p], blocked, fallback)
    ensures forall x :: x in l.queues && x != p ==> l.queues[x] == l0.queues[x]
  {
    hide Counted, Indexed, Rerouted, PrefixesOf, IndexOk;
    l, d := l0, d0;
    for i := 0 to |l0.queues[p]|
      invariant Agrees(l, d, thread) && l.queues.Keys == l0.queues.Keys
      invariant |l.queues[p]| == |l0.queues[p]|
      invariant forall j :: 0 <= j < i ==> Rerouted(l0.queues[p][j], l.queues[p][j], blocked, fallback)
      invariant forall j :: i <= j < |l0.queues[p]| ==> l.queues[p][j] == l0.queues[p][j]
      invariant forall x :: x in l.queues && x != p ==> l.queues[x] == l0.queues[x]
    {
      var item := l.queues[p][i];
      assert item.owner == thread by { QueueItemsOk(l, thread, p); assert ItemOk(l, thread, p, QueueOf(l.queues, p)[i]); }
      StaysRerouted(item, blocked, fallback);
      if item.face == blocked {
        var alts := Alternatives(item, blocked, fallback);
        if alts != [] {
          var f :| f in alts by { assert alts[0] in alts; }
          MovesRerouted(item, blocked, fallback, f);
          if f != 0 {
            ReplacedAgrees(l, d, thread, p, i, item.(candidates := alts, face := f));
            d := Noted(Noted(d, blocked, -1), f, 1);
            ghost var before := l.queues;
            l := l.(queues := l.queues[p := l.queues[p][i := item.(candidates := alts, face := f)]]);
            ghost var after := l.queues;
            l := Eligible(l, f, p);
            assert l.queues == after;
          }
        }
      }
    }
  }

  /** reassignLocalDtInterestsFromFailedFace on the queues of one thread. */
  method ReassignAll(l0: Local, d0: map<FaceId, nat>, thread: nat, blocked: FaceId, fallback: map<Prefix, seq<FaceId>>)
    returns (l: Local, d: map<FaceId, nat>)
    requires Agrees(l0, d0, thread) && blocked != 0
    ensures Agrees(l, d, thread) && l.queues.Keys == l0.queues.Keys
    ensures forall p :: p in l.queues ==>
      QueueRerouted(l0.queues[p], l.queues[p], blocked, if p in fallback then fallback[p] else [])
  {
    hide Agrees, QueueRerouted;
    l, d := l0, d0;
    var todo := l.queues.Keys;
    while todo != {}
      invariant todo <= l.queues.Keys == l0.queues.Keys && Agrees(l, d, thread)
      invariant forall p :: p in todo ==> l.queues[p] == l0.queues[p]
      invariant forall p :: p in l.queues && p !in todo ==>
        QueueRerouted(l0.queues[p], l.queues[p], blocked, if p in fallback then fallback[p] else [])
      decreases todo
    {
      var p :| p in todo;
      l, d := ReassignQueue(l, d, thread, p, blocked, if p in fallback then fallback[p] else []);
      todo := todo - {p};
    }
  }

  lemma StaysRerouted(a: Item, blocked: FaceId, fallback: seq<FaceId>)
    ensures a.face != blocked || Alternatives(a, blocked, fallback) == [] ==> Rerouted(a, a, blocked, fallback)
  {
  }

  lemma MovesRerouted(a: Item, blocked: FaceId, fallback: seq<FaceId>, f: FaceId)
    requires a.face == blocked && f in Alternatives(a, blocked, fallback)
    ensures Rerouted(a, if f == 0 then a else a.(candidates := Alternatives(a, blocked, fallback), face := f), blocked, fallback)
  {
  }

  // ----- All threads -----

  function LengthOf(lens: map<Prefix, int>, p: Prefix): int {
    if p in lens then lens[p] else 0
  }

  /** Items queued under a prefix by all threads. */
  function TotalLength(locals: seq<Local>, p: Prefix): nat {
    if locals == [] then 0 else TotalLength(locals[..|locals| - 1], p) + |QueueOf(locals[|locals| - 1].queues, p)|
  }

  lemma {:induction false} TotalLengthUpdate(locals: seq<Local>, t: nat, l: Local, p: Prefix)
    requires t < |locals|
    ensures TotalLength(locals[t := l], p) + |QueueOf(locals[t].queues, p)| == TotalLength(locals, p) + |QueueOf(l.queues, p)|
  {
    var k := |locals| - 1;
    if t < k {
      TotalLengthUpdate(locals[..k], t, l, p);
      assert locals[t := l][..k] == locals[..k][t := l];
    } else {
      assert locals[t := l][..k] == locals[..k];
    }
  }

  /** What has been sent out of a prefix. */
  function SentOf(sent: seq<(Prefix, Item)>, p: Prefix): seq<Item> {
    if sent == [] then []
    else SentOf(sent[..|sent| - 1], p) + if sent[|sent| - 1].0 == p then [sent[|sent| - 1].1] else []
  }

  /** First in, first out per prefix and face: what was sent is the head of what was queued for the
      face, and nothing else moved. */
  ghost predicate Fifo(before: Queues, sent: seq<(Prefix, Item)>, after: Queues, f: FaceId) {
    forall p: Prefix ::
      && SentOf(sent, p) + OfFace(QueueOf(after, p), f, true) == OfFace(QueueOf(before, p), f, true)
      && OfFace(QueueOf(after, p), f, false) == OfFace(QueueOf(before, p), f, false)
  }

  lemma FifoStep(before: Queues, sent: seq<(Prefix, Item)>, l: Local, f: FaceId, k: nat, p: Prefix, i: nat)
    requires Fifo(before, sent, l.queues, f) && NextUp(l, f, k, p, i)
    ensures Fifo(before, sent + [(p, l.queues[p][i])], Taken(l, f, k, p, i).queues, f)
  {
    hide OfFace, Count;
    var items, more, after := l.queues[p], sent + [(p, l.queues[p][i])], Taken(l, f, k, p, i).queues;
    TakeFirst(items, i, f);
    assert more[..|sent|] == sent;
    forall x: Prefix
      ensures SentOf(more, x) + OfFace(QueueOf(after, x), f, true) == OfFace(QueueOf(before, x), f, true)
        && OfFace(QueueOf(after, x), f, false) == OfFace(QueueOf(before, x), f, false)
    {
      assert SentOf(sent, x) + OfFace(QueueOf(l.queues, x), f, true) == OfFace(QueueOf(before, x), f, true);
      if x == p {
        assert SentOf(sent, x) + ([items[i]] + OfFace(Without(items, i), f, true))
               == SentOf(sent, x) + [items[i]] + OfFace(Without(items, i), f, true);
      }
    }
  }

  // ----- Taking turns -----

  /** The prefixes with work for a face. */
  function Working(l: Local, f: FaceId): set<Prefix> {
    set p | p in l.queues && Count(l.queues[p], f) > 0
  }

  /** The prefixes served, in order. */
  function OrderOf(sent: seq<(Prefix, Item)>): seq<Prefix> {
    seq(|sent|, i requires 0 <= i < |sent| => sent[i].0)
  }

  ghost predicate InTurn(l: Local, f: FaceId, sent: seq<(Prefix, Item)>) {
    (PrefixesOf(l, f) != [] ==> Ahead(PrefixesOf(l, f), StartOf(l, f), Working(l, f), OrderOf(sent)))
    && TakeTurns(OrderOf(sent), Working(l, f))
  }

  lemma TakenCounts(l: Local, f: FaceId, k: nat, p: Prefix, i: nat)
    requires NextUp(l, f, k, p, i)
    ensures Working(Taken(l, f, k, p, i), f) <= Working(l, f) && p in Working(l, f)
  {
    var items := l.queues[p];
    CountAt(items, i, f);
    CountConcat(items[..i], items[i + 1..], f);
  }

  lemma NextIsFirst(l: Local, f: FaceId, k: nat, p: Prefix, i: nat)
    requires NextUp(l, f, k, p, i)
    ensures var ps := PrefixesOf(l, f);
      ps != [] && IsNext(ps, StartOf(l, f), Working(l, f), k) && ps[TurnIndex(StartOf(l, f), k, |ps|)] == p
  {
    hide Count;
    TakenCounts(l, f, k, p, i);
    var ps, start := PrefixesOf(l, f), StartOf(l, f);
    forall j: nat | j < k ensures ps[TurnIndex(start, j, |ps|)] !in Working(l, f) {
      assert Count(QueueOf(l.queues, ps[TurnIndex(start, j, |ps|)]), f) == 0;
    }
  }

  lemma NextStart(l: Local, f: FaceId, k: nat, p: Prefix, i: nat)
    requires NextUp(l, f, k, p, i)
    ensures var l', ps := Taken(l, f, k, p, i), PrefixesOf(l, f);
      PrefixesOf(l', f) == ps != [] && StartOf(l', f) == After(TurnIndex(StartOf(l, f), k, |ps|), |ps|)
  {
    var n := |PrefixesOf(l, f)|;
    NextMod(TurnIndex(StartOf(l, f), k, n), n);
  }

  lemma NextMod(at: nat, n: nat)
    requires at < n
    ensures (at + 1) % n == After(at, n)
  {
    if at + 1 < n {
      SmallMod(at + 1, n);
    }
  }

  lemma SmallMod(x: nat, n: nat)
    requires x < n
    ensures x % n == x
  {
  }

  lemma InTurnStep(l: Local, f: FaceId, k: nat, p: Prefix, i: nat, sent: seq<(Prefix, Item)>)
    requires NextUp(l, f, k, p, i) && IndexOk(l) && InTurn(l, f, sent)
    requires forall x :: x in Working(l, f) ==> x in PrefixesOf(l, f)
    ensures InTurn(Taken(l, f, k, p, i), f, sent + [(p, l.queues[p][i])])
  {
    IndexDistinct(l, f);
    NextIsFirst(l, f, k, p, i);
    NextStart(l, f, k, p, i);
    TakenCounts(l, f, k, p, i);
    var item := l.queues[p][i];
    hide NextUp, Taken, Working, Ahead, TakeTurns, StartOf, PrefixesOf, IsNext, Distinct, TurnIndex, After, IndexOk;
    assert OrderOf(sent + [(p, item)]) == OrderOf(sent) + [p];
    Serve(PrefixesOf(l, f), StartOf(l, f), Working(l, f), k, OrderOf(sent), Working(Taken(l, f, k, p, i), f));
  }

  lemma InTurnMeans(l: Local, f: FaceId, sent: seq<(Prefix, Item)>)
    requires InTurn(l, f, sent)
    ensures TakeTurns(OrderOf(sent), Working(l, f))
  {
  }

  lemma InTurnFirst(l: Local, f: FaceId)
    ensures InTurn(l, f, [])
  {
    if PrefixesOf(l, f) != [] {
      NobodyServed(PrefixesOf(l, f), StartOf(l, f), Working(l, f));
    }
  }

  lemma WorkIsIndexed(l: Local, thread: nat, f: FaceId)
    requires Indexed(l, thread) && f != 0
    ensures forall x :: x in Working(l, f) ==> x in PrefixesOf(l, f)
  {
    forall x | x in Working(l, f) ensures x in PrefixesOf(l, f) {
      CountNone(l.queues[x], f);
    }
  }

  lemma IndexDistinct(l: Local, f: FaceId)
    requires IndexOk(l)
    ensures Distinct(PrefixesOf(l, f))
  {
  }

  class Scheduler {
    var locals: seq<Local>
    /** Demand per thread and face. */
    var demand: seq<map<FaceId, nat>>
    var lengths: map<Prefix, int>

    /** Counters, index and global lengths agree with the queues of every thread. */
    ghost predicate Valid()
      reads this
    {
      && |locals| == |demand|
      && (forall t :: 0 <= t < |locals| ==> Agrees(locals[t], demand[t], t))
      && (forall p: Prefix :: LengthOf(lengths, p) == TotalLength(locals, p))
    }

    constructor (n: nat)
      ensures Valid() && |locals| == n && forall t :: 0 <= t < n ==> locals[t].queues == map[]
    {
      locals, demand, lengths := seq(n, _ => Local(map[], map[], [], map[])), seq(n, _ => map[]), map[];
      new;
      forall p: Prefix ensures TotalLength(locals, p) == 0 { NothingQueued(locals, p); }
      assert forall t :: 0 <= t < n ==> Agrees(locals[t], demand[t], t);
    }

    /** noteDtGlobalPrefixQueue */
    method NoteGlobal(p: Prefix, delta: int) returns (length: int)
      modifies this`lengths
      ensures lengths == old(lengths)[p := length]
      ensures length == if LengthOf(old(lengths), p) + delta < 0 then 0 else LengthOf(old(lengths), p) + delta
    {
      length := LengthOf(lengths, p) + delta;
      if length < 0 {
        length := 0;
      }
      lengths := lengths[p := length];
    }

    /** enqueueLocalDtInterest: the item goes to the end of its queue, and no other queue changes. */
    method Enqueue(thread: nat, p: Prefix, item: Item) returns (localLen: nat, globalLen: int)
      requires Valid() && thread < |locals| && item.owner == thread
      modifies this
      ensures Valid() && |locals| == |old(locals)|
      ensures p in locals[thread].queues && locals[thread].queues[p] == QueueOf(old(locals)[thread].queues, p) + [item]
      ensures forall x: Prefix :: x != p ==> QueueOf(locals[thread].queues, x) == QueueOf(old(locals)[thread].queues, x)
      ensures forall t :: 0 <= t < |locals| && t != thread ==> locals[t] == old(locals)[t]
      ensures locals == old(locals)[thread := Enqueued(old(locals)[thread], p, item)]
      ensures localLen == |QueueOf(locals[thread].queues, p)| && globalLen == TotalLength(locals, p)
    {
      hide Agrees, Eligible;
      ghost var before := locals;
      var l := locals[thread];
      EnqueuedAgrees(l, demand[thread], thread, p, item);
      l := l.(queues := l.queues[p := QueueOf(l.queues, p) + [item]]);
      localLen := |l.queues[p]|;
      globalLen := NoteGlobal(p, 1);
      if item.face != 0 {
        EligibleQueues(l, item.face, p);
        l := Eligible(l, item.face, p);
        demand := demand[thread := Noted(demand[thread], item.face, 1)];
      }
      locals := locals[thread := l];
      forall x: Prefix ensures LengthOf(lengths, x) == TotalLength(locals, x) {
        TotalLengthUpdate(before, thread, l, x);
      }
    }

    /** localPendingInterestsForFace: the demand counter is the number of queued items. */
    method PendingFor(thread: nat, f: FaceId) returns (pending: nat)
      requires Valid() && thread < |locals| && f != 0
      ensures pending == Pending(locals[thread].queues, f)
    {
      hide Pending;
      assert Agrees(locals[thread], demand[thread], thread);
      pending := DemandOf(demand[thread], f);
    }

    /** One step of the sending loop: dequeueLocalDtInterest and its accounting. */
    method SendOne(thread: nat, f: FaceId) returns (found: bool, p: Prefix, item: Item, ghost k: nat, ghost i: nat)
      requires Valid() && thread < |locals| && f != 0
      modifies this
      ensures Valid()
      ensures !found ==> locals == old(locals) && Pending(locals[thread].queues, f) == 0
      ensures found ==>
        && NextUp(old(locals)[thread], f, k, p, i) && item == old(locals)[thread].queues[p][i]
        && locals == old(locals)[thread := Taken(old(locals)[thread], f, k, p, i)]
        && Pending(old(locals)[thread].queues, f) == Pending(locals[thread].queues, f) + 1
    {
      hide Agrees, Pending, OfFace, NextUp, Taken;
      ghost var before := locals;
      AgreesParts(locals[thread], demand[thread], thread);
      var l;
      found, k, p, item, i, l := Dequeue(locals[thread], thread, f);
      if !found {
        return;
      }
      TakenAgrees(locals[thread], demand[thread], thread, f, k, p, i);
      TakenLengths(before[thread], f, k, p, i);
      locals := locals[thread := l];
      var length := NoteGlobal(p, -1);
      demand := demand[thread := Noted(demand[thread], f, -1)];
      forall x: Prefix ensures LengthOf(lengths, x) == TotalLength(locals, x) {
        TotalLengthUpdate(before, thread, l, x);
      }
    }

    /** The sending loop of drainDtInterestForFace: exactly min(budget, pending) items leave, first
        in, first out per prefix, and the prefixes take turns. */
    method Drain(thread: nat, f: FaceId, budget: nat) returns (sent: seq<(Prefix, Item)>)
      requires Valid() && thread < |locals| && f != 0
      modifies this
      ensures Valid() && |locals| == |old(locals)|
      ensures |sent| == var pending := Pending(old(locals)[thread].queues, f); if budget < pending then budget else pending
      ensures Fifo(old(locals)[thread].queues, sent, locals[thread].queues, f)
      ensures TakeTurns(OrderOf(sent), Working(locals[thread], f))
      ensures forall t :: 0 <= t < |locals| && t != thread ==> locals[t] == old(locals)[t]
    {
      hide Agrees, Pending, OfFace, NextUp, Taken, Fifo, InTurn, Indexed, IndexOk, Count;
      sent := [];
      ghost var start := locals;
      FifoNone(start[thread].queues, f);
      InTurnFirst(start[thread], f);
      while |sent| < budget
        invariant Valid() && |locals| == |start| && |sent| <= budget
        invariant |sent| + Pending(locals[thread].queues, f) == Pending(start[thread].queues, f)
        invariant Fifo(start[thread].queues, sent, locals[thread].queues, f)
        invariant InTurn(locals[thread], f, sent)
        invariant forall t :: 0 <= t < |locals| && t != thread ==> locals[t] == start[t]
        decreases budget - |sent|
      {
        ghost var before := locals;
        AgreesParts(locals[thread], demand[thread], thread);
        WorkIsIndexed(locals[thread], thread, f);
        var found, p, item, k, i := SendOne(thread, f);
        if !found {
          break;
        }
        FifoStep(start[thread].queues, sent, before[thread], f, k, p, i);
        InTurnStep(before[thread], f, k, p, i, sent);
        sent := sent + [(p, item)];
      }
      InTurnMeans(locals[thread], f, sent);
    }

    /** reassignLocalDtInterestsFromFailedFace; `fallback` gives the valid faces of each prefix. */
    method Reassign(thread: nat, blocked: FaceId, fallback: map<Prefix, seq<FaceId>>)
      requires Valid() && thread < |locals|
      modifies this`locals, this`demand
      ensures Valid() && |locals| == |old(locals)|
      ensures locals[thread].queues.Keys == old(locals)[thread].queues.Keys
      ensures blocked == 0 ==> locals == old(locals)
      ensures blocked != 0 ==> forall p :: p in locals[thread].queues ==>
        QueueRerouted(old(locals)[thread].queues[p], locals[thread].queues[p], blocked, if p in fallback then fallback[p] else [])
      ensures forall t :: 0 <= t < |locals| && t != thread ==> locals[t] == old(locals)[t]
    {
      hide Agrees, QueueRerouted;
      if blocked == 0 {
        return;
      }
      ghost var start := locals;
      var l, d := ReassignAll(locals[thread], demand[thread], thread, blocked, fallback);
      locals, demand := locals[thread := l], demand[thread := d];
      forall x: Prefix ensures TotalLength(locals, x) == TotalLength(start, x) {
        TotalLengthUpdate(start, thread, l, x);
        if x in l.queues {
          ReroutedLength(start[thread].queues[x], l.queues[x], blocked, if x in fallback then fallback[x] else []);
        }
      }
    }
  }

  // ----- Order of arrival -----

  datatype Operation =
    | Put(thread: nat, prefix: Prefix, item: Item)
    | Send(thread: nat, face: FaceId, budget: nat)

  predicate CanRun(op: Operation, threads: nat) {
    op.thread < threads && (op.Put? ==> op.item.owner == op.thread) && (op.Send? ==> op.face != 0)
  }

  /** What arrived in a thread for a prefix and face, in order. */
  function Arrived(ops: seq<Operation>, t: nat, p: Prefix, f: FaceId): seq<Item> {
    if ops == [] then []
    else
      var op := ops[|ops| - 1];
      Arrived(ops[..|ops| - 1], t, p, f)
      + if op.Put? && op.thread == t && op.prefix == p && op.item.face == f then [op.item] else []
  }

  datatype Sent = Sent(thread: nat, prefix: Prefix, item: Item)

  /** What a thread has sent for a prefix and face, in order. */
  function Left(log: seq<Sent>, t: nat, p: Prefix, f: FaceId): seq<Item> {
    if log == [] then []
    else
      var s := log[|log| - 1];
      Left(log[..|log| - 1], t, p, f) + if s.thread == t && s.prefix == p && s.item.face == f then [s.item] else []
  }

  function Tagged(t: nat, sent: seq<(Prefix, Item)>): seq<Sent> {
    seq(|sent|, i requires 0 <= i < |sent| => Sent(t, sent[i].0, sent[i].1))
  }

  /** What arrived is what was sent, followed by what is still queued. */
  ghost predicate InOrder(locals: seq<Local>, ops: seq<Operation>, log: seq<Sent>) {
    forall t: nat, p: Prefix, f: FaceId :: t < |locals| ==> InOrderAt(locals[t].queues, ops, log, t, p, f)
  }

  ghost predicate InOrderAt(q: Queues, ops: seq<Operation>, log: seq<Sent>, t: nat, p: Prefix, f: FaceId) {
    f != 0 ==> Arrived(ops, t, p, f) == Left(log, t, p, f) + OfFace(QueueOf(q, p), f, true)
  }

  lemma {:induction false} OfFaceOnly(items: seq<Item>, f: FaceId, yes: bool)
    ensures forall i :: 0 <= i < |OfFace(items, f, yes)| ==> (OfFace(items, f, yes)[i].face == f) == yes
  {
    if items != [] {
      OfFaceOnly(items[..|items| - 1], f, yes);
    }
  }

  /** Leaving out the items of one face keeps those of another. */
  lemma {:induction false} OtherFace(items: seq<Item>, f: FaceId, g: FaceId)
    requires f != g
    ensures OfFace(OfFace(items, f, false), g, true) == OfFace(items, g, true)
  {
    if items != [] {
      var init, last := items[..|items| - 1], items[|items| - 1];
      OtherFace(init, f, g);
      var tail := if (last.face == f) == false then [last] else [];
      OfFaceConcat(OfFace(init, f, false), tail, g, true);
      assert [last][..0] == [];
      assert tail != [] ==> OfFace(tail, g, true) == if last.face == g then [last] else [];
    }
  }

  lemma {:induction false} LeftConcat(a: seq<Sent>, b: seq<Sent>, t: nat, p: Prefix, f: FaceId)
    ensures Left(a + b, t, p, f) == Left(a, t, p, f) + Left(b, t, p, f)
  {
    if b == [] {
      assert a + b == a;
    } else {
      LeftConcat(a, b[..|b| - 1], t, p, f);
      assert (a + b)[..|a + b| - 1] == a + b[..|b| - 1];
    }
  }

  lemma {:induction false} LeftTagged(u: nat, sent: seq<(Prefix, Item)>, t: nat, p: Prefix, f: FaceId, g: FaceId)
    requires forall i :: 0 <= i < |sent| ==> sent[i].1.face == f
    ensures Left(Tagged(u, sent), t, p, g) == if t == u && g == f then SentOf(sent, p) else []
  {
    if sent != [] {
      var k := |sent| - 1;
      LeftTagged(u, sent[..k], t, p, f, g);
      assert Tagged(u, sent)[..k] == Tagged(u, sent[..k]);
    }
  }

  lemma {:induction false} InSentOf(sent: seq<(Prefix, Item)>, i: nat)
    requires i < |sent|
    ensures sent[i].1 in SentOf(sent, sent[i].0)
  {
    if i < |sent| - 1 {
      InSentOf(sent[..|sent| - 1], i);
    }
  }

  /** A drain sends items of its face only. */
  lemma FifoFace(before: Queues, sent: seq<(Prefix, Item)>, after: Queues, f: FaceId)
    requires Fifo(before, sent, after, f)
    ensures forall i :: 0 <= i < |sent| ==> sent[i].1.face == f
  {
    hide OfFace;
    forall i | 0 <= i < |sent| ensures sent[i].1.face == f {
      var p := sent[i].0;
      InSentOf(sent, i);
      OfFaceOnly(QueueOf(before, p), f, true);
      var j :| 0 <= j < |SentOf(sent, p)| && SentOf(sent, p)[j] == sent[i].1;
      assert (SentOf(sent, p) + OfFace(QueueOf(after, p), f, true))[j] == sent[i].1;
    }
  }

  lemma SendInOrder(before: Queues, sent: seq<(Prefix, Item)>, after: Queues, f: FaceId, ops: seq<Operation>, op: Operation,
                    log: seq<Sent>, t: nat, p: Prefix, g: FaceId)
    requires Fifo(before, sent, after, f) && op.Send? && InOrderAt(before, ops, log, t, p, g)
    ensures InOrderAt(after, ops + [op], log + Tagged(t, sent), t, p, g)
  {
    hide OfFace, SentOf;
    FifoFace(before, sent, after, f);
    assert (ops + [op])[..|ops|] == ops;
    LeftConcat(log, Tagged(t, sent), t, p, g);
    LeftTagged(t, sent, t, p, f, g);
    assert Left(log, t, p, g) + [] == Left(log, t, p, g) && Arrived(ops, t, p, g) + [] == Arrived(ops, t, p, g);
    if g == f {
      assert Left(log, t, p, g) + (SentOf(sent, p) + OfFace(QueueOf(after, p), f, true))
             == Left(log, t, p, g) + SentOf(sent, p) + OfFace(QueueOf(after, p), f, true);
    } else {
      OtherFace(QueueOf(before, p), f, g);
      OtherFace(QueueOf(after, p), f, g);
    }
  }

  lemma OfFaceAppend(items: seq<Item>, item: Item, f: FaceId)
    ensures OfFace(items + [item], f, true) == OfFace(items, f, true) + if item.face == f then [item] else []
  {
    assert (items + [item])[..|items|] == items;
  }

  lemma PutInOrder(before: Queues, after: Queues, ops: seq<Operation>, op: Operation, log: seq<Sent>, t: nat, p: Prefix, f: FaceId)
    requires op.Put? && InOrderAt(before, ops, log, t, p, f)
    requires QueueOf(after, p) == if op.thread == t && op.prefix == p then QueueOf(before, p) + [op.item] else QueueOf(before, p)
    ensures InOrderAt(after, ops + [op], log, t, p, f)
  {
    hide Left, OfFace, QueueOf;
    assert (ops + [op])[..|ops|] == ops;
    var left, queue := Left(log, t, p, f), QueueOf(before, p);
    OfFaceAppend(queue, op.item, f);
    var items := OfFace(queue, f, true);
    assert Arrived(ops, t, p, f) + [] == Arrived(ops, t, p, f) && items + [] == items;
    assert left + items + [op.item] == left + (items + [op.item]);
  }

  /** Any mix of arrivals and drains in any number of threads: per thread, prefix and face, what was
      sent is an initial part of what arrived, in order of arrival, and the rest is still queued. */
  method Operate(threads: nat, ops: seq<Operation>) returns (s: Scheduler, log: seq<Sent>)
    requires forall i :: 0 <= i < |ops| ==> CanRun(ops[i], threads)
    ensures fresh(s) && s.Valid() && |s.locals| == threads
    ensures forall t: nat, p: Prefix, f: FaceId :: t < threads && f != 0 ==>
      Left(log, t, p, f) <= Arrived(ops, t, p, f)
      && Arrived(ops, t, p, f)[|Left(log, t, p, f)|..] == OfFace(QueueOf(s.locals[t].queues, p), f, true)
  {
    hide Arrived, Left, OfFace, Fifo, Agrees;
    s := new Scheduler(threads);
    log := [];
    StartInOrder(s.locals);
    assert ops[..0] == [];
    for i := 0 to |ops|
      invariant fresh(s) && s.Valid() && |s.locals| == threads && InOrder(s.locals, ops[..i], log)
    {
      assert ops[..i + 1] == ops[..i] + [ops[i]];
      log := RunOne(s, ops[i], ops[..i], log);
    }
    assert ops[..|ops|] == ops;
    forall t: nat, p: Prefix, f: FaceId | t < threads && f != 0
      ensures Left(log, t, p, f) <= Arrived(ops, t, p, f)
        && Arrived(ops, t, p, f)[|Left(log, t, p, f)|..] == OfFace(QueueOf(s.locals[t].queues, p), f, true)
    {
      assert InOrderAt(s.locals[t].queues, ops, log, t, p, f);
    }
  }

  lemma StartInOrder(locals: seq<Local>)
    requires forall t :: 0 <= t < |locals| ==> locals[t].queues == map[]
    ensures InOrder(locals, [], [])
  {
  }

  method RunOne(s: Scheduler, op: Operation, ghost ops: seq<Operation>, log: seq<Sent>) returns (log': seq<Sent>)
    requires s.Valid() && CanRun(op, |s.locals|) && InOrder(s.locals, ops, log)
    modifies s
    ensures s.Valid() && |s.locals| == |old(s.locals)| && InOrder(s.locals, ops + [op], log')
  {
    hide Arrived, Left, OfFace, Fifo, Agrees, Enqueued, InOrderAt;
    ghost var before := s.locals;
    match op
    case Put(thread, prefix, item) =>
      var localLen, globalLen := s.Enqueue(thread, prefix, item);
      log' := log;
      forall t: nat, p: Prefix, f: FaceId | t < |s.locals| ensures InOrderAt(s.locals[t].queues, ops + [op], log', t, p, f) {
        assert InOrderAt(before[t].queues, ops, log, t, p, f);
        assert t == thread && p == prefix ==> QueueOf(s.locals[t].queues, p) == QueueOf(before[t].queues, p) + [item];
        PutInOrder(before[t].queues, s.locals[t].queues, ops, op, log, t, p, f);
      }
    case Send(thread, face, budget) =>
      var sent := s.Drain(thread, face, budget);
      log' := log + Tagged(thread, sent);
      forall t: nat, p: Prefix, f: FaceId | t < |s.locals| ensures InOrderAt(s.locals[t].queues, ops + [op], log', t, p, f) {
        assert InOrderAt(before[t].queues, ops, log, t, p, f);
        if t == thread {
          SendInOrder(before[t].queues, sent, s.locals[t].queues, face, ops, op, log, t, p, f);
        } else {
          OtherThread(ops, op, log, sent, face, before[thread].queues, s.locals[thread].queues, before[t].queues, thread, t, p, f);
        }
      }
  }

  lemma OtherThread(ops: seq<Operation>, op: Operation, log: seq<Sent>, sent: seq<(Prefix, Item)>, f: FaceId, before: Queues, after: Queues,
                    q: Queues, u: nat, t: nat, p: Prefix, g: FaceId)
    requires Fifo(before, sent, after, f) && op.Send? && t != u && InOrderAt(q, ops, log, t, p, g)
    ensures InOrderAt(q, ops + [op], log + Tagged(u, sent), t, p, g)
  {
    hide OfFace, SentOf, Fifo;
    FifoFace(before, sent, after, f);
    assert (ops + [op])[..|ops|] == ops;
    LeftConcat(log, Tagged(u, sent), t, p, g);
    LeftTagged(u, sent, t, p, f, g);
    assert Left(log, t, p, g) + [] == Left(log, t, p, g) && Arrived(ops, t, p, g) + [] == Arrived(ops, t, p, g);
  }

  lemma {:induction false} NothingQueued(locals: seq<Local>, p: Prefix)
    requires forall t :: 0 <= t < |locals| ==> locals[t].queues == map[]
    ensures TotalLength(locals, p) == 0
  {
    if locals != [] { NothingQueued(locals[..|locals| - 1], p); }
  }

  lemma AgreesParts(l: Local, demand: map<FaceId, nat>, thread: nat)
    requires Agrees(l, demand, thread)
    ensures Indexed(l, thread) && IndexOk(l) && Counted(l, demand)
  {
  }

  lemma EligibleQueues(l: Local, f: FaceId, p: Prefix)
    ensures Eligible(l, f, p).queues == l.queues
  {
  }

  lemma FifoNone(q: Queues, f: FaceId)
    ensures Fifo(q, [], q, f)
  {
  }

  lemma TakenLengths(l: Local, f: FaceId, k: nat, p: Prefix, i: nat)
    requires NextUp(l, f, k, p, i)
    ensures |QueueOf(Taken(l, f, k, p, i).queues, p)| == |QueueOf(l.queues, p)| - 1
    ensures forall x :: x != p ==> QueueOf(Taken(l, f, k, p, i).queues, x) == QueueOf(l.queues, x)
  {
  }

  lemma ReroutedLength(a: seq<Item>, b: seq<Item>, blocked: FaceId, fallback: seq<FaceId>)
    requires QueueRerouted(a, b, blocked, fallback)
    ensures |a| == |b|
  {
  }
}
