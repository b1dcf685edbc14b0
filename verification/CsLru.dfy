/** The LRU queue of the Content Store (fw/table/cs-lru.go): what it holds, by the history of touches. */
module CsLru {
  function Without<T(==)>(s: seq<T>, n: T): seq<T> {
    if s == [] then [] else Without(s[..|s| - 1], n) + if s[|s| - 1] == n then [] else [s[|s| - 1]]
  }

  /** What was touched, each once, by the time of its last touch. */
  function Order<T(==)>(history: seq<T>): seq<T> {
    if history == [] then []
    else Without(Order(history[..|history| - 1]), history[|history| - 1]) + [history[|history| - 1]]
  }

  function Last<T>(s: seq<T>, k: nat): seq<T> {
    if |s| <= k then s else s[|s| - k..]
  }

  ghost predicate Unique<T>(s: seq<T>) {
    forall i, j :: 0 <= i < j < |s| ==> s[i] != s[j]
  }

  function Elements<T(==)>(s: seq<T>): set<T> {
    set x | x in s
  }

  lemma {:induction false} WithoutConcat<T>(a: seq<T>, b: seq<T>, n: T)
    ensures Without(a + b, n) == Without(a, n) + Without(b, n)
  {
    if b == [] {
      assert a + b == a;
    } else {
      WithoutConcat(a, b[..|b| - 1], n);
      assert (a + b)[..|a + b| - 1] == a + b[..|b| - 1];
    }
  }

  lemma {:induction false} WithoutIn<T>(s: seq<T>, n: T, x: T)
    ensures x in Without(s, n) <==> x in s && x != n
  {
    if s != [] {
      WithoutIn(s[..|s| - 1], n, x);
      assert s == s[..|s| - 1] + [s[|s| - 1]];
    }
  }

  lemma {:induction false} WithoutSame<T>(s: seq<T>, n: T)
    requires n !in s
    ensures Without(s, n) == s
  {
    if s != [] {
      WithoutSame(s[..|s| - 1], n);
    }
  }

  lemma {:induction false} WithoutUnique<T>(s: seq<T>, n: T)
    requires Unique(s)
    ensures Unique(Without(s, n)) && (n in s ==> |Without(s, n)| == |s| - 1)
  {
    if s != [] {
      var init, last := s[..|s| - 1], s[|s| - 1];
      WithoutUnique(init, n);
      WithoutIn(init, n, last);
      assert last !in init && s == init + [last];
      if last == n {
        WithoutSame(init, n);
      }
    }
  }

  lemma {:induction false} OrderUnique<T>(history: seq<T>)
    ensures Unique(Order(history))
  {
    if history != [] {
      var before, last := Order(history[..|history| - 1]), history[|history| - 1];
      OrderUnique(history[..|history| - 1]);
      WithoutUnique(before, last);
      WithoutIn(before, last, last);
    }
  }

  lemma {:induction false} OrderIn<T>(history: seq<T>, x: T)
    ensures x in Order(history) <==> x in history
  {
    if history != [] {
      var init, last := history[..|history| - 1], history[|history| - 1];
      OrderIn(init, x);
      WithoutIn(Order(init), last, x);
      assert history == init + [last];
    }
  }

  lemma OrderStep<T>(history: seq<T>, n: T)
    ensures Order(history + [n]) == Without(Order(history), n) + [n]
  {
    assert (history + [n])[..|history|] == history;
  }

  lemma UniqueParts<T>(a: seq<T>, b: seq<T>)
    requires Unique(a + b)
    ensures Unique(b) && forall x :: x in b ==> x !in a
  {
    forall i, j | 0 <= i < j < |b| ensures b[i] != b[j] {
      assert (a + b)[|a| + i] == b[i] && (a + b)[|a| + j] == b[j];
    }
    forall i, j | 0 <= i < |a| && 0 <= j < |b| ensures a[i] != b[j] {
      assert (a + b)[i] == a[i] && (a + b)[|a| + j] == b[j];
    }
  }

  /** Touching what is held moves it to the back; nothing else is forgotten or recalled. */
  lemma TouchHeld<T>(history: seq<T>, capacity: nat, n: T)
    requires n in Last(Order(history), capacity)
    ensures Last(Order(history + [n]), capacity) == Without(Last(Order(history), capacity), n) + [n]
  {
    hide Without, Order, Unique, Last;
    var all, q := Order(history), Last(Order(history), capacity);
    OrderStep(history, n);
    OrderUnique(history);
    var gone := LastSplits(all, capacity);
    UniqueParts(gone, q);
    WithoutConcat(gone, q, n);
    WithoutSame(gone, n);
    WithoutUnique(q, n);
    var back := Without(q, n) + [n];
    assert Order(history + [n]) == gone + back;
    LastOf(gone, back, capacity);
  }

  lemma LastSplits<T>(s: seq<T>, capacity: nat) returns (gone: seq<T>)
    ensures s == gone + Last(s, capacity) && |Last(s, capacity)| <= capacity && (|Last(s, capacity)| < capacity ==> gone == [])
  {
    gone := s[..|s| - |Last(s, capacity)|];
  }

  lemma LastOf<T>(gone: seq<T>, back: seq<T>, capacity: nat)
    requires |back| <= capacity && (|back| < capacity ==> gone == [])
    ensures Last(gone + back, capacity) == back
  {
    assert gone == [] ==> gone + back == back;
  }

  /** Touching what is not held appends it, and the oldest goes if there are too many. */
  lemma TouchNew<T>(history: seq<T>, capacity: nat, n: T)
    requires n !in Last(Order(history), capacity)
    ensures Last(Order(history + [n]), capacity) == Last(Last(Order(history), capacity) + [n], capacity)
  {
    hide Order, Unique, Without;
    var all, q := Order(history), Last(Order(history), capacity);
    var gone := all[..|all| - |q|];
    OrderStep(history, n);
    assert all == gone + q;
    WithoutConcat(gone, q, n);
    WithoutSame(q, n);
    assert Order(history + [n]) == Without(gone, n) + (q + [n]);
    if |q| < capacity {
      WithoutSame(gone, n);
    }
  }

  // ----- What recency means -----

  lemma {:induction false} UniqueCount<T>(s: seq<T>)
    requires Unique(s)
    ensures |Elements(s)| == |s|
  {
    if s != [] {
      var init, last := s[..|s| - 1], s[|s| - 1];
      UniqueCount(init);
      assert s == init + [last];
      assert Elements(s) == Elements(init) + {last};
    }
  }

  /** Behind an element in the order stand exactly those touched after its last touch. */
  lemma {:induction false} OrderSplit<T>(history: seq<T>, i: nat) returns (a: seq<T>, b: seq<T>)
    requires i < |history| && history[i] !in history[i + 1..]
    ensures Order(history) == a + [history[i]] + b && Elements(b) == Elements(history[i + 1..])
  {
    hide Without;
    var n, init, last := history[i], history[..|history| - 1], history[|history| - 1];
    if i == |history| - 1 {
      a, b := Without(Order(init), last), [];
      assert history[i + 1..] == [] && Elements(b) == Elements(history[i + 1..]);
    } else {
      assert last == history[i + 1..][|history| - i - 2];
      assert history[i + 1..] == init[i + 1..] + [last];
      var a0, b0 := OrderSplit(init, i);
      a, b := Without(a0, last), Without(b0, last) + [last];
      SplitStep(a0, n, b0, last);
      assert Order(history) == Without(Order(init), last) + [last];
      assert a + [n] + b == a + [n] + Without(b0, last) + [last];
      forall x ensures x in Elements(b) <==> x in Elements(history[i + 1..]) {
        WithoutIn(b0, last, x);
        assert x in b0 <==> x in Elements(init[i + 1..]);
        assert x in history[i + 1..] <==> x in init[i + 1..] || x == last;
      }
      assert Elements(b) == Elements(history[i + 1..]);
    }
  }

  lemma SplitStep<T>(a: seq<T>, n: T, b: seq<T>, last: T)
    requires n != last
    ensures Without(a + [n] + b, last) == Without(a, last) + [n] + Without(b, last)
  {
    WithoutConcat(a + [n], b, last);
    WithoutConcat(a, [n], last);
    WithoutSame([n], last);
  }

  /** The last touch, after which fewer than `capacity` distinct others were touched. */
  ghost predicate RecentAt<T>(history: seq<T>, capacity: nat, n: T, i: nat) {
    i < |history| && history[i] == n && n !in history[i + 1..] && |Elements(history[i + 1..])| < capacity
  }

  lemma {:induction false} LastIndex<T>(history: seq<T>, n: T) returns (i: nat)
    requires n in history
    ensures i < |history| && history[i] == n && n !in history[i + 1..]
  {
    var init, last := history[..|history| - 1], history[|history| - 1];
    assert history == init + [last];
    if last == n {
      i := |history| - 1;
    } else {
      i := LastIndex(init, n);
      assert history[i + 1..] == init[i + 1..] + [last];
    }
  }

  lemma SameLast<T>(history: seq<T>, n: T, i: nat, j: nat)
    requires i < |history| && history[i] == n && n !in history[i + 1..]
    requires j < |history| && history[j] == n
    ensures j <= i
  {
  }

  /** What is among the `capacity` most recent is exactly what was touched with fewer than
      `capacity` others touched since. */
  lemma Recency<T>(history: seq<T>, capacity: nat, n: T)
    ensures n in Last(Order(history), capacity) <==> exists i: nat :: RecentAt(history, capacity, n, i)
  {
    hide Order, Without, Unique;
    var all := Order(history);
    OrderIn(history, n);
    OrderUnique(history);
    if n in history {
      var i := LastIndex(history, n);
      var a, b := OrderSplit(history, i);
      UniqueParts(a + [n], b);
      UniqueCount(b);
      PlaceInTail(a, n, b, capacity);
      if |b| < capacity {
        assert RecentAt(history, capacity, n, i);
      } else {
        forall j: nat ensures !RecentAt(history, capacity, n, j) {
          if j < |history| && history[j] == n && n !in history[j + 1..] {
            SameLast(history, n, i, j);
            SameLast(history, n, j, i);
          }
        }
      }
    }
  }

  lemma PlaceInTail<T>(a: seq<T>, n: T, b: seq<T>, capacity: nat)
    requires n !in b
    ensures |b| < capacity ==> n in Last(a + [n] + b, capacity)
    ensures |b| >= capacity ==> n !in Last(a + [n] + b, capacity)
  {
    var all := a + [n] + b;
    if |b| < capacity {
      var tail := Last(all, capacity);
      assert tail[|tail| - |b| - 1] == all[|a|] == n;
    } else {
      assert Last(all, capacity) == b[|b| - capacity..];
    }
  }

  // ----- The queue -----

  /** A list element: its identity and the index it holds. */
  datatype Element<T> = Element(id: nat, index: T)

  function Indices<T>(queue: seq<Element<T>>): (r: seq<T>)
    ensures |r| == |queue| && forall i :: 0 <= i < |r| ==> r[i] == queue[i].index
  {
    if queue == [] then [] else Indices(queue[..|queue| - 1]) + [queue[|queue| - 1].index]
  }

  /** list.Remove: an element that is no longer in the list is left alone. */
  function Unlink<T>(queue: seq<Element<T>>, id: nat): seq<Element<T>> {
    if queue == [] then []
    else Unlink(queue[..|queue| - 1], id) + if queue[|queue| - 1].id == id then [] else [queue[|queue| - 1]]
  }

  /** Every queued index is located at its own element, and no location points to another's. Locations
      of evicted indices may be stale. */
  ghost predicate Located<T(!new)>(queue: seq<Element<T>>, locations: map<T, nat>, next: nat) {
    && (forall i :: 0 <= i < |queue| ==> queue[i].index in locations && locations[queue[i].index] == queue[i].id)
    && (forall n, i :: n in locations && 0 <= i < |queue| && queue[i].id == locations[n] ==> queue[i].index == n)
    && (forall n :: n in locations ==> locations[n] < next)
    && Unique(Indices(queue))
  }

  lemma {:induction false} UnlinkIn<T>(queue: seq<Element<T>>, id: nat, e: Element<T>)
    ensures e in Unlink(queue, id) <==> e in queue && e.id != id
  {
    if queue != [] {
      UnlinkIn(queue[..|queue| - 1], id, e);
      assert queue == queue[..|queue| - 1] + [queue[|queue| - 1]];
    }
  }

  lemma {:induction false} UnlinkIndices<T>(queue: seq<Element<T>>, id: nat, n: T)
    requires forall i :: 0 <= i < |queue| ==> (queue[i].id == id <==> queue[i].index == n)
    ensures Indices(Unlink(queue, id)) == Without(Indices(queue), n)
  {
    if queue != [] {
      var init, last := queue[..|queue| - 1], queue[|queue| - 1];
      UnlinkIndices(init, id, n);
      assert Indices(queue)[..|queue| - 1] == Indices(init);
      var rest := Unlink(init, id);
      if last.id != id {
        assert (rest + [last])[..|rest|] == rest;
      }
    }
  }

  lemma UnlinkOk<T(!new)>(queue: seq<Element<T>>, locations: map<T, nat>, next: nat, n: T)
    requires Located(queue, locations, next)
    ensures n in locations ==> Located(Unlink(queue, locations[n]), locations, next)
    ensures n in locations ==> Indices(Unlink(queue, locations[n])) == Without(Indices(queue), n)
    ensures n !in locations ==> Without(Indices(queue), n) == Indices(queue)
  {
    hide Unlink, Indices, Without, Unique;
    if n in locations {
      var rest := Unlink(queue, locations[n]);
      UnlinkIndices(queue, locations[n], n);
      WithoutUnique(Indices(queue), n);
      forall i | 0 <= i < |rest| ensures rest[i] in queue {
        UnlinkIn(queue, locations[n], rest[i]);
      }
    } else {
      WithoutSame(Indices(queue), n);
    }
  }

  lemma PushOk<T(!new)>(queue: seq<Element<T>>, locations: map<T, nat>, next: nat, n: T)
    requires Located(queue, locations, next) && n !in Indices(queue)
    ensures Located(queue + [Element(next, n)], locations[n := next], next + 1)
    ensures Indices(queue + [Element(next, n)]) == Indices(queue) + [n]
  {
    var more := queue + [Element(next, n)];
    assert more[..|queue|] == queue;
    assert forall i :: 0 <= i < |queue| ==> queue[i].index == Indices(queue)[i];
  }

  lemma PopOk<T(!new)>(queue: seq<Element<T>>, locations: map<T, nat>, next: nat)
    requires Located(queue, locations, next) && queue != []
    ensures Located(queue[1..], locations, next) && Indices(queue[1..]) == Indices(queue)[1..]
  {
  }

  lemma LocatedUnique<T(!new)>(queue: seq<Element<T>>, locations: map<T, nat>, next: nat)
    requires Located(queue, locations, next)
    ensures Unique(Indices(queue))
  {
  }

  class Lru<T(==,!new)> {
    var queue: seq<Element<T>>
    var locations: map<T, nat>
    /** The identity of the next list element. */
    var next: nat

    ghost predicate Valid()
      reads this
    {
      Located(queue, locations, next)
    }

    constructor ()
      ensures Valid() && queue == []
    {
      queue, locations, next := [], map[], 0;
    }

    method PushBack(n: T)
      requires Valid() && n !in Indices(queue)
      modifies this
      ensures Valid() && Indices(queue) == old(Indices(queue)) + [n]
    {
      PushOk(queue, locations, next, n);
      queue := queue + [Element(next, n)];
      locations := locations[n := next];
      next := next + 1;
    }

    /** AfterInsert */
    method AfterInsert(n: T)
      requires Valid() && n !in Indices(queue)
      modifies this
      ensures Valid() && Indices(queue) == old(Indices(queue)) + [n]
    {
      PushBack(n);
    }

    /** AfterRefresh and BeforeUse */
    method Touch(n: T)
      requires Valid()
      modifies this
      ensures Valid() && Indices(queue) == Without(old(Indices(queue)), n) + [n]
    {
      hide Located;
      ghost var was := Indices(queue);
      UnlinkOk(queue, locations, next, n);
      WithoutIn(was, n, n);
      if n in locations {
        queue := Unlink(queue, locations[n]);
      }
      PushBack(n);
    }

    /** BeforeErase */
    method BeforeErase(n: T)
      requires Valid()
      modifies this
      ensures Valid() && Indices(queue) == Without(old(Indices(queue)), n)
    {
      UnlinkOk(queue, locations, next, n);
      WithoutIn(Indices(queue), n, n);
      if n in locations {
        queue := Unlink(queue, locations[n]);
        locations := locations - {n};
      }
    }

    /** The removal at the end of each eviction; the location stays behind. */
    method PopFront()
      requires Valid() && queue != []
      modifies this
      ensures Valid() && Indices(queue) == old(Indices(queue))[1..]
    {
      PopOk(queue, locations, next);
      queue := queue[1..];
    }
  }
}
