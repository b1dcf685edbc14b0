/** A parsing view of a segmented buffer (std/encoding/wire_view.go), against the bytes it spells. */
module WireViews {
  import opened NdnName
  import opened Wrappers
  import opened TlvSpec

  type Wire = seq<Bytes>

  datatype Error = Eof | UnexpectedEof | Overflow

  datatype Result<T> = Ok(value: T) | Err(error: Error)

  ghost predicate Segmented(wire: Wire) {
    forall i :: 0 <= i < |wire| ==> wire[i] != []
  }

  /** The segment and the place in it spell the absolute position. */
  ghost predicate At(wire: Wire, apos: nat, seg: nat, rpos: nat) {
    && seg <= |wire| && apos == |Join(wire[..seg])| + rpos
    && (if seg < |wire| then rpos < |wire[seg]| else rpos == 0)
  }

  lemma Slices(all: Bytes, lo: nat, hi: nat, a: nat, b: nat)
    requires lo + a <= lo + b <= hi <= |all|
    ensures all[lo..hi][a..b] == all[lo + a..lo + b]
  {
    assert forall i :: 0 <= i < b - a ==> all[lo..hi][a..b][i] == all[lo + a + i];
  }

  lemma {:induction false} JoinPrefix(wire: Wire, seg: nat)
    requires seg <= |wire|
    ensures |Join(wire[..seg])| <= |Join(wire)| && Join(wire)[..|Join(wire[..seg])|] == Join(wire[..seg])
  {
    if seg == |wire| {
      assert wire[..seg] == wire;
    } else {
      var init := wire[..|wire| - 1];
      JoinPrefix(init, seg);
      assert init[..seg] == wire[..seg];
      assert Join(wire)[..|Join(wire[..seg])|] == Join(init)[..|Join(wire[..seg])|];
    }
  }

  lemma JoinSegment(wire: Wire, seg: nat)
    requires seg < |wire|
    ensures |Join(wire[..seg + 1])| == |Join(wire[..seg])| + |wire[seg]| <= |Join(wire)|
    ensures Join(wire)[|Join(wire[..seg])|..|Join(wire[..seg + 1])|] == wire[seg]
  {
    JoinPrefix(wire, seg);
    JoinPrefix(wire, seg + 1);
    assert wire[..seg + 1][..seg] == wire[..seg];
    assert Join(wire[..seg + 1]) == Join(wire[..seg]) + wire[seg];
    var lo, hi := |Join(wire[..seg])|, |Join(wire[..seg + 1])|;
    assert Join(wire)[lo..hi] == Join(wire)[..hi][lo..];
  }

  /** Inside a segment, the bytes ahead are the segment's. */
  lemma Ahead(wire: Wire, apos: nat, seg: nat, rpos: nat, k: nat)
    requires Segmented(wire) && At(wire, apos, seg, rpos) && seg < |wire| && k <= |wire[seg]| - rpos
    ensures apos + k <= |Join(wire)| && Join(wire)[apos..apos + k] == wire[seg][rpos..rpos + k]
    ensures k < |wire[seg]| - rpos ==> At(wire, apos + k, seg, rpos + k)
    ensures k == |wire[seg]| - rpos ==> At(wire, apos + k, seg + 1, 0)
  {
    hide Join;
    JoinSegment(wire, seg);
    var lo, hi := |Join(wire[..seg])|, |Join(wire[..seg + 1])|;
    Slices(Join(wire), lo, hi, rpos, rpos + k);
  }

  lemma NotPastEnd(wire: Wire, apos: nat, seg: nat, rpos: nat)
    requires At(wire, apos, seg, rpos)
    ensures apos < |Join(wire)| ==> seg < |wire|
    ensures apos <= |Join(wire)|
  {
    if seg == |wire| {
      assert wire[..seg] == wire;
    } else {
      JoinSegment(wire, seg);
    }
  }

  class WireView {
    const wire: Wire
    const start: nat
    const end: nat
    var apos: nat
    var rpos: nat
    var seg: nat

    ghost predicate Valid()
      reads this
    {
      Segmented(wire) && At(wire, apos, seg, rpos) && end <= |Join(wire)|
    }

    /** The bytes from the position to the end of the view. */
    ghost function Rest(): Bytes
      requires Valid()
      reads this
    {
      if apos <= end then Join(wire)[apos..end] else []
    }

    constructor (wire: Wire)
      requires Segmented(wire)
      ensures Valid() && Rest() == Join(wire)
    {
      var total := TotalLength(wire);
      this.wire, this.end := wire, total;
      start, apos, rpos, seg := 0, 0, 0, 0;
      new;
      assert wire[..0] == [];
    }

    /** A view of the bytes between two positions, standing at the first. */
    constructor Part(wire: Wire, apos: nat, rpos: nat, seg: nat, end: nat)
      requires Segmented(wire) && At(wire, apos, seg, rpos) && apos <= end <= |Join(wire)|
      ensures Valid() && this.wire == wire && Rest() == Join(wire)[apos..end]
    {
      this.wire, this.start, this.end := wire, apos, end;
      this.apos, this.rpos, this.seg := apos, rpos, seg;
    }

    predicate IsEof()
      reads this
    {
      apos >= end
    }

    method ReadByte() returns (r: Result<Byte>)
      requires Valid()
      modifies this
      ensures Valid()
      ensures old(Rest()) == [] ==> r == Err(Eof) && Rest() == []
      ensures old(Rest()) != [] ==> r == Ok(old(Rest())[0]) && Rest() == old(Rest())[1..] && apos <= end
    {
      hide Join;
      if IsEof() {
        return Err(Eof);
      }
      NotPastEnd(wire, apos, seg, rpos);
      var b := wire[seg][rpos];
      ghost var from := apos;
      Step(1);
      assert b == Join(wire)[from..from + 1][0];
      return Ok(b);
    }

    /** readSeg: up to `size` bytes of the current segment. */
    method ReadSeg(size: nat) returns (r: Bytes)
      requires Valid() && 0 < size <= |Rest()|
      modifies this
      ensures Valid() && 0 < |r| <= size && r == old(Rest())[..|r|] && Rest() == old(Rest())[|r|..]
    {
      hide Join, At, Segmented;
      NotPastEnd(wire, apos, seg, rpos);
      var left := SegLeft();
      var k := if size < left then size else left;
      r := wire[seg][rpos..rpos + k];
      Slices(Join(wire), apos, end, 0, k);
      Slices(Join(wire), apos, end, k, end - apos);
      Step(k);
    }

    /** What is left of the current segment. */
    method SegLeft() returns (left: nat)
      requires Valid() && seg < |wire|
      ensures 0 < left == |wire[seg]| - rpos
    {
      left := |wire[seg]| - rpos;
    }

    /** Moves on by `k` bytes within the current segment, and to the next one at its end. */
    method Step(k: nat)
      requires Valid() && seg < |wire| && rpos + k <= |wire[seg]|
      modifies this
      ensures Valid() && apos == old(apos) + k
      ensures apos <= |Join(wire)| && Join(wire)[old(apos)..apos] == wire[old(seg)][old(rpos)..old(rpos) + k]
    {
      hide Join;
      Ahead(wire, apos, seg, rpos, k);
      apos := apos + k;
      rpos := rpos + k;
      if rpos == |wire[seg]| {
        rpos := 0;
        seg := seg + 1;
      }
    }

    /** SkipGetSegCount: within the view it is exact; past its end it may go on to the end of a segment. */
    method Skip(n: int) returns (ok: bool)
      requires Valid()
      modifies this
      ensures Valid()
      ensures 0 <= n <= |old(Rest())| ==> ok && Rest() == old(Rest())[n..]
      ensures n > |old(Rest())| ==> !ok || Rest() == []
      ensures |Rest()| <= |old(Rest())|
    {
      hide Join, At, Segmented;
      var left := n;
      ghost var from, was := apos, Rest();
      ok := true;
      while left > 0
        invariant Valid() && left <= n && (n >= 0 ==> left >= 0) && apos == from + (n - left)
        invariant ok
      {
        if IsEof() {
          ok := false;
          break;
        }
        NotPastEnd(wire, apos, seg, rpos);
        var segLeft := SegLeft();
        if left < segLeft {
          Step(left);
          left := 0;
        } else {
          Step(segLeft);
          left := left - segLeft;
        }
      }
      if from <= end && 0 <= n <= |was| {
        Slices(Join(wire), from, end, n, |was|);
      }
    }
  }

  // ----- Reading numbers, names and sub-views -----

  /** The loop of ReadTLNum over the bytes after the first, also that of a natural-number field. */
  method ReadValue(view: WireView, k: nat) returns (r: Result<nat>)
    requires view.Valid()
    modifies view
    ensures view.Valid()
    ensures k <= |old(view.Rest())| ==> r == Ok(Value(old(view.Rest())[..k])) && view.Rest() == old(view.Rest())[k..]
    ensures k > |old(view.Rest())| ==> r == Err(UnexpectedEof) && view.Rest() == []
    ensures k > 0 && r.Ok? ==> view.apos <= view.end
    ensures k == 0 ==> view.apos == old(view.apos)
  {
    hide Value, Join, At, Segmented;
    var val := 0;
    ghost var rest := view.Rest();
    assert rest[..0] == [] && Value([]) == 0 by { ValueNone(); }
    for i := 0 to k
      invariant view.Valid() && i <= |rest| && view.Rest() == rest[i..] && val == Value(rest[..i])
      invariant if i == 0 then view.apos == old(view.apos) else view.apos <= view.end
    {
      var x := view.ReadByte();
      if x.Err? {
        return Err(UnexpectedEof);
      }
      ValueStep(rest, i);
      val := (val * 256 + x.value) % UINT64;
    }
    return Ok(val);
  }

  /** ReadTLNum */
  method ReadNumber(view: WireView) returns (r: Result<nat>)
    requires view.Valid()
    modifies view
    ensures view.Valid() && |view.Rest()| <= |old(view.Rest())|
    ensures r.Ok? ==> view.apos <= view.end
    ensures match ReadNum(old(view.Rest()))
            case None => r.Err? && (r.error == Eof <==> old(view.Rest()) == [])
            case Some((v, rest)) => r == Ok(v) && view.Rest() == rest
  {
    hide Value, Join, At, Segmented;
    ghost var was := view.Rest();
    var first := view.ReadByte();
    if first.Err? {
      return Err(first.error);
    }
    var k := Tail(first.value);
    if k == 0 {
      return Ok(first.value);
    }
    ghost var rest := view.Rest();
    r := ReadValue(view, k);
    if k <= |rest| {
      assert was[1..1 + k] == rest[..k] && was[1 + k..] == rest[k..];
    }
  }

  lemma ValueNone()
    ensures Value([]) == 0
  {
  }

  lemma ValueStep(bs: Bytes, i: nat)
    requires i < |bs|
    ensures Value(bs[..i + 1]) == (Value(bs[..i]) * 256 + bs[i]) % UINT64
  {
    assert bs[..i + 1][..i] == bs[..i];
  }

  /** ReadBuf, whole or segment by segment. */
  method ReadBuf(view: WireView, size: nat) returns (r: Result<Bytes>)
    requires view.Valid()
    modifies view
    ensures view.Valid()
    ensures view.end - old(view.apos) >= size ==> r == Ok(old(view.Rest())[..size]) && view.Rest() == old(view.Rest())[size..]
    ensures view.end - old(view.apos) < size ==> r == Err(Overflow) && view.Rest() == old(view.Rest())
  {
    if size > view.end - view.apos {
      return Err(Overflow);
    }
    ghost var was := view.Rest();
    var buf: Bytes := [];
    while |buf| < size
      invariant view.Valid() && |buf| <= size <= |was| && buf == was[..|buf|] && view.Rest() == was[|buf|..]
      decreases size - |buf|
    {
      var part := view.ReadSeg(size - |buf|);
      assert was[..|buf| + |part|] == was[..|buf|] + was[|buf|..][..|part|];
      assert was[|buf| + |part|..] == was[|buf|..][|part|..];
      buf := buf + part;
    }
    return Ok(buf);
  }

  /** Delegate: a view of the next bytes, which are skipped here. Too many give an empty view, and
      nothing is skipped. */
  method Delegate(view: WireView, size: nat) returns (sub: WireView)
    requires view.Valid()
    modifies view
    ensures view.Valid() && sub.Valid() && fresh(sub)
    ensures view.end - old(view.apos) >= size ==> sub.Rest() == old(view.Rest())[..size] && view.Rest() == old(view.Rest())[size..]
    ensures view.end - old(view.apos) < size ==> sub.Rest() == [] && view.Rest() == old(view.Rest())
  {
    hide At;
    if size > view.end - view.apos {
      sub := new WireView([]);
      return;
    }
    Slices(Join(view.wire), view.apos, view.end, 0, size);
    sub := new WireView.Part(view.wire, view.apos, view.rpos, view.seg, view.apos + size);
    var ok := view.Skip(size);
  }

  /** ReadComponent */
  method ReadComponent(view: WireView) returns (r: Result<Component>)
    requires view.Valid()
    modifies view
    ensures view.Valid()
    ensures match ReadComp(old(view.Rest()))
            case None => r.Err? && (r.error == Eof <==> old(view.Rest()) == [])
            case Some((c, rest)) => r == Ok(c) && view.Rest() == rest
  {
    hide ReadNum, At, Join;
    var typ := ReadNumber(view);
    if typ.Err? {
      return Err(typ.error);
    }
    var l := ReadNumber(view);
    if l.Err? {
      return Err(if l.error == Eof then UnexpectedEof else l.error);
    }
    var val := ReadBuf(view, l.value);
    if val.Err? {
      return Err(val.error);
    }
    return Ok(Component(typ.value, val.value));
  }

  /** ReadName: components until the view is used up. */
  method ReadNameFrom(view: WireView) returns (r: Result<Name>)
    requires view.Valid()
    modifies view
    ensures view.Valid()
    ensures match ReadName(old(view.Rest())) case None => r.Err? case Some(n) => r == Ok(n)
  {
    hide ReadComp, At, Join;
    var name: Name := [];
    ghost var was := view.Rest();
    ghost var goal := ReadName(was);
    assert Prepended([], goal) == goal by { PrependedEnds([], goal); }
    while true
      invariant view.Valid() && goal == Prepended(name, ReadName(view.Rest()))
      decreases |view.Rest()|
    {
      ghost var left := view.Rest();
      var c := ReadComponent(view);
      if c.Err? {
        if c.error == Eof {
          PrependedEnds(name, goal);
          return Ok(name);
        }
        return Err(c.error);
      }
      PrependedStep(name, c.value, ReadName(view.Rest()));
      name := name + [c.value];
    }
  }

  function Prepended(a: Name, b: Option<Name>): Option<Name> {
    match b case None => None case Some(n) => Some(a + n)
  }

  lemma PrependedEnds(a: Name, b: Option<Name>)
    ensures Prepended([], b) == b && Prepended(a, Some([])) == Some(a)
  {
    if b.Some? {
      assert [] + b.value == b.value;
    }
    assert a + [] == a;
  }

  lemma PrependedStep(a: Name, c: Component, b: Option<Name>)
    ensures b.Some? ==> Prepended(a, Some([c] + b.value)) == Prepended(a + [c], b)
  {
    if b.Some? {
      assert a + ([c] + b.value) == a + [c] + b.value;
    }
  }

  method TotalLength(wire: Wire) returns (n: nat)
    ensures n == |Join(wire)|
  {
    n := 0;
    for i := 0 to |wire|
      invariant n == |Join(wire[..i])|
    {
      assert wire[..i + 1][..i] == wire[..i];
      n := n + |wire[i]|;
    }
    assert wire[..|wire|] == wire;
  }
}
