/** The NDNLPv2 link service (fw/face/ndnlp-link-service.go): fragmentation, the length of the
    frames it produces (fw/defn/zz_generated.go) and the 16-slot reassembly ring. */
module LpLink {
  import opened NdnName
  import opened TlvSpec
  import opened Wrappers

  const TWO_TO_64: nat := 0x1_0000_0000_0000_0000
  const RING_SIZE: nat := 16
  const LP_PACKET_OVERHEAD: nat := 1 + 3 + 1 + 3
  const PIT_TOKEN_OVERHEAD: nat := 1 + 1 + 6
  const CONGESTION_MARK_OVERHEAD: nat := 3 + 1 + 8

  datatype Options = Options(fragmentation: bool, reassembly: bool, incomingFace: bool)

  /** An outgoing network packet. A PIT token is empty or has 6 bytes. */
  datatype OutPacket = OutPacket(wire: Bytes, pitToken: Bytes, mark: Option<nat>, nack: Option<nat>, inFace: nat)

  datatype LpFrame = LpFrame(
    sequence: Option<nat>,
    fragIndex: Option<nat>,
    fragCount: Option<nat>,
    pitToken: Bytes,
    nack: Option<nat>,
    incomingFaceId: Option<nat>,
    mark: Option<nat>,
    fragment: Bytes)

  // ----- Fragmentation -----

  lemma {:induction false} JoinFront(a: Bytes, w: seq<Bytes>)
    ensures Join([a] + w) == a + Join(w)
  {
    if w == [] {
      assert [a] + w == [a] && [a][..0] == [];
    } else {
      var init, last := w[..|w| - 1], w[|w| - 1];
      JoinFront(a, init);
      assert ([a] + w)[..|w|] == [a] + init;
      assert a + Join(init) + last == a + (Join(init) + last);
    }
  }

  /** Pieces of `mtu` bytes; the last one may be shorter. */
  function Chop(wire: Bytes, mtu: nat): seq<Bytes>
    requires mtu > 0
  {
    if |wire| <= mtu then [wire] else [wire[..mtu]] + Chop(wire[mtu..], mtu)
  }

  lemma {:induction false} ChopPieces(wire: Bytes, mtu: nat)
    requires mtu > 0
    ensures |Chop(wire, mtu)| >= 1 && (|wire| > mtu ==> |Chop(wire, mtu)| >= 2)
    ensures wire != [] ==> forall i :: 0 <= i < |Chop(wire, mtu)| ==> 0 < |Chop(wire, mtu)[i]| <= mtu
  {
    if |wire| > mtu {
      ChopPieces(wire[mtu..], mtu);
    }
  }

  lemma {:induction false} JoinChopped(wire: Bytes, mtu: nat)
    requires mtu > 0
    ensures Join(Chop(wire, mtu)) == wire
  {
    hide Chop, Join;
    ChopStep(wire, mtu);
    if |wire| > mtu {
      var first, rest := wire[..mtu], wire[mtu..];
      JoinChopped(rest, mtu);
      JoinFront(first, Chop(rest, mtu));
      assert first + rest == wire;
    } else {
      JoinOne(wire);
    }
  }

  /** Chopping loses nothing, and no piece is empty or too long. */
  lemma ChopJoins(wire: Bytes, mtu: nat)
    requires mtu > 0
    ensures Join(Chop(wire, mtu)) == wire
    ensures |wire| > mtu ==> |Chop(wire, mtu)| >= 2
    ensures |Chop(wire, mtu)| >= 1
    ensures wire != [] ==> forall i :: 0 <= i < |Chop(wire, mtu)| ==> 0 < |Chop(wire, mtu)[i]| <= mtu
  {
    hide Chop, Join;
    JoinChopped(wire, mtu);
    ChopPieces(wire, mtu);
  }

  lemma ChopStep(wire: Bytes, mtu: nat)
    requires mtu > 0
    ensures Chop(wire, mtu) == if |wire| <= mtu then [wire] else [wire[..mtu]] + Chop(wire[mtu..], mtu)
  {
  }

  lemma JoinOne(a: Bytes)
    ensures Join([a]) == a
  {
    JoinFront(a, []);
    assert [a] + [] == [a] && a + [] == a;
  }

  function FragCount(len: nat, mtu: nat): nat
    requires mtu > 0
  {
    (len + mtu - 1) / mtu
  }

  lemma DivStep(x: nat, d: nat)
    requires d > 0
    ensures (x + d) / d == x / d + 1
  {
    var q, r := x / d, x % d;
    assert x == q * d + r;
    assert x + d == (q + 1) * d + r by { assert (q + 1) * d == q * d + d; }
    QuotientUnique(x + d, d, q + 1, r);
  }

  lemma SmallMultiple(k: int, d: int)
    requires -d < k * d < d
    ensures k == 0
  {
  }

  lemma QuotientUnique(x: nat, d: nat, q: nat, r: nat)
    requires d > 0 && r < d && x == q * d + r
    ensures x / d == q
  {
    var k := x / d - q;
    assert k * d == x / d * d - q * d;
    assert x == x / d * d + x % d;
    SmallMultiple(k, d);
  }

  lemma {:induction false} ChopCount(wire: Bytes, mtu: nat)
    requires mtu > 0 && wire != []
    ensures |Chop(wire, mtu)| == FragCount(|wire|, mtu)
  {
    if |wire| > mtu {
      ChopCount(wire[mtu..], mtu);
      DivStep(|wire| - 1, mtu);
      assert (|wire| - mtu) + mtu - 1 == |wire| - 1;
      assert FragCount(|wire|, mtu) == (|wire| - 1 + mtu) / mtu;
    } else {
      QuotientUnique(|wire| + mtu - 1, mtu, 1, |wire| - 1);
    }
  }

  /** Where the i-th piece starts. */
  function Pos(mtu: nat, i: nat): nat {
    mtu * i
  }

  lemma PosNext(mtu: nat, i: nat)
    ensures Pos(mtu, i + 1) == Pos(mtu, i) + mtu && Pos(mtu, 0) == 0
  {
  }

  /** All pieces but the last are full. */
  lemma {:induction false} ChopSizes(wire: Bytes, mtu: nat)
    requires mtu > 0 && wire != []
    ensures var n := |Chop(wire, mtu)|;
      && n >= 1 && Pos(mtu, n - 1) < |wire| <= Pos(mtu, n - 1) + mtu
      && |Chop(wire, mtu)[n - 1]| == |wire| - Pos(mtu, n - 1)
  {
    ChopStep(wire, mtu);
    hide Chop, Pos;
    PosNext(mtu, 0);
    if |wire| > mtu {
      var tail := Chop(wire[mtu..], mtu);
      ChopSizes(wire[mtu..], mtu);
      PosNext(mtu, |tail| - 1);
    }
  }

  /** How long the i-th piece is. */
  function SizeAt(wire: Bytes, mtu: nat, i: nat): int
    requires mtu > 0
  {
    var n := |Chop(wire, mtu)|;
    if i == n - 1 then |wire| - Pos(mtu, i) else mtu
  }

  /** Where each piece lies. */
  lemma {:induction false} ChopAt(wire: Bytes, mtu: nat, i: nat)
    requires mtu > 0 && wire != [] && i < |Chop(wire, mtu)|
    ensures var size := SizeAt(wire, mtu, i);
      0 <= size && Pos(mtu, i) + size <= |wire| && Chop(wire, mtu)[i] == wire[Pos(mtu, i)..Pos(mtu, i) + size]
  {
    ChopStep(wire, mtu);
    hide Chop, Pos;
    PosNext(mtu, 0);
    ChopSizes(wire, mtu);
    if |wire| > mtu && i > 0 {
      var rest, size := wire[mtu..], SizeAt(wire, mtu, i);
      PosNext(mtu, i - 1);
      ChopAt(rest, mtu, i - 1);
      assert |Chop(rest, mtu)| == |Chop(wire, mtu)| - 1 && SizeAt(rest, mtu, i - 1) == size;
      SliceOfRest(wire, mtu, Pos(mtu, i - 1), size);
    }
  }

  lemma SliceOfRest(wire: Bytes, mtu: nat, from: nat, size: nat)
    requires mtu + from + size <= |wire|
    ensures wire[mtu..][from..from + size] == wire[mtu + from..mtu + from + size]
  {
  }

  /** The loop of sendPacket that cuts a packet up. */
  method Cut(wire: Bytes, mtu: nat) returns (pieces: seq<Bytes>)
    requires mtu > 0 && |wire| > mtu
    ensures pieces == Chop(wire, mtu)
  {
    hide Chop;
    var count := (|wire| + mtu - 1) / mtu;
    ChopCount(wire, mtu);
    ChopSizes(wire, mtu);
    pieces := [];
    var pos := 0;
    for i := 0 to count
      invariant |pieces| == i && 0 <= pos <= |wire| && pos == if i < count then mtu * i else |wire|
      invariant pieces == Chop(wire, mtu)[..i]
    {
      ChopAt(wire, mtu, i);
      var size := if i == count - 1 then |wire| - mtu * (count - 1) else mtu;
      PosNext(mtu, i);
      assert Chop(wire, mtu)[..i + 1] == Chop(wire, mtu)[..i] + [Chop(wire, mtu)[i]];
      pieces := pieces + [wire[pos..pos + size]];
      pos := pos + size;
    }
  }

  // ----- Sending -----

  /** computeHeaderOverhead */
  function HeaderOverhead(o: Options): nat {
    LP_PACKET_OVERHEAD
    + (if o.fragmentation then (1 + 1 + 8) + (1 + 1 + 2) + (1 + 1 + 2) else 0)
    + (if o.incomingFace then 3 + 1 + 8 else 0)
  }

  /** Room for the packet once every header is accounted for. */
  function EffectiveMtu(o: Options, mtu: nat, out: OutPacket, mark: Option<nat>): int {
    mtu - HeaderOverhead(o)
    - (if |out.pitToken| > 0 then PIT_TOKEN_OVERHEAD else 0)
    - (if mark.Some? then CONGESTION_MARK_OVERHEAD else 0)
  }

  /** The mark carried by the frames: the one from upstream, or ours if we are congested. */
  function MarkOf(out: OutPacket, congested: bool): Option<nat> {
    if congested && out.mark.None? then Some(1) else out.mark
  }

  function Bare(wire: Bytes): LpFrame {
    LpFrame(None, None, None, [], None, None, None, wire)
  }

  function Numbered(pieces: seq<Bytes>, next: nat): seq<LpFrame> {
    seq(|pieces|, i requires 0 <= i < |pieces| =>
      LpFrame(Some((next + 1 + i) % TWO_TO_64), Some(i), Some(|pieces|), [], None, None, None, pieces[i]))
  }

  function Dressed(o: Options, out: OutPacket, mark: Option<nat>, f: LpFrame): LpFrame {
    f.(pitToken := out.pitToken,
       incomingFaceId := if o.incomingFace then Some(out.inFace) else None,
       mark := mark,
       nack := out.nack)
  }

  /** A packet has to be cut only where there is room for pieces. */
  predicate Sendable(o: Options, mtu: nat, out: OutPacket, mark: Option<nat>) {
    var room := EffectiveMtu(o, mtu, out, mark);
    room > 0 || !o.fragmentation || |out.wire| <= room
  }

  /** The frames a packet is sent in; none if it is too long and fragmentation is off. */
  function Frames(o: Options, mtu: nat, out: OutPacket, mark: Option<nat>, next: nat): seq<LpFrame>
    requires Sendable(o, mtu, out, mark)
  {
    var room := EffectiveMtu(o, mtu, out, mark);
    if |out.wire| <= room then [Dressed(o, out, mark, Bare(out.wire))]
    else if !o.fragmentation then []
    else
      var fs := Numbered(Chop(out.wire, room), next);
      seq(|fs|, i requires 0 <= i < |fs| => Dressed(o, out, mark, fs[i]))
  }

  // ----- Frame length -----

  function GetOr(v: Option<nat>, default: nat): nat {
    if v.Some? then v.value else default
  }

  function NatField(typeLen: nat, v: Option<nat>): nat {
    if v.Some? then typeLen + 1 + NatLength(v.value) else 0
  }

  /** Length computed by FwLpPacketEncoder.Init, for the fields a link service sets. */
  function FieldsLen(f: LpFrame): nat {
    (if f.sequence.Some? then 1 + 1 + 8 else 0)
    + NatField(1, f.fragIndex) + NatField(1, f.fragCount)
    + (if f.pitToken != [] then 1 + NumLength(|f.pitToken|) + |f.pitToken| else 0)
    + NackLen(f.nack)
    + NatField(3, f.incomingFaceId) + NatField(3, f.mark)
    + 1 + NumLength(|f.fragment|) + |f.fragment|
  }

  function NackLen(nack: Option<nat>): nat {
    if nack.Some? then var inner := 3 + 1 + NatLength(nack.value); 3 + NumLength(inner) + inner else 0
  }

  function FrameLen(f: LpFrame): nat {
    1 + NumLength(FieldsLen(f)) + FieldsLen(f)
  }

  ghost predicate FitsIn(fs: seq<LpFrame>, limit: nat) {
    forall i :: 0 <= i < |fs| ==> FrameLen(fs[i]) <= limit
  }

  predicate ValidToken(out: OutPacket) {
    |out.pitToken| == 0 || |out.pitToken| == 6
  }

  lemma DressedFits(o: Options, mtu: nat, out: OutPacket, mark: Option<nat>, f: LpFrame)
    requires mtu + NackLen(out.nack) <= 0xffff && ValidToken(out)
    requires |f.fragment| <= EffectiveMtu(o, mtu, out, mark)
    requires f == Bare(f.fragment) || (o.fragmentation && GetOr(f.fragIndex, 0) <= 0xffff && GetOr(f.fragCount, 0) <= 0xffff)
    ensures FrameLen(Dressed(o, out, mark, f)) <= mtu + NackLen(out.nack)
  {
    hide NackLen;
  }

  /** A frame exceeds the MTU by no more than its NACK header, which is left out of the overhead
      and takes at most 16 bytes; without a NACK no frame exceeds the MTU. This holds for all
      options, tokens, marks and wire lengths, as long as the packet needs at most 65535 fragments. */
  lemma FramesFit(o: Options, mtu: nat, out: OutPacket, mark: Option<nat>, next: nat)
    requires mtu + NackLen(out.nack) <= 0xffff && EffectiveMtu(o, mtu, out, mark) > 0 && ValidToken(out)
    requires FragCount(|out.wire|, EffectiveMtu(o, mtu, out, mark)) <= 0xffff
    ensures FitsIn(Frames(o, mtu, out, mark, next), mtu + NackLen(out.nack))
    ensures NackLen(out.nack) <= 16 && (out.nack.None? ==> NackLen(out.nack) == 0)
  {
    var room, frames := EffectiveMtu(o, mtu, out, mark), Frames(o, mtu, out, mark, next);
    if |out.wire| <= room {
      DressedFits(o, mtu, out, mark, Bare(out.wire));
    } else if o.fragmentation {
      ChopJoins(out.wire, room);
      ChopCount(out.wire, room);
      var fs := Numbered(Chop(out.wire, room), next);
      forall i | 0 <= i < |frames| ensures FrameLen(frames[i]) <= mtu + NackLen(out.nack) {
        DressedFits(o, mtu, out, mark, fs[i]);
      }
    }
  }

  /** Every NDN packet, having at most 8800 bytes, meets that condition. */
  lemma PacketsFit(o: Options, mtu: nat, out: OutPacket, mark: Option<nat>, next: nat)
    requires mtu + NackLen(out.nack) <= 0xffff && EffectiveMtu(o, mtu, out, mark) > 0 && ValidToken(out)
    requires |out.wire| <= 8800
    ensures FitsIn(Frames(o, mtu, out, mark, next), mtu + NackLen(out.nack))
  {
    var room := EffectiveMtu(o, mtu, out, mark);
    if out.wire == [] {
      QuotientUnique(room - 1, room, 0, room - 1);
    } else {
      ChopCount(out.wire, room);
      ChopAtMost(out.wire, room);
    }
    FramesFit(o, mtu, out, mark, next);
  }

  lemma {:induction false} ChopAtMost(wire: Bytes, mtu: nat)
    requires mtu > 0 && wire != []
    ensures |Chop(wire, mtu)| <= |wire|
  {
    if |wire| > mtu {
      ChopAtMost(wire[mtu..], mtu);
    }
  }

  /** The length of a frame, from what is known before sending: `place` is the index and the count
      of a fragment, `l` its number of bytes. */
  function SentLen(o: Options, out: OutPacket, mark: Option<nat>, place: Option<(nat, nat)>, l: nat): nat {
    var fields := (if place.Some? then 10 + (2 + NatLength(place.value.0)) + (2 + NatLength(place.value.1)) else 0)
      + (if |out.pitToken| > 0 then 1 + NumLength(|out.pitToken|) + |out.pitToken| else 0)
      + NackLen(out.nack)
      + (if o.incomingFace then 4 + NatLength(out.inFace) else 0)
      + NatField(3, mark)
      + 1 + NumLength(l) + l;
    1 + NumLength(fields) + fields
  }

  /** The bound that decides it: the whole packet, or the last full fragment and the last one. */
  predicate Bounded(o: Options, mtu: nat, out: OutPacket, mark: Option<nat>, limit: nat) {
    var room := EffectiveMtu(o, mtu, out, mark);
    if |out.wire| <= room then SentLen(o, out, mark, None, |out.wire|) <= limit
    else room > 0 && o.fragmentation ==>
      var n := FragCount(|out.wire|, room);
      && (n >= 2 ==> SentLen(o, out, mark, Some((n - 2, n)), room) <= limit)
      && (n >= 1 && |out.wire| >= room * (n - 1) ==> SentLen(o, out, mark, Some((n - 1, n)), |out.wire| - room * (n - 1)) <= limit)
  }

  lemma FrameLenIs(o: Options, out: OutPacket, mark: Option<nat>, f: LpFrame, i: nat, n: nat)
    ensures f == Bare(f.fragment) ==> FrameLen(Dressed(o, out, mark, f)) == SentLen(o, out, mark, None, |f.fragment|)
    ensures f.sequence.Some? && f.fragIndex == Some(i) && f.fragCount == Some(n) ==>
      FrameLen(Dressed(o, out, mark, f)) == SentLen(o, out, mark, Some((i, n)), |f.fragment|)
  {
    hide NackLen, NumLength, NatLength;
    assert |out.pitToken| > 0 <==> out.pitToken != [];
  }

  lemma SentLenGrows(o: Options, out: OutPacket, mark: Option<nat>, i: nat, j: nat, n: nat, l: nat)
    requires i <= j
    ensures SentLen(o, out, mark, Some((i, n)), l) <= SentLen(o, out, mark, Some((j, n)), l)
  {
    hide NackLen;
    assert NatLength(i) <= NatLength(j);
  }

  /** Exactly when every frame fits, for any limit: it is enough to look at the last two. */
  lemma FramesFitExactly(o: Options, mtu: nat, out: OutPacket, mark: Option<nat>, next: nat, limit: nat)
    requires Sendable(o, mtu, out, mark)
    ensures FitsIn(Frames(o, mtu, out, mark, next), limit) <==> Bounded(o, mtu, out, mark, limit)
  {
    hide SentLen, FrameLen, Dressed, Chop;
    var room, frames := EffectiveMtu(o, mtu, out, mark), Frames(o, mtu, out, mark, next);
    if |out.wire| <= room {
      FrameLenIs(o, out, mark, Bare(out.wire), 0, 0);
      assert frames[0] == Dressed(o, out, mark, Bare(out.wire));
    } else if o.fragmentation {
      var pieces, n := Chop(out.wire, room), FragCount(|out.wire|, room);
      ChopCount(out.wire, room);
      ChopSizes(out.wire, room);
      assert n >= 2 by { ChopJoins(out.wire, room); }
      forall i | 0 <= i < n
        ensures FrameLen(frames[i]) == SentLen(o, out, mark, Some((i, n)), if i == n - 1 then |out.wire| - room * (n - 1) else room)
      {
        var f := Numbered(pieces, next)[i];
        FrameLenIs(o, out, mark, f, i, n);
        ChopAt(out.wire, room, i);
        assert frames[i] == Dressed(o, out, mark, f);
        if i < n - 1 {
          SentLenGrows(o, out, mark, i, n - 2, n, room);
        }
      }
      forall i: nat | i < n - 1
        ensures SentLen(o, out, mark, Some((i, n)), room) <= SentLen(o, out, mark, Some((n - 2, n)), room)
      {
        SentLenGrows(o, out, mark, i, n - 2, n, room);
      }
      assert FrameLen(frames[n - 2]) == SentLen(o, out, mark, Some((n - 2, n)), room);
      assert FrameLen(frames[n - 1]) == SentLen(o, out, mark, Some((n - 1, n)), |out.wire| - room * (n - 1));
    }
  }

  /** The NACK excess is real. */
  lemma NackExceedsMtu(wire: Bytes)
    requires |wire| == 1400
    ensures var out := OutPacket(wire, [], None, Some(150), 0);
      var o := Options(false, true, false);
      EffectiveMtu(o, 1408, out, None) > 0 && !FitsIn(Frames(o, 1408, out, None, 0), 1408)
  {
    FramesFitExactly(Options(false, true, false), 1408, OutPacket(wire, [], None, Some(150), 0), None, 0, 1408);
  }

  /** So is the bound on the number of fragments: with more of them, indices and counts outgrow
      the two bytes set aside for each. */
  lemma ManyFragmentsExceedMtu(wire: Bytes)
    requires |wire| == 253 * 70000
    ensures var out := OutPacket(wire, [], None, None, 0);
      var o := Options(true, true, false);
      EffectiveMtu(o, 279, out, None) > 0 && !FitsIn(Frames(o, 279, out, None, 0), 279)
  {
    QuotientUnique(|wire| + 252, 253, 70000, 252);
    FramesFitExactly(Options(true, true, false), 279, OutPacket(wire, [], None, None, 0), None, 0, 279);
  }

  /** But not every NACK and not every large number of fragments exceeds the MTU. */
  lemma SomeStillFit(small: Bytes, large: Bytes)
    requires |small| == 100 && |large| == 74 * 70000
    ensures FitsIn(Frames(Options(false, true, false), 1408, OutPacket(small, [], None, Some(150), 0), None, 0), 1408)
    ensures FitsIn(Frames(Options(true, true, false), 100, OutPacket(large, [], None, None, 0), None, 0), 100)
  {
    FramesFitExactly(Options(false, true, false), 1408, OutPacket(small, [], None, Some(150), 0), None, 0, 1408);
    QuotientUnique(|large| + 73, 74, 70000, 73);
    FramesFitExactly(Options(true, true, false), 100, OutPacket(large, [], None, None, 0), None, 0, 100);
  }

  /** The overhead set aside is exact: with every header at its full length the longest frame fills
      the MTU to the last byte. */
  lemma HeadersAreTight(mtu: nat, out: OutPacket, mark: Option<nat>, next: nat)
    requires |out.pitToken| == 6 && out.nack == None && out.inFace > 0xffff_ffff && mark.Some? && mark.value > 0xffff_ffff
    requires var room := EffectiveMtu(Options(true, true, true), mtu, out, mark);
      && 253 <= room && mtu <= 0xffff && 258 * room <= |out.wire| && FragCount(|out.wire|, room) <= 0xffff
    ensures var frames := Frames(Options(true, true, true), mtu, out, mark, next); FitsIn(frames, mtu) && !FitsIn(frames, mtu - 1)
  {
    hide Frames, Chop;
    var o := Options(true, true, true);
    var room := EffectiveMtu(o, mtu, out, mark);
    var n := FragCount(|out.wire|, room);
    assert n >= 258 by { CountAtLeast(|out.wire|, room, 258); }
    FramesFit(o, mtu, out, mark, next);
    FramesFitExactly(o, mtu, out, mark, next, mtu - 1);
    assert SentLen(o, out, mark, Some((n - 2, n)), room) == mtu;
  }

  lemma CountAtLeast(len: nat, mtu: nat, k: nat)
    requires mtu > 0 && k * mtu <= len
    ensures FragCount(len, mtu) >= k
  {
    var x := len + mtu - 1;
    var q := x / mtu;
    assert x == q * mtu + x % mtu && (q + 1) * mtu == q * mtu + mtu;
    if q < k {
      MulMonotone(q + 1, k, mtu);
    }
  }

  lemma MulMonotone(a: nat, b: nat, m: nat)
    requires a <= b
    ensures a * m <= b * m
  {
  }

  // ----- Reassembly -----

  /** A slot of the ring; a free slot has sequence 0 and no buffer. */
  datatype Slot = Slot(sequence: nat, buffer: Option<seq<Bytes>>)

  datatype Ring = Ring(index: nat, slots: seq<Slot>)

  predicate ValidRing(r: Ring) {
    && r.index < RING_SIZE && |r.slots| == RING_SIZE
    && forall i :: 0 <= i < RING_SIZE && r.slots[i].buffer.None? ==> r.slots[i].sequence == 0
  }

  function FreshRing(): Ring {
    Ring(0, seq(RING_SIZE, _ => Slot(0, None)))
  }

  /** The first slot with the given base sequence, or the number of slots. */
  function FindSlot(slots: seq<Slot>, base: nat): (i: nat)
    ensures i <= |slots| && (i < |slots| ==> slots[i].sequence == base)
    ensures forall j :: 0 <= j < i ==> slots[j].sequence != base
  {
    if slots == [] then 0 else if slots[0].sequence == base then 0 else 1 + FindSlot(slots[1..], base)
  }

  predicate Opens(r: Ring, base: nat)
    requires ValidRing(r)
  {
    var i := FindSlot(r.slots, base);
    i == RING_SIZE || r.slots[i].buffer.None?
  }

  function Empties(n: nat): seq<Bytes> {
    seq(n, _ => [])
  }

  /** The ring once a slot for the base sequence is at hand, and that slot. */
  function WithSlot(r: Ring, base: nat, count: nat): (res: (Ring, nat))
    requires ValidRing(r)
    ensures ValidRing(res.0) && res.1 < RING_SIZE
    ensures res.0.slots[res.1].sequence == base && res.0.slots[res.1].buffer.Some?
  {
    if Opens(r, base) then
      var at := (r.index + 1) % RING_SIZE;
      (Ring(at, r.slots[at := Slot(base, Some(Empties(count)))]), at)
    else (r, FindSlot(r.slots, base))
  }

  predicate AllPresent(buffer: seq<Bytes>) {
    forall i :: 0 <= i < |buffer| ==> buffer[i] != []
  }

  /** reassemble: the ring afterwards, and the packet if it is complete. */
  function Reassembled(r: Ring, payload: Bytes, base: nat, index: nat, count: nat): (res: (Ring, Option<seq<Bytes>>))
    requires ValidRing(r)
    ensures ValidRing(res.0)
  {
    var (s, at) := WithSlot(r, base, count);
    var buffer := s.slots[at].buffer.value;
    if count != |buffer| || index >= |buffer| then (s, None)
    else
      var filled := buffer[index := payload];
      if AllPresent(filled) then (s.(slots := s.slots[at := Slot(0, None)]), Some(filled))
      else (s.(slots := s.slots[at := Slot(base, Some(filled))]), None)
  }

  /** Base sequence of a frame that takes part in reassembly. */
  function Key(o: Options, f: LpFrame): Option<nat> {
    if f.fragment == [] || !o.reassembly || f.sequence.None? then None
    else
      var index, count := GetOr(f.fragIndex, 0), GetOr(f.fragCount, 1);
      if index == 0 && count == 1 then None else Some((f.sequence.value - index) % TWO_TO_64)
  }

  /** The part of handleIncomingFrame up to the network packet, if there is one. */
  function Received(o: Options, r: Ring, f: LpFrame): (res: (Ring, Option<seq<Bytes>>))
    requires ValidRing(r)
    ensures ValidRing(res.0)
  {
    if f.fragment == [] then (r, None)
    else if Key(o, f).Some? then
      Reassembled(r, f.fragment, Key(o, f).value, GetOr(f.fragIndex, 0), GetOr(f.fragCount, 1))
    else if o.reassembly && f.sequence.Some? then (r, Some([f.fragment]))
    else if f.fragCount.Some? || f.fragIndex.Some? then (r, None)
    else (r, Some([f.fragment]))
  }

  function After(o: Options, r: Ring, fs: seq<LpFrame>): (res: Ring)
    requires ValidRing(r)
    ensures ValidRing(res)
  {
    if fs == [] then r else Received(o, After(o, r, fs[..|fs| - 1]), fs[|fs| - 1]).0
  }

  /** What the k-th of a series of frames delivers. */
  function Delivers(o: Options, r: Ring, fs: seq<LpFrame>, k: nat): Option<seq<Bytes>>
    requires ValidRing(r) && k < |fs|
  {
    Received(o, After(o, r, fs[..k]), fs[k]).1
  }

  predicate OpensAt(o: Options, r: Ring, fs: seq<LpFrame>, k: nat)
    requires ValidRing(r) && k < |fs|
  {
    Key(o, fs[k]).Some? && Opens(After(o, r, fs[..k]), Key(o, fs[k]).value)
  }

  /** How many new slots the frames from position i up to j open. */
  function Opened(o: Options, r: Ring, fs: seq<LpFrame>, i: nat, j: nat): nat
    requires ValidRing(r) && j <= |fs|
  {
    if j <= i then 0 else Opened(o, r, fs, i, j - 1) + if OpensAt(o, r, fs, j - 1) then 1 else 0
  }

  // ----- Reassembly undoes fragmentation -----

  function Partial(pieces: seq<Bytes>, got: set<nat>): seq<Bytes> {
    seq(|pieces|, i requires 0 <= i < |pieces| => if i in got then pieces[i] else [])
  }

  predicate AllGot(n: nat, got: set<nat>) {
    forall i: nat :: i < n ==> i in got
  }

  /** No pieces are being collected for the base sequence. */
  predicate NoSlotFor(r: Ring, base: nat) {
    forall i :: 0 <= i < |r.slots| && r.slots[i].sequence == base ==> r.slots[i].buffer.None?
  }

  /** Slot `at` is the only one collecting pieces for the base sequence and holds those received;
      `opens` slots have been opened after it. */
  predicate Holding(r: Ring, base: nat, pieces: seq<Bytes>, got: set<nat>, at: nat, opens: nat) {
    && ValidRing(r) && at < RING_SIZE
    && r.slots[at] == Slot(base, Some(Partial(pieces, got)))
    && (forall i :: 0 <= i < RING_SIZE && i != at && r.slots[i].sequence == base ==> r.slots[i].buffer.None?)
    && r.index == (at + opens) % RING_SIZE && opens < RING_SIZE
  }

  /** The search for the base sequence gets as far as slot `at`. */
  predicate Findable(r: Ring, base: nat, at: nat) {
    forall i :: 0 <= i < at && i < |r.slots| ==> r.slots[i].sequence != base
  }

  /** Only base sequence 0, the mark of free slots, can hide a slot. */
  lemma HiddenOnlyByZero(r: Ring, base: nat, pieces: seq<Bytes>, got: set<nat>, at: nat, opens: nat)
    requires Holding(r, base, pieces, got, at, opens)
    ensures base != 0 ==> Findable(r, base, at)
    ensures Findable(r, base, at) <==> !Opens(r, base)
    ensures Findable(r, base, at) <==> FindSlot(r.slots, base) == at
  {
  }

  /** Every slot for the base sequence lacks a piece that has already arrived. */
  ghost predicate Lost(r: Ring, base: nat, n: nat, got: set<nat>) {
    forall i :: 0 <= i < |r.slots| && r.slots[i].sequence == base && r.slots[i].buffer.Some? ==>
      Lacks(r.slots[i].buffer.value, n, got)
  }

  ghost predicate Lacks(buffer: seq<Bytes>, n: nat, got: set<nat>) {
    |buffer| == n && exists m: nat :: m < n && m in got && buffer[m] == []
  }

  lemma FirstPiece(r: Ring, base: nat, pieces: seq<Bytes>, j: nat)
    requires ValidRing(r) && NoSlotFor(r, base) && j < |pieces| && |pieces| >= 2
    ensures var res := Reassembled(r, pieces[j], base, j, |pieces|);
      Opens(r, base) && res.1.None? && Holding(res.0, base, pieces, {j}, (r.index + 1) % RING_SIZE, 0)
  {
    var filled := Empties(|pieces|)[j := pieces[j]];
    assert filled == Partial(pieces, {j});
    assert !AllPresent(filled) by { assert filled[if j == 0 then 1 else 0] == []; }
  }

  /** A further piece joins the others exactly when its slot can be found; then the last one delivers
      the packet. If not, the packet is lost. */
  lemma NextPiece(r: Ring, base: nat, pieces: seq<Bytes>, got: set<nat>, at: nat, opens: nat, j: nat)
    requires Holding(r, base, pieces, got, at, opens) && j < |pieces| && AllPresent(pieces)
    requires got != {} && (forall m :: m in got ==> m < |pieces|) && j !in got
    ensures var res := Reassembled(r, pieces[j], base, j, |pieces|);
      && (Findable(r, base, at) ==> !Opens(r, base))
      && (Findable(r, base, at) && AllGot(|pieces|, got + {j}) ==> res.1 == Some(pieces) && NoSlotFor(res.0, base))
      && (Findable(r, base, at) && !AllGot(|pieces|, got + {j}) ==> res.1.None? && Holding(res.0, base, pieces, got + {j}, at, opens))
      && (!Findable(r, base, at) ==> res.1.None? && Lost(res.0, base, |pieces|, got + {j}))
  {
    HiddenOnlyByZero(r, base, pieces, got, at, opens);
    if Findable(r, base, at) {
      JoinsOthers(r, base, pieces, got, at, opens, j);
    } else {
      StrandsAll(r, base, pieces, got, at, opens, j);
    }
  }

  lemma JoinsOthers(r: Ring, base: nat, pieces: seq<Bytes>, got: set<nat>, at: nat, opens: nat, j: nat)
    requires Holding(r, base, pieces, got, at, opens) && j < |pieces| && AllPresent(pieces)
    requires FindSlot(r.slots, base) == at && !Opens(r, base)
    ensures var res := Reassembled(r, pieces[j], base, j, |pieces|);
      && (AllGot(|pieces|, got + {j}) ==> res.1 == Some(pieces) && NoSlotFor(res.0, base))
      && (!AllGot(|pieces|, got + {j}) ==> res.1.None? && Holding(res.0, base, pieces, got + {j}, at, opens))
  {
    var filled := Partial(pieces, got)[j := pieces[j]];
    assert filled == Partial(pieces, got + {j});
    if AllGot(|pieces|, got + {j}) {
      assert filled == pieces by {
        forall i | 0 <= i < |pieces| ensures filled[i] == pieces[i] { assert i in got + {j}; }
      }
    } else {
      var i: nat :| i < |pieces| && i !in got + {j};
      assert filled[i] == [];
    }
  }

  lemma StrandsAll(r: Ring, base: nat, pieces: seq<Bytes>, got: set<nat>, at: nat, opens: nat, j: nat)
    requires Holding(r, base, pieces, got, at, opens) && j < |pieces| && Opens(r, base)
    requires got != {} && (forall m :: m in got ==> m < |pieces|) && j !in got
    ensures var res := Reassembled(r, pieces[j], base, j, |pieces|);
      res.1.None? && Lost(res.0, base, |pieces|, got + {j})
  {
    var m :| m in got;
    var filled := Empties(|pieces|)[j := pieces[j]];
    assert filled[m] == [] && m in got + {j};
    assert Lacks(filled, |pieces|, got + {j});
    assert Partial(pieces, got)[j] == [] && j in got + {j};
    assert Lacks(Partial(pieces, got), |pieces|, got + {j});
    var res := Reassembled(r, pieces[j], base, j, |pieces|);
    var fresh' := (r.index + 1) % RING_SIZE;
    assert res.0.slots == r.slots[fresh' := Slot(base, Some(filled))];
  }

  /** Once lost, a packet stays lost: the pieces that are missing do not come again. */
  lemma StaysLost(r: Ring, base: nat, pieces: seq<Bytes>, got: set<nat>, j: nat)
    requires ValidRing(r) && Lost(r, base, |pieces|, got) && j < |pieces| && j !in got
    requires got != {} && forall m :: m in got ==> m < |pieces|
    ensures var res := Reassembled(r, pieces[j], base, j, |pieces|);
      res.1.None? && Lost(res.0, base, |pieces|, got + {j})
  {
    var (s, at) := WithSlot(r, base, |pieces|);
    var buffer := s.slots[at].buffer.value;
    var m: nat :| m < |pieces| && m in got && (Opens(r, base) || buffer[m] == []);
    var filled := buffer[j := pieces[j]];
    assert filled[m] == [] && m in got + {j};
    assert Lacks(filled, |pieces|, got + {j});
    forall i | 0 <= i < RING_SIZE && i != at && r.slots[i].sequence == base && r.slots[i].buffer.Some?
      ensures Lacks(r.slots[i].buffer.value, |pieces|, got + {j})
    {
      LacksMore(r.slots[i].buffer.value, |pieces|, got, j);
    }
  }

  lemma LacksMore(buffer: seq<Bytes>, n: nat, got: set<nat>, j: nat)
    requires Lacks(buffer, n, got)
    ensures Lacks(buffer, n, got + {j})
  {
    var m: nat :| m < n && m in got && buffer[m] == [];
    assert m in got + {j};
  }

  lemma OtherFrameLost(r: Ring, base: nat, n: nat, got: set<nat>, payload: Bytes, other: nat, index: nat, count: nat)
    requires ValidRing(r) && Lost(r, base, n, got) && other != base
    ensures Lost(Reassembled(r, payload, other, index, count).0, base, n, got)
  {
    hide Lacks;
  }

  /** Writing to another slot leaves the pieces alone. */
  lemma OtherSlot(r: Ring, base: nat, pieces: seq<Bytes>, got: set<nat>, at: nat, opens: nat, i: nat, slot: Slot)
    requires Holding(r, base, pieces, got, at, opens) && i < RING_SIZE && i != at
    requires if slot.buffer.None? then slot.sequence == 0 else slot.sequence != base
    ensures Holding(r.(slots := r.slots[i := slot]), base, pieces, got, at, opens)
  {
    hide Partial;
  }

  lemma OtherOpens(r: Ring, base: nat, pieces: seq<Bytes>, got: set<nat>, at: nat, opens: nat, other: nat, count: nat)
    requires Holding(r, base, pieces, got, at, opens) && other != base
    requires Opens(r, other) ==> opens + 1 < RING_SIZE
    ensures var (s, i) := WithSlot(r, other, count);
      i != at && Holding(s, base, pieces, got, at, opens + if Opens(r, other) then 1 else 0)
  {
    hide Partial, Empties;
    if Opens(r, other) {
      NextIndex(at, opens);
      var i := (r.index + 1) % RING_SIZE;
      var slot := Slot(other, Some(Empties(count)));
      OtherSlot(r, base, pieces, got, at, opens, i, slot);
      assert WithSlot(r, other, count) == (Ring(i, r.slots[i := slot]), i);
      IndexMoves(r.(slots := r.slots[i := slot]), base, pieces, got, at, opens, i);
    }
  }

  lemma NextIndex(at: nat, opens: nat)
    requires at < RING_SIZE && opens + 1 < RING_SIZE
    ensures ((at + opens) % RING_SIZE + 1) % RING_SIZE == (at + opens + 1) % RING_SIZE != at
  {
  }

  lemma IndexMoves(r: Ring, base: nat, pieces: seq<Bytes>, got: set<nat>, at: nat, opens: nat, i: nat)
    requires Holding(r, base, pieces, got, at, opens) && opens + 1 < RING_SIZE && i == (at + opens + 1) % RING_SIZE
    ensures Holding(r.(index := i), base, pieces, got, at, opens + 1)
  {
    hide Partial;
  }

  /** Frames of other packets leave the pieces alone until the ring comes round. */
  lemma OtherFrame(r: Ring, base: nat, pieces: seq<Bytes>, got: set<nat>, at: nat, opens: nat,
                   payload: Bytes, other: nat, index: nat, count: nat)
    requires Holding(r, base, pieces, got, at, opens) && other != base
    requires Opens(r, other) ==> opens + 1 < RING_SIZE
    ensures Holding(Reassembled(r, payload, other, index, count).0, base, pieces, got, at, opens + if Opens(r, other) then 1 else 0)
  {
    assert ValidRing(r);
    hide Partial, Holding, Opens, FindSlot;
    OtherOpens(r, base, pieces, got, at, opens, other, count);
    var (s, i) := WithSlot(r, other, count);
    var now := opens + if Opens(r, other) then 1 else 0;
    var buffer := s.slots[i].buffer.value;
    if index < |buffer| {
      var filled := buffer[index := payload];
      OtherSlot(s, base, pieces, got, at, now, i, if AllPresent(filled) then Slot(0, None) else Slot(other, Some(filled)));
    }
  }

  lemma OtherFrameIdle(r: Ring, base: nat, payload: Bytes, other: nat, index: nat, count: nat)
    requires ValidRing(r) && NoSlotFor(r, base) && other != base
    ensures NoSlotFor(Reassembled(r, payload, other, index, count).0, base)
  {
  }

  /** Indices of the pieces of the packet with the given base among the frames. */
  function Got(o: Options, fs: seq<LpFrame>, base: nat): set<nat> {
    set i | 0 <= i < |fs| && Key(o, fs[i]) == Some(base) :: GetOr(fs[i].fragIndex, 0)
  }

  /** The arrivals with the given base are pieces of the packet, each at most once. */
  ghost predicate Arrives(o: Options, fs: seq<LpFrame>, base: nat, pieces: seq<Bytes>) {
    && (forall i :: 0 <= i < |fs| && Key(o, fs[i]) == Some(base) ==> IsPiece(fs[i], pieces))
    && (forall i, j :: 0 <= i < j < |fs| && Key(o, fs[i]) == Some(base) && Key(o, fs[j]) == Some(base) ==>
          fs[i].fragIndex != fs[j].fragIndex)
  }

  predicate IsPiece(f: LpFrame, pieces: seq<Bytes>) {
    && f.fragIndex.Some? && f.fragIndex.value < |pieces| && f.fragCount == Some(|pieces|)
    && f.fragment == pieces[f.fragIndex.value]
  }

  lemma AfterStep(o: Options, r: Ring, fs: seq<LpFrame>, k: nat)
    requires ValidRing(r) && k < |fs|
    ensures After(o, r, fs[..k + 1]) == Received(o, After(o, r, fs[..k]), fs[k]).0
  {
    assert fs[..k + 1][..k] == fs[..k];
  }

  lemma GotStep(o: Options, fs: seq<LpFrame>, base: nat, k: nat)
    requires k < |fs|
    ensures Got(o, fs[..k + 1], base)
            == Got(o, fs[..k], base) + if Key(o, fs[k]) == Some(base) then {GetOr(fs[k].fragIndex, 0)} else {}
  {
    var more, less := fs[..k + 1], fs[..k];
    forall x | x in Got(o, less, base) ensures x in Got(o, more, base) {
      var i :| 0 <= i < |less| && Key(o, less[i]) == Some(base) && x == GetOr(less[i].fragIndex, 0);
      assert more[i] == less[i];
    }
    if Key(o, fs[k]) == Some(base) {
      assert more[k] == fs[k];
    }
    forall x | x in Got(o, more, base)
      ensures x in Got(o, less, base) || (Key(o, fs[k]) == Some(base) && x == GetOr(fs[k].fragIndex, 0))
    {
      var i :| 0 <= i < |more| && Key(o, more[i]) == Some(base) && x == GetOr(more[i].fragIndex, 0);
      assert i < k ==> less[i] == more[i];
    }
  }

  /** A piece that arrives was not there before. */
  lemma GotOnce(o: Options, fs: seq<LpFrame>, base: nat, pieces: seq<Bytes>, k: nat)
    requires Arrives(o, fs, base, pieces) && k < |fs| && Key(o, fs[k]) == Some(base)
    ensures GetOr(fs[k].fragIndex, 0) !in Got(o, fs[..k], base)
  {
    forall i | 0 <= i < k && Key(o, fs[..k][i]) == Some(base)
      ensures GetOr(fs[..k][i].fragIndex, 0) != GetOr(fs[k].fragIndex, 0)
    {
      assert IsPiece(fs[i], pieces) && IsPiece(fs[k], pieces) && fs[..k][i] == fs[i];
    }
  }

  /** Before its first piece arrives, no slot is in use for a packet. */
  lemma {:induction false} BeforeFirst(o: Options, r: Ring, fs: seq<LpFrame>, base: nat, k: nat)
    requires ValidRing(r) && NoSlotFor(r, base) && k <= |fs|
    requires forall i :: 0 <= i < k ==> Key(o, fs[i]) != Some(base)
    ensures NoSlotFor(After(o, r, fs[..k]), base)
    ensures Got(o, fs[..k], base) == {}
  {
    if k > 0 {
      BeforeFirst(o, r, fs, base, k - 1);
      AfterStep(o, r, fs, k - 1);
      GotStep(o, fs, base, k - 1);
      var f, before := fs[k - 1], After(o, r, fs[..k - 1]);
      if Key(o, f).Some? {
        OtherFrameIdle(before, base, f.fragment, Key(o, f).value, GetOr(f.fragIndex, 0), GetOr(f.fragCount, 1));
      }
    }
  }

  /** Where the first piece, arriving at position `first`, is put. */
  function Home(o: Options, r: Ring, fs: seq<LpFrame>, first: nat): nat
    requires ValidRing(r) && first < |fs|
  {
    (After(o, r, fs[..first]).index + 1) % RING_SIZE
  }

  /** Every further piece up to the k-th frame found the slot of the first. */
  ghost predicate AllFound(o: Options, r: Ring, fs: seq<LpFrame>, base: nat, first: nat, k: nat)
    requires ValidRing(r) && first <= k < |fs|
  {
    forall j {:trigger fs[j]} :: first < j <= k && Key(o, fs[j]) == Some(base) ==>
      Findable(After(o, r, fs[..j]), base, Home(o, r, fs, first))
  }

  /** The state of a packet after the k-th frame: being collected, complete and forgotten, or lost. */
  ghost predicate Tracked(o: Options, r: Ring, fs: seq<LpFrame>, base: nat, pieces: seq<Bytes>, first: nat, k: nat)
    requires ValidRing(r) && first <= k < |fs|
  {
    var now, got := After(o, r, fs[..k + 1]), Got(o, fs[..k + 1], base);
    if !AllFound(o, r, fs, base, first, k) then Lost(now, base, |pieces|, got)
    else if AllGot(|pieces|, got) then NoSlotFor(now, base)
    else Holding(now, base, pieces, got, Home(o, r, fs, first), Opened(o, r, fs, first + 1, k + 1))
  }

  /** Position `first` is where the first piece arrives. */
  predicate Begins(o: Options, fs: seq<LpFrame>, base: nat, first: nat) {
    first < |fs| && Key(o, fs[first]) == Some(base) && forall i :: 0 <= i < first ==> Key(o, fs[i]) != Some(base)
  }

  predicate Deliverable(pieces: seq<Bytes>) {
    |pieces| >= 2 && AllPresent(pieces)
  }

  lemma {:induction false} TrackedAlong(o: Options, r: Ring, fs: seq<LpFrame>, base: nat, pieces: seq<Bytes>, first: nat, k: nat)
    requires ValidRing(r) && NoSlotFor(r, base) && Deliverable(pieces)
    requires Arrives(o, fs, base, pieces) && Begins(o, fs, base, first) && first <= k < |fs|
    requires Opened(o, r, fs, first + 1, k + 1) < RING_SIZE
    ensures Tracked(o, r, fs, base, pieces, first, k)
    ensures Key(o, fs[k]) == Some(base) ==>
      Delivers(o, r, fs, k)
      == if AllFound(o, r, fs, base, first, k) && AllGot(|pieces|, Got(o, fs[..k + 1], base)) then Some(pieces) else None
  {
    hide Holding, Reassembled, Opens, Got, After, Lost;
    var f, before := fs[k], After(o, r, fs[..k]);
    AfterStep(o, r, fs, k);
    GotStep(o, fs, base, k);
    if k == first {
      BeforeFirst(o, r, fs, base, k);
      assert IsPiece(f, pieces);
      FirstPiece(before, base, pieces, f.fragIndex.value);
      NotAllOfOne(|pieces|, f.fragIndex.value);
    } else {
      assert fs[..k - 1 + 1] == fs[..k];
      assert Opened(o, r, fs, first + 1, k + 1) == Opened(o, r, fs, first + 1, k) + if OpensAt(o, r, fs, k) then 1 else 0;
      TrackedAlong(o, r, fs, base, pieces, first, k - 1);
      assert Tracked(o, r, fs, base, pieces, first, k - 1);
      TrackedStep(o, r, fs, base, pieces, first, k);
    }
  }

  lemma NotAllOfOne(n: nat, j: nat)
    requires n >= 2
    ensures !AllGot(n, {j}) && {} + {j} == {j}
  {
    var i: nat, got := if j == 0 then 1 else 0, {j};
    assert i < n && i !in got;
  }

  lemma GotPieces(o: Options, fs: seq<LpFrame>, base: nat, pieces: seq<Bytes>, first: nat, k: nat)
    requires first < k <= |fs| && Arrives(o, fs, base, pieces) && Key(o, fs[first]) == Some(base)
    ensures Got(o, fs[..k], base) != {} && forall m :: m in Got(o, fs[..k], base) ==> m < |pieces|
  {
    var part, got := fs[..k], Got(o, fs[..k], base);
    assert part[first] == fs[first];
    assert GetOr(part[first].fragIndex, 0) in got;
    forall m | m in got ensures m < |pieces| {
      var i :| 0 <= i < |part| && Key(o, part[i]) == Some(base) && m == GetOr(part[i].fragIndex, 0);
      assert IsPiece(fs[i], pieces);
    }
  }

  lemma FoundStep(o: Options, r: Ring, fs: seq<LpFrame>, base: nat, first: nat, k: nat)
    requires ValidRing(r) && first < k < |fs|
    ensures AllFound(o, r, fs, base, first, k)
      <==> (AllFound(o, r, fs, base, first, k - 1)
            && (Key(o, fs[k]) == Some(base) ==> Findable(After(o, r, fs[..k]), base, Home(o, r, fs, first))))
  {
    hide After, Findable, Key, Home;
    if AllFound(o, r, fs, base, first, k) {
      assert Key(o, fs[k]) == Some(base) ==> Findable(After(o, r, fs[..k]), base, Home(o, r, fs, first));
    }
  }

  lemma TrackedStep(o: Options, r: Ring, fs: seq<LpFrame>, base: nat, pieces: seq<Bytes>, first: nat, k: nat)
    requires ValidRing(r) && Deliverable(pieces)
    requires Arrives(o, fs, base, pieces) && first < k < |fs| && Key(o, fs[first]) == Some(base)
    requires Opened(o, r, fs, first + 1, k + 1) < RING_SIZE
    requires Tracked(o, r, fs, base, pieces, first, k - 1)
    ensures Tracked(o, r, fs, base, pieces, first, k)
    ensures Key(o, fs[k]) == Some(base) ==>
      Delivers(o, r, fs, k)
      == if AllFound(o, r, fs, base, first, k) && AllGot(|pieces|, Got(o, fs[..k + 1], base)) then Some(pieces) else None
  {
    hide Holding, Reassembled, Opens, Got, After, AllFound, Lost, Findable, Home;
    var f, before, got := fs[k], After(o, r, fs[..k]), Got(o, fs[..k], base);
    var at, opens := Home(o, r, fs, first), Opened(o, r, fs, first + 1, k);
    assert fs[..k - 1 + 1] == fs[..k];
    AfterStep(o, r, fs, k);
    GotStep(o, fs, base, k);
    GotPieces(o, fs, base, pieces, first, k);
    FoundStep(o, r, fs, base, first, k);
    var found := AllFound(o, r, fs, base, first, k - 1);
    if Key(o, f) == Some(base) {
      assert IsPiece(f, pieces);
      GotOnce(o, fs, base, pieces, k);
      if found {
        assert !AllGot(|pieces|, got) by { assert f.fragIndex.value !in got; }
        NextPiece(before, base, pieces, got, at, opens, f.fragIndex.value);
      } else {
        StaysLost(before, base, pieces, got, f.fragIndex.value);
      }
    } else {
      assert Got(o, fs[..k + 1], base) == got;
      if Key(o, f).Some? {
        var other, index, count := Key(o, f).value, GetOr(f.fragIndex, 0), GetOr(f.fragCount, 1);
        if !found {
          OtherFrameLost(before, base, |pieces|, got, f.fragment, other, index, count);
        } else if AllGot(|pieces|, got) {
          OtherFrameIdle(before, base, f.fragment, other, index, count);
        } else {
          OtherFrame(before, base, pieces, got, at, opens, f.fragment, other, index, count);
        }
      }
    }
  }

  /** With a base sequence other than 0 every piece is found. */
  lemma {:induction false} NonZeroFound(o: Options, r: Ring, fs: seq<LpFrame>, base: nat, pieces: seq<Bytes>, first: nat, k: nat)
    requires ValidRing(r) && NoSlotFor(r, base) && Deliverable(pieces) && base != 0
    requires Arrives(o, fs, base, pieces) && Begins(o, fs, base, first) && first <= k < |fs|
    requires Opened(o, r, fs, first + 1, k + 1) < RING_SIZE
    ensures AllFound(o, r, fs, base, first, k)
  {
    hide Holding, Opens, Got, After, Findable;
    if k > first {
      NonZeroFound(o, r, fs, base, pieces, first, k - 1);
      TrackedAlong(o, r, fs, base, pieces, first, k - 1);
      FoundStep(o, r, fs, base, first, k);
      var before, got := After(o, r, fs[..k]), Got(o, fs[..k], base);
      assert fs[..k - 1 + 1] == fs[..k];
      if Key(o, fs[k]) == Some(base) {
        GotOnce(o, fs, base, pieces, k);
        assert IsPiece(fs[k], pieces);
        assert !AllGot(|pieces|, got) by { assert fs[k].fragIndex.value !in got; }
        HiddenOnlyByZero(before, base, pieces, got, Home(o, r, fs, first), Opened(o, r, fs, first + 1, k));
      }
    }
  }

  /** Reassembly undoes fragmentation. The frames of a fragmented packet arrive in any order, each
      at most once, mixed with arbitrary other frames. As long as at most 15 new slots have been
      opened since its first frame, a frame of the packet delivers nothing until it completes the
      packet, and then exactly the bytes sent, provided that every piece found the slot of the first.
      It always does unless the base sequence is 0, which free slots carry too. */
  lemma ReassemblyUndoesFragmentation(send: Options, mtu: nat, out: OutPacket, mark: Option<nat>, next: nat,
                                      o: Options, r: Ring, fs: seq<LpFrame>, first: nat, k: nat)
    requires EffectiveMtu(send, mtu, out, mark) > 0 && out.wire != [] && o.reassembly
    requires |Frames(send, mtu, out, mark, next)| >= 2
    requires var base := (next + 1) % TWO_TO_64;
      var frames := Frames(send, mtu, out, mark, next);
      && ValidRing(r) && NoSlotFor(r, base)
      && Begins(o, fs, base, first) && first <= k < |fs| && Key(o, fs[k]) == Some(base)
      && (forall i :: 0 <= i < |fs| && Key(o, fs[i]) == Some(base) ==> fs[i] in frames)
      && (forall i, j :: 0 <= i < j < |fs| && Key(o, fs[i]) == Some(base) == Key(o, fs[j]) ==> fs[i] != fs[j])
      && Opened(o, r, fs, first + 1, k + 1) <= 15
    ensures var got, base := Delivers(o, r, fs, k), (next + 1) % TWO_TO_64;
      if AllIn(Frames(send, mtu, out, mark, next), fs[..k + 1]) && AllFound(o, r, fs, base, first, k)
      then got.Some? && Join(got.value) == out.wire else got.None?
    ensures (next + 1) % TWO_TO_64 != 0 ==> AllFound(o, r, fs, (next + 1) % TWO_TO_64, first, k)
  {
    hide Frames, Tracked, Delivers, Opened, Got, Key, IsPiece, AllFound;
    var base, frames := (next + 1) % TWO_TO_64, Frames(send, mtu, out, mark, next);
    var pieces := Chop(out.wire, EffectiveMtu(send, mtu, out, mark));
    ChopJoins(out.wire, EffectiveMtu(send, mtu, out, mark));
    FramesOfPieces(send, mtu, out, mark, next);
    ArrivalsArePieces(send, mtu, out, mark, next, o, fs);
    TrackedAlong(o, r, fs, base, pieces, first, k);
    if base != 0 {
      NonZeroFound(o, r, fs, base, pieces, first, k);
    }
    var arrived := fs[..k + 1];
    forall i | 0 <= i < |arrived| && Key(o, arrived[i]) == Some(base) ensures arrived[i] in frames {
      assert arrived[i] == fs[i];
    }
    GotFrames(send, mtu, out, mark, next, o, arrived);
  }

  predicate AllIn(frames: seq<LpFrame>, fs: seq<LpFrame>) {
    forall i :: 0 <= i < |frames| ==> frames[i] in fs
  }

  lemma FramesOfPieces(send: Options, mtu: nat, out: OutPacket, mark: Option<nat>, next: nat)
    requires EffectiveMtu(send, mtu, out, mark) > 0 && |Frames(send, mtu, out, mark, next)| >= 2
    ensures var room := EffectiveMtu(send, mtu, out, mark);
      |out.wire| > room && |Frames(send, mtu, out, mark, next)| == |Chop(out.wire, room)|
  {
  }

  lemma ArrivalsArePieces(send: Options, mtu: nat, out: OutPacket, mark: Option<nat>, next: nat, o: Options, fs: seq<LpFrame>)
    requires EffectiveMtu(send, mtu, out, mark) > 0 && |Frames(send, mtu, out, mark, next)| >= 2
    requires var base := (next + 1) % TWO_TO_64;
      && (forall i :: 0 <= i < |fs| && Key(o, fs[i]) == Some(base) ==> fs[i] in Frames(send, mtu, out, mark, next))
      && (forall i, j :: 0 <= i < j < |fs| && Key(o, fs[i]) == Some(base) == Key(o, fs[j]) ==> fs[i] != fs[j])
    ensures Arrives(o, fs, (next + 1) % TWO_TO_64, Chop(out.wire, EffectiveMtu(send, mtu, out, mark)))
  {
    hide Frames, Key, IsPiece;
    var base := (next + 1) % TWO_TO_64;
    forall i | 0 <= i < |fs| && Key(o, fs[i]) == Some(base)
      ensures IsPiece(fs[i], Chop(out.wire, EffectiveMtu(send, mtu, out, mark)))
    {
      FrameIsPiece(send, mtu, out, mark, next, fs[i]);
    }
    forall i, j | 0 <= i < j < |fs| && Key(o, fs[i]) == Some(base) && Key(o, fs[j]) == Some(base)
      ensures fs[i].fragIndex != fs[j].fragIndex
    {
      if fs[i].fragIndex == fs[j].fragIndex { SameIndexSameFrame(send, mtu, out, mark, next, fs[i], fs[j]); }
    }
  }

  lemma FrameIsPiece(send: Options, mtu: nat, out: OutPacket, mark: Option<nat>, next: nat, f: LpFrame)
    requires EffectiveMtu(send, mtu, out, mark) > 0 && |Frames(send, mtu, out, mark, next)| >= 2
    requires f in Frames(send, mtu, out, mark, next)
    ensures IsPiece(f, Chop(out.wire, EffectiveMtu(send, mtu, out, mark)))
    ensures f == Frames(send, mtu, out, mark, next)[f.fragIndex.value]
  {
    var frames := Frames(send, mtu, out, mark, next);
    var i :| 0 <= i < |frames| && frames[i] == f;
    assert f.fragIndex == Some(i);
  }

  lemma SameIndexSameFrame(send: Options, mtu: nat, out: OutPacket, mark: Option<nat>, next: nat, f: LpFrame, g: LpFrame)
    requires EffectiveMtu(send, mtu, out, mark) > 0 && |Frames(send, mtu, out, mark, next)| >= 2
    requires f in Frames(send, mtu, out, mark, next) && g in Frames(send, mtu, out, mark, next) && f.fragIndex == g.fragIndex
    ensures f == g
  {
    FrameIsPiece(send, mtu, out, mark, next, f);
    FrameIsPiece(send, mtu, out, mark, next, g);
  }

  /** The receiver recovers the base sequence from every frame of the packet. */
  lemma FrameKey(send: Options, mtu: nat, out: OutPacket, mark: Option<nat>, next: nat, o: Options, i: nat)
    requires EffectiveMtu(send, mtu, out, mark) > 0 && |Frames(send, mtu, out, mark, next)| >= 2 && out.wire != []
    requires i < |Frames(send, mtu, out, mark, next)| && o.reassembly
    ensures Key(o, Frames(send, mtu, out, mark, next)[i]) == Some((next + 1) % TWO_TO_64)
  {
    hide Frames, Chop;
    var f := Frames(send, mtu, out, mark, next)[i];
    FrameFields(send, mtu, out, mark, next, i);
    BackToBase(next + 1, i);
    assert GetOr(f.fragIndex, 0) == i && GetOr(f.fragCount, 1) >= 2;
  }

  lemma FrameFields(send: Options, mtu: nat, out: OutPacket, mark: Option<nat>, next: nat, i: nat)
    requires EffectiveMtu(send, mtu, out, mark) > 0 && |Frames(send, mtu, out, mark, next)| >= 2 && out.wire != []
    requires i < |Frames(send, mtu, out, mark, next)|
    ensures var frames := Frames(send, mtu, out, mark, next);
      && frames[i].sequence == Some((next + 1 + i) % TWO_TO_64) && frames[i].fragIndex == Some(i)
      && frames[i].fragCount == Some(|frames|) && frames[i].fragment != []
  {
    hide Chop;
    var room := EffectiveMtu(send, mtu, out, mark);
    ChopJoins(out.wire, room);
    assert Frames(send, mtu, out, mark, next)[i] == Dressed(send, out, mark, Numbered(Chop(out.wire, room), next)[i]);
  }

  /** Subtracting the index in 64 bits leads back to the base. */
  lemma BackToBase(x: nat, i: nat)
    ensures ((x + i) % TWO_TO_64 - i) % TWO_TO_64 == x % TWO_TO_64
  {
    var q := (x + i) / TWO_TO_64;
    assert (x + i) % TWO_TO_64 == x + i - q * TWO_TO_64;
    ModMultiple(x, q);
  }

  lemma ModMultiple(x: nat, q: nat)
    ensures (x - q * TWO_TO_64) % TWO_TO_64 == x % TWO_TO_64
  {
  }

  lemma GotFrames(send: Options, mtu: nat, out: OutPacket, mark: Option<nat>, next: nat, o: Options, fs: seq<LpFrame>)
    requires EffectiveMtu(send, mtu, out, mark) > 0 && |Frames(send, mtu, out, mark, next)| >= 2 && out.wire != []
    requires var base := (next + 1) % TWO_TO_64;
      && o.reassembly
      && (forall i :: 0 <= i < |fs| && Key(o, fs[i]) == Some(base) ==> fs[i] in Frames(send, mtu, out, mark, next))
    ensures var frames := Frames(send, mtu, out, mark, next);
      AllGot(|frames|, Got(o, fs, (next + 1) % TWO_TO_64)) <==> AllIn(frames, fs)
  {
    var base, frames := (next + 1) % TWO_TO_64, Frames(send, mtu, out, mark, next);
    var got := Got(o, fs, base);
    if AllGot(|frames|, got) {
      forall i | 0 <= i < |frames| ensures frames[i] in fs {
        assert i in got;
        var j :| 0 <= j < |fs| && Key(o, fs[j]) == Some(base) && i == GetOr(fs[j].fragIndex, 0);
        FrameIsPiece(send, mtu, out, mark, next, fs[j]);
      }
    }
    if AllIn(frames, fs) {
      forall i: nat | i < |frames| ensures i in got {
        FrameKey(send, mtu, out, mark, next, o, i);
        var j :| 0 <= j < |fs| && fs[j] == frames[i];
        assert frames[i].fragIndex == Some(i);
      }
    }
  }

  /** The bound of 15 is tight: one more slot and the pieces are gone. */
  lemma SixteenthSlotEvicts(r: Ring, base: nat, pieces: seq<Bytes>, got: set<nat>, at: nat,
                            payload: Bytes, other: nat, index: nat, count: nat)
    requires Holding(r, base, pieces, got, at, 15) && other != base && Opens(r, other)
    ensures NoSlotFor(Reassembled(r, payload, other, index, count).0, base)
  {
    assert (r.index + 1) % RING_SIZE == at;
  }

  /** On a new ring a packet with base sequence 0 is lost: the first slot, still free, hides the
      second, where its first piece was put. */
  lemma ZeroBaseIsLost(a: Bytes, b: Bytes)
    requires a != [] && b != []
    ensures var (r, first) := Reassembled(FreshRing(), a, 0, 0, 2);
      first.None? && Reassembled(r, b, 0, 1, 2).1.None?
  {
    FirstPiece(FreshRing(), 0, [a, b], 0);
    var r := Reassembled(FreshRing(), a, 0, 0, 2).0;
    assert r.slots[0].sequence == 0;
    NextPiece(r, 0, [a, b], {0}, 1, 0, 1);
  }

  /** When the ring has come round to its first slot, such a packet is delivered. */
  lemma ZeroBaseIsDelivered(a: Bytes, b: Bytes)
    requires a != [] && b != []
    ensures var (r, first) := Reassembled(FreshRing().(index := 15), a, 0, 0, 2);
      first.None? && Reassembled(r, b, 0, 1, 2).1 == Some([a, b])
  {
    var ring := FreshRing().(index := 15);
    FirstPiece(ring, 0, [a, b], 0);
    NextPiece(Reassembled(ring, a, 0, 0, 2).0, 0, [a, b], {0}, 0, 0, 1);
    assert AllGot(2, {0} + {1});
  }

  // ----- The link service object -----

  /** The loop of sendPacket that adds the headers common to all frames of a packet. */
  method DressAll(o: Options, out: OutPacket, mark: Option<nat>, fragments: seq<LpFrame>) returns (frames: seq<LpFrame>)
    requires forall i :: 0 <= i < |fragments| ==>
      fragments[i].pitToken == [] && fragments[i].incomingFaceId == fragments[i].mark == fragments[i].nack == None
    ensures |frames| == |fragments|
    ensures forall j :: 0 <= j < |frames| ==> frames[j] == Dressed(o, out, mark, fragments[j])
  {
    frames := [];
    for i := 0 to |fragments|
      invariant |frames| == i && forall j :: 0 <= j < i ==> frames[j] == Dressed(o, out, mark, fragments[j])
    {
      var f := fragments[i];
      if |out.pitToken| > 0 {
        f := f.(pitToken := out.pitToken);
      }
      if o.incomingFace {
        f := f.(incomingFaceId := Some(out.inFace));
      }
      if mark.Some? {
        f := f.(mark := mark);
      }
      if out.nack.Some? {
        f := f.(nack := out.nack);
      }
      frames := frames + [f];
    }
  }

  /** A packet that fits in one frame arrives as it was sent, whatever the receiver's options and ring,
      and leaves the ring alone. */
  lemma UnfragmentedArrives(send: Options, mtu: nat, out: OutPacket, mark: Option<nat>, next: nat, o: Options, r: Ring)
    requires Sendable(send, mtu, out, mark) && ValidRing(r) && out.wire != []
    requires |Frames(send, mtu, out, mark, next)| == 1
    ensures Received(o, r, Frames(send, mtu, out, mark, next)[0]) == (r, Some([out.wire]))
  {
    var room := EffectiveMtu(send, mtu, out, mark);
    if |out.wire| > room {
      ChopJoins(out.wire, room);
    }
  }

  /** A network packet as handed on, with the link headers of the frame that completed it. */
  datatype Arrival = Arrival(wire: seq<Bytes>, pitToken: Bytes, mark: Option<nat>, nack: Option<nat>)

  /** Every frame of a packet carries the same headers. */
  lemma FramesHeaders(o: Options, mtu: nat, out: OutPacket, mark: Option<nat>, next: nat)
    requires Sendable(o, mtu, out, mark)
    ensures var frames := Frames(o, mtu, out, mark, next);
      forall i :: 0 <= i < |frames| ==>
        && frames[i].pitToken == out.pitToken && frames[i].nack == out.nack && frames[i].mark == mark
        && frames[i].incomingFaceId == if o.incomingFace then Some(out.inFace) else None
  {
    hide Chop;
  }

  /** What decoding a frame gives: nothing, a network packet without link headers, or a link packet. */
  datatype Incoming = Malformed | BarePacket(wire: Bytes) | Lp(f: LpFrame)

  class LinkService {
    const options: Options
    var nextSequence: nat
    var reassemblyIndex: nat
    const buffers: array<Slot>

    predicate Valid()
      reads this, buffers
    {
      && buffers.Length == RING_SIZE && reassemblyIndex < RING_SIZE
      && forall i :: 0 <= i < RING_SIZE && buffers[i].buffer.None? ==> buffers[i].sequence == 0
    }

    ghost function TheRing(): (r: Ring)
      reads this, buffers
      requires Valid()
      ensures ValidRing(r)
    {
      Ring(reassemblyIndex, buffers[..])
    }

    constructor (options: Options)
      ensures Valid() && fresh(buffers) && this.options == options
      ensures nextSequence == 0 && TheRing() == FreshRing()
    {
      this.options := options;
      nextSequence, reassemblyIndex := 0, 0;
      buffers := new Slot[RING_SIZE](_ => Slot(0, None));
    }

    /** sendPacket; `congested` is the verdict of checkCongestion. */
    method SendPacket(mtu: nat, out: OutPacket, congested: bool) returns (frames: seq<LpFrame>)
      requires Valid() && ValidToken(out)
      requires Sendable(options, mtu, out, MarkOf(out, congested))
      modifies this`nextSequence
      ensures forall i :: 0 <= i < |frames| ==>
        && frames[i].pitToken == out.pitToken && frames[i].nack == out.nack
        && frames[i].mark == (if out.mark.Some? then out.mark else if congested then Some(1) else None)
        && frames[i].incomingFaceId == if options.incomingFace then Some(out.inFace) else None
      ensures frames == Frames(options, mtu, out, MarkOf(out, congested), old(nextSequence))
      ensures nextSequence == if |frames| <= 1 then old(nextSequence) else (old(nextSequence) + |frames|) % TWO_TO_64
    {
      hide Dressed, Chop;
      var mark := if congested && out.mark.None? then Some(1) else out.mark;
      var room := mtu - HeaderOverhead(options);
      if |out.pitToken| > 0 {
        room := room - PIT_TOKEN_OVERHEAD;
      }
      if mark.Some? {
        room := room - CONGESTION_MARK_OVERHEAD;
      }
      var fragments: seq<LpFrame> := [];
      if |out.wire| > room {
        if !options.fragmentation {
          return [];
        }
        var pieces := Cut(out.wire, room);
        ChopJoins(out.wire, room);
        fragments := NumberAll(pieces);
      } else {
        fragments := [Bare(out.wire)];
      }
      frames := DressAll(options, out, mark, fragments);
      assert frames == Frames(options, mtu, out, mark, old(nextSequence));
      FramesHeaders(options, mtu, out, mark, old(nextSequence));
    }

    /** The loop of sendPacket that numbers the pieces. */
    method NumberAll(pieces: seq<Bytes>) returns (fragments: seq<LpFrame>)
      requires pieces != []
      modifies this`nextSequence
      ensures fragments == Numbered(pieces, old(nextSequence))
      ensures nextSequence == (old(nextSequence) + |pieces|) % TWO_TO_64
    {
      fragments := [];
      for i := 0 to |pieces|
        invariant nextSequence == if i == 0 then old(nextSequence) else (old(nextSequence) + i) % TWO_TO_64
        invariant fragments == Numbered(pieces, old(nextSequence))[..i]
      {
        nextSequence := (nextSequence + 1) % TWO_TO_64;
        ModStep(old(nextSequence), i);
        fragments := fragments + [LpFrame(Some(nextSequence), Some(i), Some(|pieces|), [], None, None, None, pieces[i])];
      }
    }

    /** reassemble */
    method Reassemble(payload: Bytes, base: nat, index: nat, count: nat) returns (packet: Option<seq<Bytes>>)
      requires Valid()
      modifies this`reassemblyIndex, buffers
      ensures Valid()
      ensures (TheRing(), packet) == Reassembled(old(TheRing()), payload, base, index, count)
    {
      ghost var ring := TheRing();
      var at := 0;
      while at < RING_SIZE && buffers[at].sequence != base
        invariant at <= RING_SIZE && forall j :: 0 <= j < at ==> buffers[j].sequence != base
      {
        at := at + 1;
      }
      assert at == FindSlot(ring.slots, base);
      if at == RING_SIZE || buffers[at].buffer.None? {
        at := (reassemblyIndex + 1) % RING_SIZE;
        reassemblyIndex := at;
        buffers[at] := Slot(base, Some(Empties(count)));
      }
      ghost var (s, slot) := WithSlot(ring, base, count);
      assert buffers[..] == s.slots && slot == at;
      var buffer := buffers[at].buffer.value;
      if count != |buffer| || index >= |buffer| {
        return None;
      }
      buffer := buffer[index := payload];
      buffers[at] := buffers[at].(buffer := Some(buffer));
      var complete := true;
      for i := 0 to |buffer|
        invariant complete <==> forall j :: 0 <= j < i ==> buffer[j] != []
      {
        if buffer[i] == [] {
          complete := false;
        }
      }
      if !complete {
        assert buffers[..] == s.slots[at := Slot(base, Some(buffer))];
        return None;
      }
      buffers[at] := Slot(0, None);
      assert buffers[..] == s.slots[at := Slot(0, None)];
      return Some(buffer);
    }

    /** handleIncomingFrame, up to the network packet. */
    method HandleIncomingFrame(frame: Incoming) returns (packet: Option<Arrival>)
      requires Valid()
      modifies this`reassemblyIndex, buffers
      ensures Valid()
      ensures match frame
              case Malformed => packet == None && TheRing() == old(TheRing())
              case BarePacket(wire) => packet == Some(Arrival([wire], [], None, None)) && TheRing() == old(TheRing())
              case Lp(f) =>
                var (ring, wire) := Received(options, old(TheRing()), f);
                TheRing() == ring && packet == if wire.None? then None else Some(Arrival(wire.value, f.pitToken, f.mark, f.nack))
      ensures frame.Lp? && frame.f.fragment != [] && frame.f.sequence == frame.f.fragIndex == frame.f.fragCount == None ==>
        packet == Some(Arrival([frame.f.fragment], frame.f.pitToken, frame.f.mark, frame.f.nack)) && TheRing() == old(TheRing())
    {
      match frame
      case Malformed => packet := None;
      case BarePacket(wire) => packet := Some(Arrival([wire], [], None, None));
      case Lp(f) =>
        var wire := HandleLpPacket(f);
        packet := if wire.None? then None else Some(Arrival(wire.value, f.pitToken, f.mark, f.nack));
    }

    /** The branch of handleIncomingFrame for link packets. */
    method HandleLpPacket(f: LpFrame) returns (packet: Option<seq<Bytes>>)
      requires Valid()
      modifies this`reassemblyIndex, buffers
      ensures Valid()
      ensures (TheRing(), packet) == Received(options, old(TheRing()), f)
      ensures f.fragment == [] ==> packet == None && TheRing() == old(TheRing())
      ensures f.fragment != [] && f.sequence == f.fragIndex == f.fragCount == None ==>
        packet == Some([f.fragment]) && TheRing() == old(TheRing())
      ensures f.fragment != [] && options.reassembly && f.sequence.Some? && f.fragIndex in {None, Some(0)} && f.fragCount in {None, Some(1)} ==>
        packet == Some([f.fragment]) && TheRing() == old(TheRing())
      ensures f.fragment != [] && !options.reassembly && f.fragIndex == f.fragCount == None ==>
        packet == Some([f.fragment]) && TheRing() == old(TheRing())
      ensures (!options.reassembly || f.sequence == None) && (f.fragIndex.Some? || f.fragCount.Some?) ==>
        packet == None && TheRing() == old(TheRing())
    {
      if f.fragment == [] {
        return None;
      }
      if options.reassembly && f.sequence.Some? {
        var index := if f.fragIndex.Some? then f.fragIndex.value else 0;
        var count := if f.fragCount.Some? then f.fragCount.value else 1;
        var base := (f.sequence.value - index) % TWO_TO_64;
        if index == 0 && count == 1 {
          packet := Some([f.fragment]);
        } else {
          packet := Reassemble(f.fragment, base, index, count);
        }
      } else if f.fragCount.Some? || f.fragIndex.Some? {
        packet := None;
      } else {
        packet := Some([f.fragment]);
      }
    }
  }

  lemma ModStep(next: nat, i: nat)
    ensures ((next + i) % TWO_TO_64 + 1) % TWO_TO_64 == (next + 1 + i) % TWO_TO_64
    ensures (next + 1) % TWO_TO_64 == (next + 1 + 0) % TWO_TO_64
  {
  }

  // ----- From one link service to another -----

  function UpTo(i: nat): (r: set<nat>)
    ensures forall k: nat :: k in r <==> k < i
  {
    if i == 0 then {} else UpTo(i - 1) + {i - 1}
  }

  lemma UpToNext(i: nat)
    ensures UpTo(i + 1) == UpTo(i) + {i} && UpTo(1) == {0} && i !in UpTo(i) && (i > 0 ==> 0 in UpTo(i))
    ensures forall n: nat :: AllGot(n, UpTo(i)) <==> n <= i
  {
    forall n: nat ensures AllGot(n, UpTo(i)) <==> n <= i {
      assert i !in UpTo(i);
    }
  }

  /** What the receiver has of a packet after its first `i` frames. */
  ghost predicate HasFirst(r: Ring, base: nat, pieces: seq<Bytes>, i: nat) {
    ValidRing(r) && if i == 0 then NoSlotFor(r, base) else exists at: nat :: Holding(r, base, pieces, UpTo(i), at, 0)
  }

  /** The frames of a packet, received in order. */
  lemma InOrder(send: Options, mtu: nat, out: OutPacket, mark: Option<nat>, next: nat, o: Options, r: Ring, i: nat)
    requires EffectiveMtu(send, mtu, out, mark) > 0 && out.wire != [] && |Frames(send, mtu, out, mark, next)| >= 2
    requires o.reassembly && i < |Frames(send, mtu, out, mark, next)| && (next + 1) % TWO_TO_64 != 0
    requires HasFirst(r, (next + 1) % TWO_TO_64, Chop(out.wire, EffectiveMtu(send, mtu, out, mark)), i)
    ensures var frames, pieces := Frames(send, mtu, out, mark, next), Chop(out.wire, EffectiveMtu(send, mtu, out, mark));
      var (now, got) := Received(o, r, frames[i]);
      && (i + 1 < |frames| ==> got.None? && HasFirst(now, (next + 1) % TWO_TO_64, pieces, i + 1))
      && (i + 1 == |frames| ==> got == Some(pieces) && Join(pieces) == out.wire)
  {
    var base, frames := (next + 1) % TWO_TO_64, Frames(send, mtu, out, mark, next);
    var pieces := Chop(out.wire, EffectiveMtu(send, mtu, out, mark));
    ChopJoins(out.wire, EffectiveMtu(send, mtu, out, mark));
    FrameFields(send, mtu, out, mark, next, i);
    FrameKey(send, mtu, out, mark, next, o, i);
    assert |frames| == |pieces| && frames[i].fragment == pieces[i];
    hide Frames, Chop, Key, Reassembled, Holding, NoSlotFor, AllGot, UpTo, Opens;
    assert Received(o, r, frames[i]) == Reassembled(r, pieces[i], base, i, |pieces|);
    UpToNext(i);
    if i == 0 {
      FirstPiece(r, base, pieces, 0);
      assert Holding(Reassembled(r, pieces[0], base, 0, |pieces|).0, base, pieces, UpTo(1), (r.index + 1) % RING_SIZE, 0);
    } else {
      UpToNext(i + 1);
      var at: nat :| Holding(r, base, pieces, UpTo(i), at, 0);
      HiddenOnlyByZero(r, base, pieces, UpTo(i), at, 0);
      NextPiece(r, base, pieces, UpTo(i), at, 0, i);
    }
  }

  /** A packet sent by one link service and received by another in order arrives whole and with its
      headers, in one frame or in many; it is dropped exactly when it is too long for one frame and
      the sender does not fragment. */
  method Transfer(a: LinkService, b: LinkService, mtu: nat, out: OutPacket, congested: bool) returns (sent: seq<LpFrame>, got: Option<Arrival>)
    requires a.Valid() && b.Valid() && ValidToken(out) && out.wire != []
    requires Sendable(a.options, mtu, out, MarkOf(out, congested))
    requires |out.wire| > EffectiveMtu(a.options, mtu, out, MarkOf(out, congested)) ==>
      b.options.reassembly && (a.nextSequence + 1) % TWO_TO_64 != 0 && NoSlotFor(b.TheRing(), (a.nextSequence + 1) % TWO_TO_64)
    modifies a`nextSequence, b`reassemblyIndex, b.buffers
    ensures sent == [] <==> |out.wire| > EffectiveMtu(a.options, mtu, out, MarkOf(out, congested)) && !a.options.fragmentation
    ensures sent != [] ==> got.Some? && Join(got.value.wire) == out.wire && got.value.pitToken == out.pitToken
    ensures sent != [] ==> got.value.mark == MarkOf(out, congested) && got.value.nack == out.nack
    ensures sent == [] ==> got.None?
  {
    ghost var next, mark, ring := a.nextSequence, MarkOf(out, congested), b.TheRing();
    ghost var room := EffectiveMtu(a.options, mtu, out, mark);
    sent := a.SendPacket(mtu, out, congested);
    got := None;
    if |sent| == 0 {
      return;
    }
    ghost var base := (next + 1) % TWO_TO_64;
    ghost var pieces := if room > 0 then Chop(out.wire, room) else [];
    hide Received, Chop, HasFirst;
    if |sent| == 1 {
      UnfragmentedArrives(a.options, mtu, out, mark, next, b.options, ring);
      JoinOne(out.wire);
      got := b.HandleIncomingFrame(Lp(sent[0]));
      return;
    }
    assert room > 0 && |out.wire| > room;
    hide Frames;
    assert HasFirst(ring, base, pieces, 0) by { NothingYet(ring, base, pieces); }
    for i := 0 to |sent|
      invariant b.Valid() && (i < |sent| ==> HasFirst(b.TheRing(), base, pieces, i))
      invariant i == |sent| ==> got.Some? && Join(got.value.wire) == out.wire && got.value.pitToken == out.pitToken
      invariant i == |sent| ==> got.value.mark == mark && got.value.nack == out.nack
    {
      InOrder(a.options, mtu, out, mark, next, b.options, b.TheRing(), i);
      got := b.HandleIncomingFrame(Lp(sent[i]));
    }
  }

  lemma NothingYet(r: Ring, base: nat, pieces: seq<Bytes>)
    requires ValidRing(r) && NoSlotFor(r, base)
    ensures HasFirst(r, base, pieces, 0)
  {
  }
}
