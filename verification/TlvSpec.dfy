/** What TLV numbers, components and names look like on the wire (std/encoding/primitives.go,
    std/encoding/component.go, std/encoding/name_pattern.go), and how flat bytes are read back. */
module TlvSpec {
  import opened NdnName
  import opened Wrappers

  const UINT64: nat := 0x1_0000_0000_0000_0000

  // ----- Numbers -----

  function BigEndian(x: nat, k: nat): (r: Bytes)
    ensures |r| == k
  {
    if k == 0 then [] else BigEndian(x / 256, k - 1) + [x % 256]
  }

  function Power(k: nat): nat {
    if k == 0 then 1 else 256 * Power(k - 1)
  }

  /** The value of bytes read one by one into 64 bits. */
  function Value(bs: Bytes): (r: nat)
    ensures r < UINT64
  {
    if bs == [] then 0 else (Value(bs[..|bs| - 1]) * 256 + bs[|bs| - 1]) % UINT64
  }

  lemma Powers()
    ensures Power(1) == 0x100 && Power(2) == 0x1_0000 && Power(4) == 0x1_0000_0000 && Power(8) == UINT64
  {
    assert Power(3) == 256 * Power(2) && Power(4) == 256 * Power(3);
    assert Power(5) == 256 * Power(4) && Power(6) == 256 * Power(5) && Power(7) == 256 * Power(6);
  }

  lemma {:induction false} BigEndianValue(x: nat, k: nat)
    requires x < Power(k) && x < UINT64
    ensures Value(BigEndian(x, k)) == x
  {
    if k > 0 {
      BigEndianValue(x / 256, k - 1);
      assert BigEndian(x, k)[..k - 1] == BigEndian(x / 256, k - 1);
    }
  }

  lemma {:induction false} ValueBound(bs: Bytes)
    ensures Value(bs) < Power(|bs|)
  {
    if bs != [] {
      ValueBound(bs[..|bs| - 1]);
    }
  }

  /** TLNum.EncodingLength */
  function NumLength(v: nat): nat {
    if v <= 0xfc then 1 else if v <= 0xffff then 3 else if v <= 0xffff_ffff then 5 else 9
  }

  /** TLNum.EncodeInto */
  function NumBytes(v: nat): (r: Bytes)
    ensures |r| == NumLength(v)
  {
    if v <= 0xfc then [v]
    else if v <= 0xffff then [0xfd] + BigEndian(v, 2)
    else if v <= 0xffff_ffff then [0xfe] + BigEndian(v, 4)
    else [0xff] + BigEndian(v, 8)
  }

  /** The bytes of a number: one byte up to 252; above, a marker and the digits in base 256, most
      significant first. */
  lemma NumBytesAt(v: nat)
    requires v < UINT64
    ensures v < 253 ==> NumBytes(v) == [v]
    ensures 253 <= v < 65536 ==> NumBytes(v) == [253, v / 256 % 256, v % 256]
    ensures 65536 <= v < 4294967296 ==>
      var a := v / 65536; NumBytes(v) == [254, a / 256 % 256, a % 256, v / 256 % 256, v % 256]
    ensures 4294967296 <= v ==>
      var a := v / 65536;
      var b := a / 65536;
      var c := b / 65536;
      NumBytes(v) == [255, c / 256 % 256, c % 256, b / 256 % 256, b % 256, a / 256 % 256, a % 256, v / 256 % 256, v % 256]
  {
    assert forall x :: BigEndian(x, 0) == [];
    hide BigEndian;
    var a := v / 65536;
    var b := a / 65536;
    LastTwo(v, 0);
    LastTwo(v, 2);
    LastTwo(a, 0);
    LastTwo(v, 6);
    LastTwo(a, 4);
    LastTwo(b, 2);
    LastTwo(b / 65536, 0);
  }

  lemma LastTwo(x: nat, k: nat)
    ensures BigEndian(x, k + 2) == BigEndian(x / 65536, k) + [x / 256 % 256, x % 256]
  {
    assert BigEndian(x, k + 2) == BigEndian(x / 256, k + 1) + [x % 256];
    assert BigEndian(x / 256, k + 1) == BigEndian(x / 256 / 256, k) + [x / 256 % 256];
    assert x / 256 / 256 == x / 65536;
  }

  /** Nat.EncodingLength */
  function NatLength(v: nat): nat {
    if v <= 0xff then 1 else if v <= 0xffff then 2 else if v <= 0xffff_ffff then 4 else 8
  }

  /** Nat.EncodeInto */
  function NatBytes(v: nat): (r: Bytes)
    ensures |r| == NatLength(v)
  {
    BigEndian(v, NatLength(v))
  }

  /** How many bytes follow the first byte of a number. */
  function Tail(x: Byte): nat {
    if x <= 0xfc then 0 else if x == 0xfd then 2 else if x == 0xfe then 4 else 8
  }

  /** Reads a number off the front: its value and what is left. */
  function ReadNum(bs: Bytes): (r: Option<(nat, Bytes)>)
    ensures r.Some? ==> |r.value.1| < |bs| && r.value.0 < UINT64 && |bs| - |r.value.1| >= NumLength(r.value.0)
  {
    if bs == [] || |bs| < 1 + Tail(bs[0]) then None
    else
      var k := Tail(bs[0]);
      ReadLengths(bs[0], bs[1..1 + k]);
      Some((if k == 0 then bs[0] else Value(bs[1..1 + k]), bs[1 + k..]))
  }

  /** No number is read from fewer bytes than it is written in. */
  lemma ReadLengths(x: Byte, tail: Bytes)
    requires |tail| == Tail(x)
    ensures 1 + |tail| >= NumLength(if |tail| == 0 then x else Value(tail))
  {
    Powers();
    ValueBound(tail);
  }

  lemma NumRoundTrip(v: nat, rest: Bytes)
    requires v < UINT64
    ensures ReadNum(NumBytes(v) + rest) == Some((v, rest))
  {
    Powers();
    var bs := NumBytes(v) + rest;
    if v <= 0xfc {
      assert bs[1..] == rest;
    } else {
      var k := NumLength(v) - 1;
      BigEndianValue(v, k);
      assert bs[1..1 + k] == BigEndian(v, k) && bs[1 + k..] == rest;
    }
  }

  lemma NatRoundTrip(v: nat)
    requires v < UINT64
    ensures Value(NatBytes(v)) == v
  {
    Powers();
    BigEndianValue(v, NatLength(v));
  }

  // ----- Components and names -----

  ghost predicate CompOk(c: Component) {
    c.typ < UINT64 && |c.val| < UINT64
  }

  ghost predicate NameOk(n: Name) {
    forall i :: 0 <= i < |n| ==> CompOk(n[i])
  }

  /** Component.EncodeInto: the length is written as a Nat. */
  function CompBytes(c: Component): Bytes {
    NumBytes(c.typ) + NatBytes(|c.val|) + c.val
  }

  /** Component.EncodingLength */
  function CompLength(c: Component): nat {
    NumLength(c.typ) + NatLength(|c.val|) + |c.val|
  }

  function NameBytes(n: Name): Bytes {
    if n == [] then [] else NameBytes(n[..|n| - 1]) + CompBytes(n[|n| - 1])
  }

  function NameLength(n: Name): nat {
    if n == [] then 0 else NameLength(n[..|n| - 1]) + CompLength(n[|n| - 1])
  }

  lemma {:induction false} NameLengthOk(n: Name)
    ensures |NameBytes(n)| == NameLength(n)
  {
    if n != [] {
      NameLengthOk(n[..|n| - 1]);
    }
  }

  /** ReadComponent on flat bytes. */
  function ReadComp(bs: Bytes): (r: Option<(Component, Bytes)>)
    ensures r.Some? ==> |r.value.1| < |bs| && CompOk(r.value.0)
    ensures r.Some? ==>
      |bs| - |r.value.1| >= NumLength(r.value.0.typ) + NumLength(|r.value.0.val|) + |r.value.0.val|
  {
    match ReadNum(bs)
    case None => None
    case Some((typ, rest)) =>
      match ReadNum(rest)
      case None => None
      case Some((l, rest')) =>
        if l > |rest'| then None else Some((Component(typ, rest'[..l]), rest'[l..]))
  }

  /** ReadName on flat bytes. */
  function ReadName(bs: Bytes): Option<Name>
    decreases |bs|
  {
    if bs == [] then Some([])
    else match ReadComp(bs)
         case None => None
         case Some((c, rest)) =>
           match ReadName(rest)
           case None => None
           case Some(n) => Some([c] + n)
  }

  predicate Short(n: Name) {
    forall i :: 0 <= i < |n| ==> |n[i].val| <= 252
  }

  lemma CompRoundTrip(c: Component, rest: Bytes)
    requires CompOk(c) && |c.val| <= 252
    ensures ReadComp(CompBytes(c) + rest) == Some((c, rest))
  {
    var l := NumBytes(|c.val|);
    assert NatBytes(|c.val|) == l by { assert BigEndian(|c.val| / 256, 0) == []; }
    assert CompBytes(c) + rest == NumBytes(c.typ) + (l + (c.val + rest));
    NumRoundTrip(c.typ, l + (c.val + rest));
    NumRoundTrip(|c.val|, c.val + rest);
    assert (c.val + rest)[..|c.val|] == c.val && (c.val + rest)[|c.val|..] == rest;
  }

  lemma {:induction false} NameConcat(a: Name, b: Name)
    ensures NameBytes(a + b) == NameBytes(a) + NameBytes(b)
  {
    hide CompBytes;
    if b == [] {
      assert a + b == a;
    } else {
      var init, last := b[..|b| - 1], CompBytes(b[|b| - 1]);
      NameConcat(a, init);
      assert (a + b)[..|a + b| - 1] == a + init;
      assert NameBytes(a) + NameBytes(init) + last == NameBytes(a) + (NameBytes(init) + last);
    }
  }

  lemma {:induction false} ShortNamesReturn(n: Name)
    requires NameOk(n) && Short(n)
    ensures ReadName(NameBytes(n)) == Some(n)
    decreases |n|
  {
    if n != [] {
      var tail := n[1..];
      assert n == [n[0]] + tail;
      NameConcat([n[0]], tail);
      assert NameBytes([n[0]]) == CompBytes(n[0]) by { assert [n[0]][..0] == []; }
      CompRoundTrip(n[0], NameBytes(tail));
      ShortNamesReturn(tail);
    }
  }

  /** The least number of bytes that can be read as the name. */
  function NameNeeds(n: Name): nat {
    if n == [] then 0 else NumLength(n[0].typ) + NumLength(|n[0].val|) + |n[0].val| + NameNeeds(n[1..])
  }

  lemma {:induction false} ReadNameNeeds(bs: Bytes)
    ensures ReadName(bs).Some? ==> |bs| >= NameNeeds(ReadName(bs).value)
    decreases |bs|
  {
    if bs != [] && ReadComp(bs).Some? {
      ReadNameNeeds(ReadComp(bs).value.1);
    }
  }

  lemma {:induction false} WrittenTooShort(n: Name)
    ensures NameLength(n) <= NameNeeds(n)
    ensures !Short(n) ==> NameLength(n) < NameNeeds(n)
    decreases |n|
  {
    if n != [] {
      var tail := n[1..];
      WrittenTooShort(tail);
      LengthConcat([n[0]], tail);
      assert n == [n[0]] + tail;
      assert [n[0]][..0] == [];
      if !Short(n) && |n[0].val| <= 252 {
        var i :| 0 <= i < |n| && |n[i].val| > 252;
        assert tail[i - 1] == n[i];
      }
    }
  }

  lemma {:induction false} LengthConcat(a: Name, b: Name)
    ensures NameLength(a + b) == NameLength(a) + NameLength(b)
  {
    if b == [] {
      assert a + b == a;
    } else {
      LengthConcat(a, b[..|b| - 1]);
      assert (a + b)[..|a + b| - 1] == a + b[..|b| - 1];
    }
  }

  /** A name is read back exactly when no component value is longer than 252 bytes. */
  lemma NameRoundTrip(n: Name)
    requires NameOk(n)
    ensures ReadName(NameBytes(n)) == Some(n) <==> Short(n)
  {
    if Short(n) {
      ShortNamesReturn(n);
    } else {
      WrittenTooShort(n);
      NameLengthOk(n);
      ReadNameNeeds(NameBytes(n));
    }
  }

  // ----- Sequences of TLV elements -----

  function TlvBytes(typ: nat, val: Bytes): Bytes {
    NumBytes(typ) + NumBytes(|val|) + val
  }

  function TlvLength(typ: nat, length: nat): nat {
    NumLength(typ) + NumLength(length) + length
  }

  /** Reads one element: type, value and what is left. */
  function ReadTlv(bs: Bytes): (r: Option<(nat, Bytes, Bytes)>)
    ensures r.Some? ==> |bs| - |r.value.2| >= TlvLength(r.value.0, |r.value.1|) > 0
  {
    match ReadNum(bs)
    case None => None
    case Some((typ, rest)) =>
      match ReadNum(rest)
      case None => None
      case Some((l, rest')) => if l > |rest'| then None else Some((typ, rest'[..l], rest'[l..]))
  }

  /** The parsing loop of a message: `step` takes in one element, or fails. `lenient` lets elements
      that are critical but unknown be skipped. */
  function Fold<V>(lenient: bool, bs: Bytes, v: V, step: (bool, V, nat, Bytes) -> Option<V>): Option<V>
    decreases |bs|
  {
    if bs == [] then Some(v)
    else match ReadTlv(bs)
         case None => None
         case Some((typ, val, rest)) =>
           match step(lenient, v, typ, val)
           case None => None
           case Some(w) => Fold(lenient, rest, w, step)
  }

  lemma TlvRoundTrip(typ: nat, val: Bytes, rest: Bytes)
    requires typ < UINT64 && |val| < UINT64
    ensures TlvBytes(typ, val) + rest != [] && ReadTlv(TlvBytes(typ, val) + rest) == Some((typ, val, rest))
  {
    hide NumBytes, ReadNum;
    var bs, l := TlvBytes(typ, val) + rest, NumBytes(|val|);
    assert bs == NumBytes(typ) + (l + (val + rest));
    NumRoundTrip(typ, l + (val + rest));
    NumRoundTrip(|val|, val + rest);
    assert (val + rest)[..|val|] == val && (val + rest)[|val|..] == rest;
    assert bs != [] by { NumBytesNotEmpty(typ); }
  }

  lemma FoldStep<V>(lenient: bool, typ: nat, val: Bytes, rest: Bytes, v: V, step: (bool, V, nat, Bytes) -> Option<V>)
    requires typ < UINT64 && |val| < UINT64
    ensures Fold(lenient, TlvBytes(typ, val) + rest, v, step)
         == match step(lenient, v, typ, val) case None => None case Some(w) => Fold(lenient, rest, w, step)
  {
    hide TlvBytes, ReadTlv;
    TlvRoundTrip(typ, val, rest);
  }

  lemma FoldNone<V>(lenient: bool, v: V, step: (bool, V, nat, Bytes) -> Option<V>)
    ensures Fold(lenient, [], v, step) == Some(v)
  {
  }

  /** The bytes are whole elements, and `inner` holds of each. */
  ghost predicate Framed(bs: Bytes, inner: (nat, Bytes) -> bool)
    decreases |bs|
  {
    bs == [] || match ReadTlv(bs) case None => false case Some((typ, val, rest)) => inner(typ, val) && Framed(rest, inner)
  }

  lemma FramedStep(typ: nat, val: Bytes, rest: Bytes, inner: (nat, Bytes) -> bool)
    requires typ < UINT64 && |val| < UINT64
    ensures Framed(TlvBytes(typ, val) + rest, inner) <==> inner(typ, val) && Framed(rest, inner)
  {
    hide TlvBytes, ReadTlv;
    TlvRoundTrip(typ, val, rest);
  }

  lemma FramedNone(inner: (nat, Bytes) -> bool)
    ensures Framed([], inner)
  {
  }

  /** Whatever a parsing loop accepts is framed. */
  lemma {:induction false} FoldFramed<V>(lenient: bool, bs: Bytes, v: V, step: (bool, V, nat, Bytes) -> Option<V>, inner: (nat, Bytes) -> bool)
    requires forall w, typ, val :: step(lenient, w, typ, val).Some? ==> inner(typ, val)
    ensures Fold(lenient, bs, v, step).Some? ==> Framed(bs, inner)
    decreases |bs|
  {
    hide ReadTlv;
    if bs != [] && ReadTlv(bs).Some? {
      var (typ, val, rest) := ReadTlv(bs).value;
      if step(lenient, v, typ, val).Some? {
        FoldFramed(lenient, rest, step(lenient, v, typ, val).value, step, inner);
      }
    }
  }

  lemma NumBytesNotEmpty(v: nat)
    ensures |NumBytes(v)| > 0
  {
  }

  /** The types that a parser may not skip. */
  predicate Critical(typ: nat) {
    typ <= 31 || typ % 2 == 1
  }
}
