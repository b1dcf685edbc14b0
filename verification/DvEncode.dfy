/** The encoders (std/encoding and dv/tlv/zz_generated.go): lengths are computed first, and exactly
    that many bytes are then written into a buffer in place. */
module DvEncode {
  import opened NdnName
  import opened Wrappers
  import opened TlvSpec
  import opened DvMessages

  type Buffer = array<Byte>

  /** The bytes were written at the position, and nothing else changed. */
  ghost predicate Written(before: Bytes, after: Bytes, pos: nat, bs: Bytes) {
    |after| == |before| && pos + |bs| <= |before| && after == before[..pos] + bs + before[pos + |bs|..]
  }

  lemma Chain(a: Bytes, b: Bytes, c: Bytes, pos: nat, x: Bytes, y: Bytes)
    requires Written(a, b, pos, x) && Written(b, c, pos + |x|, y)
    ensures Written(a, c, pos, x + y)
  {
    assert b[..pos + |x|] == a[..pos] + x;
    assert b[pos + |x| + |y|..] == a[pos + |x| + |y|..];
  }

  lemma Nothing(a: Bytes, pos: nat)
    requires pos <= |a|
    ensures Written(a, a, pos, [])
  {
    assert a == a[..pos] + [] + a[pos..];
  }

  // ----- Primitives -----

  method PutByte(buf: Buffer, pos: nat, b: Byte)
    requires pos < buf.Length
    modifies buf
    ensures Written(old(buf[..]), buf[..], pos, [b])
  {
    ghost var was := buf[..];
    buf[pos] := b;
    assert buf[..] == was[..pos] + [b] + was[pos + 1..];
  }

  /** binary.BigEndian.PutUint16, PutUint32 and PutUint64 */
  method PutBigEndian(buf: Buffer, pos: nat, x: nat, k: nat)
    requires pos + k <= buf.Length
    modifies buf
    ensures Written(old(buf[..]), buf[..], pos, BigEndian(x, k))
    decreases k
  {
    if k == 0 {
      Nothing(buf[..], pos);
      return;
    }
    ghost var a := buf[..];
    PutBigEndian(buf, pos, x / 256, k - 1);
    ghost var b := buf[..];
    PutByte(buf, pos + k - 1, x % 256);
    Chain(a, b, buf[..], pos, BigEndian(x / 256, k - 1), [x % 256]);
  }

  /** TLNum.EncodeInto */
  method PutNum(buf: Buffer, pos: nat, v: nat) returns (n: nat)
    requires pos + NumLength(v) <= buf.Length
    modifies buf
    ensures n == NumLength(v) && Written(old(buf[..]), buf[..], pos, NumBytes(v))
  {
    hide BigEndian, Written;
    if v <= 0xfc {
      PutByte(buf, pos, v);
      return 1;
    }
    ghost var a := buf[..];
    var mark, k := 0xfd, 2;
    if v > 0xffff_ffff {
      mark, k := 0xff, 8;
    } else if v > 0xffff {
      mark, k := 0xfe, 4;
    }
    PutByte(buf, pos, mark);
    ghost var b := buf[..];
    PutBigEndian(buf, pos + 1, v, k);
    Chain(a, b, buf[..], pos, [mark], BigEndian(v, k));
    return 1 + k;
  }

  /** Nat.EncodeInto */
  method PutNat(buf: Buffer, pos: nat, v: nat) returns (n: nat)
    requires pos + NatLength(v) <= buf.Length
    modifies buf
    ensures n == NatLength(v) && Written(old(buf[..]), buf[..], pos, NatBytes(v))
  {
    n := NatLength(v);
    PutBigEndian(buf, pos, v, n);
  }

  /** copy */
  method PutBytes(buf: Buffer, pos: nat, bs: Bytes)
    requires pos + |bs| <= buf.Length
    modifies buf
    ensures Written(old(buf[..]), buf[..], pos, bs)
  {
    ghost var was := buf[..];
    Nothing(was, pos);
    for i := 0 to |bs|
      invariant Written(was, buf[..], pos, bs[..i])
    {
      ghost var now := buf[..];
      PutByte(buf, pos + i, bs[i]);
      Chain(was, now, buf[..], pos, bs[..i], [bs[i]]);
      assert bs[..i] + [bs[i]] == bs[..i + 1];
    }
    assert bs[..|bs|] == bs;
  }

  /** Component.EncodeInto */
  method PutComp(buf: Buffer, pos: nat, c: Component) returns (n: nat)
    requires pos + CompLength(c) <= buf.Length
    modifies buf
    ensures n == CompLength(c) && Written(old(buf[..]), buf[..], pos, CompBytes(c))
  {
    hide Written, NumBytes, NatBytes, NumLength, NatLength;
    ghost var s0 := buf[..];
    var p1 := PutNum(buf, pos, c.typ);
    ghost var s1 := buf[..];
    var p2 := PutNat(buf, pos + p1, |c.val|);
    ghost var s2 := buf[..];
    Chain(s0, s1, s2, pos, NumBytes(c.typ), NatBytes(|c.val|));
    PutBytes(buf, pos + p1 + p2, c.val);
    Chain(s0, s2, buf[..], pos, NumBytes(c.typ) + NatBytes(|c.val|), c.val);
    return p1 + p2 + |c.val|;
  }

  /** The name loop of every encoder. */
  method PutName(buf: Buffer, pos: nat, name: Name) returns (n: nat)
    requires pos + NameLength(name) <= buf.Length
    modifies buf
    ensures n == NameLength(name) && Written(old(buf[..]), buf[..], pos, NameBytes(name))
  {
    hide Written, CompBytes;
    ghost var was := buf[..];
    n := 0;
    Nothing(was, pos);
    for i := 0 to |name|
      invariant n == NameLength(name[..i]) && Written(was, buf[..], pos, NameBytes(name[..i]))
    {
      assert name[..i + 1][..i] == name[..i];
      NameLengthOk(name[..i]);
      NamePartFits(name, i + 1);
      ghost var now := buf[..];
      var k := PutComp(buf, pos + n, name[i]);
      Chain(was, now, buf[..], pos, NameBytes(name[..i]), CompBytes(name[i]));
      n := n + k;
    }
    assert name[..|name|] == name;
  }

  lemma {:induction false} NamePartFits(name: Name, i: nat)
    requires i <= |name|
    ensures NameLength(name[..i]) <= NameLength(name)
  {
    LengthConcat(name[..i], name[i..]);
    assert name == name[..i] + name[i..];
  }

  // ----- Fields -----

  /** The length sums of the encoders' Init. */
  method NameSize(name: Name) returns (n: nat)
    ensures n == |NameBytes(name)|
  {
    n := 0;
    for i := 0 to |name|
      invariant n == NameLength(name[..i])
    {
      assert name[..i + 1][..i] == name[..i];
      n := n + CompLength(name[i]);
    }
    assert name[..|name|] == name;
    NameLengthOk(name);
  }

  method NameFieldSize(name: Option<Name>) returns (n: nat)
    ensures n == |NameField(name)|
  {
    n := 0;
    if name.Some? {
      var l := NameSize(name.value);
      n := 1 + NumLength(l) + l;
    }
  }

  method PutNameField(buf: Buffer, pos: nat, name: Option<Name>) returns (n: nat)
    requires pos + |NameField(name)| <= buf.Length
    modifies buf
    ensures n == |NameField(name)| && Written(old(buf[..]), buf[..], pos, NameField(name))
  {
    hide Written, NameBytes;
    if name.None? {
      Nothing(buf[..], pos);
      return 0;
    }
    var l := NameSize(name.value);
    NameLengthOk(name.value);
    n := PutHeader(buf, pos, 7, l);
    ghost var s1 := buf[..];
    var k := PutName(buf, pos + n, name.value);
    Chain(old(buf[..]), s1, buf[..], pos, NumBytes(7) + NumBytes(l), NameBytes(name.value));
    return n + k;
  }

  /** The type and length of an element. */
  method PutHeader(buf: Buffer, pos: nat, typ: nat, l: nat) returns (n: nat)
    requires pos + NumLength(typ) + NumLength(l) <= buf.Length
    modifies buf
    ensures n == NumLength(typ) + NumLength(l) && Written(old(buf[..]), buf[..], pos, NumBytes(typ) + NumBytes(l))
  {
    hide Written, NumBytes;
    var p1 := PutNum(buf, pos, typ);
    ghost var s1 := buf[..];
    var p2 := PutNum(buf, pos + p1, l);
    Chain(old(buf[..]), s1, buf[..], pos, NumBytes(typ), NumBytes(l));
    return p1 + p2;
  }

  method PutNatField(buf: Buffer, pos: nat, typ: nat, v: nat) returns (n: nat)
    requires pos + |NatField(typ, v)| <= buf.Length
    modifies buf
    ensures n == |NatField(typ, v)| && Written(old(buf[..]), buf[..], pos, NatField(typ, v))
  {
    hide Written, NatBytes;
    n := PutHeader(buf, pos, typ, NatLength(v));
    ghost var s1 := buf[..];
    var k := PutNat(buf, pos + n, v);
    Chain(old(buf[..]), s1, buf[..], pos, NumBytes(typ) + NumBytes(NatLength(v)), NatBytes(v));
    return n + k;
  }

  method DestFieldSize(typ: nat, d: Option<Destination>) returns (n: nat)
    ensures n == |DestField(typ, d)|
  {
    n := 0;
    if d.Some? {
      var l := NameFieldSize(d.value.name);
      n := NumLength(typ) + NumLength(l) + l;
    }
  }

  method PutDestField(buf: Buffer, pos: nat, typ: nat, d: Option<Destination>) returns (n: nat)
    requires pos + |DestField(typ, d)| <= buf.Length
    modifies buf
    ensures n == |DestField(typ, d)| && Written(old(buf[..]), buf[..], pos, DestField(typ, d))
  {
    hide Written, NameField;
    if d.None? {
      Nothing(buf[..], pos);
      return 0;
    }
    var l := NameFieldSize(d.value.name);
    n := PutHeader(buf, pos, typ, l);
    ghost var s1 := buf[..];
    var k := PutNameField(buf, pos + n, d.value.name);
    Chain(old(buf[..]), s1, buf[..], pos, NumBytes(typ) + NumBytes(l), NameField(d.value.name));
    return n + k;
  }

  // ----- Messages -----

  method EntrySize(e: AdvEntry) returns (n: nat)
    ensures n == |EntryBytes(e)|
  {
    var d := DestFieldSize(204, e.destination);
    var h := DestFieldSize(206, e.nextHop);
    n := d + h + 1 + (1 + NatLength(e.cost)) + 1 + (1 + NatLength(e.otherCost));
  }

  method PutCosts(buf: Buffer, pos: nat, e: AdvEntry) returns (n: nat)
    requires pos + |NatField(208, e.cost) + NatField(210, e.otherCost)| <= buf.Length
    modifies buf
    ensures n == |NatField(208, e.cost) + NatField(210, e.otherCost)|
    ensures Written(old(buf[..]), buf[..], pos, NatField(208, e.cost) + NatField(210, e.otherCost))
  {
    hide Written, NatField;
    var a := PutNatField(buf, pos, 208, e.cost);
    ghost var mid := buf[..];
    var b := PutNatField(buf, pos + a, 210, e.otherCost);
    Chain(old(buf[..]), mid, buf[..], pos, NatField(208, e.cost), NatField(210, e.otherCost));
    return a + b;
  }

  /** AdvEntryEncoder.EncodeInto */
  method PutEntry(buf: Buffer, pos: nat, e: AdvEntry) returns (n: nat)
    requires pos + |EntryBytes(e)| <= buf.Length
    modifies buf
    ensures n == |EntryBytes(e)| && Written(old(buf[..]), buf[..], pos, EntryBytes(e))
  {
    hide Written, DestField, NatField;
    ghost var s0, costs := buf[..], NatField(208, e.cost) + NatField(210, e.otherCost);
    var a := PutDestField(buf, pos, 204, e.destination);
    ghost var s1 := buf[..];
    var b := PutDestField(buf, pos + a, 206, e.nextHop);
    ghost var s2 := buf[..];
    var c := PutCosts(buf, pos + a + b, e);
    Chain(s1, s2, buf[..], pos + a, DestField(206, e.nextHop), costs);
    Chain(s0, s1, buf[..], pos, DestField(204, e.destination), DestField(206, e.nextHop) + costs);
    return a + b + c;
  }

  method EntriesSize(es: seq<AdvEntry>) returns (n: nat)
    ensures n == |EntriesBytes(es)|
  {
    n := 0;
    for i := 0 to |es|
      invariant n + |EntriesBytes(es[i..])| == |EntriesBytes(es)|
    {
      var l := EntrySize(es[i]);
      assert es[i..][1..] == es[i + 1..];
      n := n + 1 + NumLength(l) + l;
    }
  }

  /** One element of the loop below. */
  method PutEntryElement(buf: Buffer, pos: nat, x: AdvEntry) returns (n: nat)
    requires pos + |TlvBytes(202, EntryBytes(x))| <= buf.Length
    modifies buf
    ensures n == |TlvBytes(202, EntryBytes(x))| && Written(old(buf[..]), buf[..], pos, TlvBytes(202, EntryBytes(x)))
  {
    hide Written, EntryBytes, NumBytes;
    var l := EntrySize(x);
    var k := PutHeader(buf, pos, 202, l);
    ghost var mid := buf[..];
    var m := PutEntry(buf, pos + k, x);
    Chain(old(buf[..]), mid, buf[..], pos, NumBytes(202) + NumBytes(l), EntryBytes(x));
    return k + m;
  }

  lemma EntriesBytesStep(es: seq<AdvEntry>, i: nat, done: Bytes)
    requires i < |es|
    ensures done + EntriesBytes(es[i..]) == done + TlvBytes(202, EntryBytes(es[i])) + EntriesBytes(es[i + 1..])
    ensures |EntriesBytes(es[i..])| >= |TlvBytes(202, EntryBytes(es[i]))|
  {
    hide TlvBytes;
    assert es[i..][1..] == es[i + 1..];
    var one, more := TlvBytes(202, EntryBytes(es[i])), EntriesBytes(es[i + 1..]);
    assert done + (one + more) == done + one + more;
  }

  /** AdvertisementEncoder.EncodeInto */
  method PutEntries(buf: Buffer, pos: nat, es: seq<AdvEntry>) returns (n: nat)
    requires pos + |EntriesBytes(es)| <= buf.Length
    modifies buf
    ensures n == |EntriesBytes(es)| && Written(old(buf[..]), buf[..], pos, EntriesBytes(es))
  {
    hide Written, TlvBytes, EntriesBytes;
    ghost var was, done := buf[..], [];
    n := 0;
    Nothing(was, pos);
    assert es[0..] == es && [] + EntriesBytes(es) == EntriesBytes(es);
    for i := 0 to |es|
      invariant n == |done| && done + EntriesBytes(es[i..]) == EntriesBytes(es) && Written(was, buf[..], pos, done)
    {
      ghost var now, one := buf[..], TlvBytes(202, EntryBytes(es[i]));
      EntriesBytesStep(es, i, done);
      var k := PutEntryElement(buf, pos + n, es[i]);
      Chain(was, now, buf[..], pos, done, one);
      done := done + one;
      n := n + k;
    }
    assert es[|es|..] == [] && done + [] == done;
    assert EntriesBytes([]) == [] by { EntriesBytesNone(); }
  }

  lemma EntriesBytesNone()
    ensures EntriesBytes([]) == []
  {
  }

  method AddSize(a: PrefixOpAdd) returns (n: nat)
    ensures n == |AddBytes(a)|
  {
    var l := NameFieldSize(a.name);
    n := l + 1 + (1 + NatLength(a.cost));
  }

  /** PrefixOpAddEncoder.EncodeInto */
  method PutAdd(buf: Buffer, pos: nat, a: PrefixOpAdd) returns (n: nat)
    requires pos + |AddBytes(a)| <= buf.Length
    modifies buf
    ensures n == |AddBytes(a)| && Written(old(buf[..]), buf[..], pos, AddBytes(a))
  {
    hide Written, NameField, NatField;
    var k := PutNameField(buf, pos, a.name);
    ghost var mid := buf[..];
    var m := PutNatField(buf, pos + k, 208, a.cost);
    Chain(old(buf[..]), mid, buf[..], pos, NameField(a.name), NatField(208, a.cost));
    return k + m;
  }

  method AddsSize(adds: seq<PrefixOpAdd>) returns (n: nat)
    ensures n == |AddsBytes(adds)|
  {
    n := 0;
    for i := 0 to |adds|
      invariant n + |AddsBytes(adds[i..])| == |AddsBytes(adds)|
    {
      var l := AddSize(adds[i]);
      assert adds[i..][1..] == adds[i + 1..];
      n := n + 3 + NumLength(l) + l;
    }
  }

  /** One element of the loop below. */
  method PutAddElement(buf: Buffer, pos: nat, x: PrefixOpAdd) returns (n: nat)
    requires pos + |TlvBytes(304, AddBytes(x))| <= buf.Length
    modifies buf
    ensures n == |TlvBytes(304, AddBytes(x))| && Written(old(buf[..]), buf[..], pos, TlvBytes(304, AddBytes(x)))
  {
    hide Written, AddBytes, NumBytes;
    var l := AddSize(x);
    var k := PutHeader(buf, pos, 304, l);
    ghost var mid := buf[..];
    var m := PutAdd(buf, pos + k, x);
    Chain(old(buf[..]), mid, buf[..], pos, NumBytes(304) + NumBytes(l), AddBytes(x));
    return k + m;
  }

  lemma AddsBytesStep(adds: seq<PrefixOpAdd>, i: nat, done: Bytes)
    requires i < |adds|
    ensures done + AddsBytes(adds[i..]) == done + TlvBytes(304, AddBytes(adds[i])) + AddsBytes(adds[i + 1..])
    ensures |AddsBytes(adds[i..])| >= |TlvBytes(304, AddBytes(adds[i]))|
  {
    hide TlvBytes;
    assert adds[i..][1..] == adds[i + 1..];
    var one, more := TlvBytes(304, AddBytes(adds[i])), AddsBytes(adds[i + 1..]);
    assert done + (one + more) == done + one + more;
  }

  /** The loop of PrefixOpListEncoder.EncodeInto over the additions. */
  method PutAdds(buf: Buffer, pos: nat, adds: seq<PrefixOpAdd>) returns (n: nat)
    requires pos + |AddsBytes(adds)| <= buf.Length
    modifies buf
    ensures n == |AddsBytes(adds)| && Written(old(buf[..]), buf[..], pos, AddsBytes(adds))
  {
    hide Written, TlvBytes, AddsBytes;
    ghost var was, done := buf[..], [];
    n := 0;
    Nothing(was, pos);
    assert adds[0..] == adds && [] + AddsBytes(adds) == AddsBytes(adds);
    for i := 0 to |adds|
      invariant n == |done| && done + AddsBytes(adds[i..]) == AddsBytes(adds) && Written(was, buf[..], pos, done)
    {
      ghost var now, one := buf[..], TlvBytes(304, AddBytes(adds[i]));
      AddsBytesStep(adds, i, done);
      var k := PutAddElement(buf, pos + n, adds[i]);
      Chain(was, now, buf[..], pos, done, one);
      done := done + one;
      n := n + k;
    }
    assert adds[|adds|..] == [] && done + [] == done;
    assert AddsBytes([]) == [] by { AddsBytesNone(); }
  }

  lemma AddsBytesNone()
    ensures AddsBytes([]) == []
  {
  }

  method RemovesSize(removes: seq<PrefixOpRemove>) returns (n: nat)
    ensures n == |RemovesBytes(removes)|
  {
    n := 0;
    for i := 0 to |removes|
      invariant n + |RemovesBytes(removes[i..])| == |RemovesBytes(removes)|
    {
      var l := NameFieldSize(removes[i].name);
      assert removes[i..][1..] == removes[i + 1..];
      n := n + 3 + NumLength(l) + l;
    }
  }

  /** One element of the loop below. */
  method PutRemoveElement(buf: Buffer, pos: nat, x: PrefixOpRemove) returns (n: nat)
    requires pos + |TlvBytes(306, NameField(x.name))| <= buf.Length
    modifies buf
    ensures n == |TlvBytes(306, NameField(x.name))| && Written(old(buf[..]), buf[..], pos, TlvBytes(306, NameField(x.name)))
  {
    hide Written, NameField, NumBytes;
    var l := NameFieldSize(x.name);
    var k := PutHeader(buf, pos, 306, l);
    ghost var mid := buf[..];
    var m := PutNameField(buf, pos + k, x.name);
    Chain(old(buf[..]), mid, buf[..], pos, NumBytes(306) + NumBytes(l), NameField(x.name));
    return k + m;
  }

  lemma RemovesBytesStep(removes: seq<PrefixOpRemove>, i: nat, done: Bytes)
    requires i < |removes|
    ensures done + RemovesBytes(removes[i..]) == done + TlvBytes(306, NameField(removes[i].name)) + RemovesBytes(removes[i + 1..])
    ensures |RemovesBytes(removes[i..])| >= |TlvBytes(306, NameField(removes[i].name))|
  {
    hide TlvBytes;
    assert removes[i..][1..] == removes[i + 1..];
    var one, more := TlvBytes(306, NameField(removes[i].name)), RemovesBytes(removes[i + 1..]);
    assert done + (one + more) == done + one + more;
  }

  /** The loop of PrefixOpListEncoder.EncodeInto over the removals. */
  method PutRemoves(buf: Buffer, pos: nat, removes: seq<PrefixOpRemove>) returns (n: nat)
    requires pos + |RemovesBytes(removes)| <= buf.Length
    modifies buf
    ensures n == |RemovesBytes(removes)| && Written(old(buf[..]), buf[..], pos, RemovesBytes(removes))
  {
    hide Written, TlvBytes, RemovesBytes;
    ghost var was, done := buf[..], [];
    n := 0;
    Nothing(was, pos);
    assert removes[0..] == removes && [] + RemovesBytes(removes) == RemovesBytes(removes);
    for i := 0 to |removes|
      invariant n == |done| && done + RemovesBytes(removes[i..]) == RemovesBytes(removes) && Written(was, buf[..], pos, done)
    {
      ghost var now, one := buf[..], TlvBytes(306, NameField(removes[i].name));
      RemovesBytesStep(removes, i, done);
      var k := PutRemoveElement(buf, pos + n, removes[i]);
      Chain(was, now, buf[..], pos, done, one);
      done := done + one;
      n := n + k;
    }
    assert removes[|removes|..] == [] && done + [] == done;
    assert RemovesBytes([]) == [] by { RemovesBytesNone(); }
  }

  lemma RemovesBytesNone()
    ensures RemovesBytes([]) == []
  {
  }

  method ListSize(l: PrefixOpList) returns (n: nat)
    ensures n == |ListBytes(l)|
  {
    var d := DestFieldSize(204, l.exitRouter);
    var a := AddsSize(l.adds);
    var r := RemovesSize(l.removes);
    n := d + (if l.reset then 3 + 1 else 0) + a + r;
  }

  method PutReset(buf: Buffer, pos: nat, reset: bool) returns (n: nat)
    requires pos + |ResetField(reset)| <= buf.Length
    modifies buf
    ensures n == |ResetField(reset)| && Written(old(buf[..]), buf[..], pos, ResetField(reset))
  {
    hide Written;
    if !reset {
      Nothing(buf[..], pos);
      return 0;
    }
    assert ResetField(reset) == NumBytes(302) + NumBytes(0);
    n := PutHeader(buf, pos, 302, 0);
  }

  method PutOps(buf: Buffer, pos: nat, l: PrefixOpList) returns (n: nat)
    requires pos + |AddsBytes(l.adds) + RemovesBytes(l.removes)| <= buf.Length
    modifies buf
    ensures n == |AddsBytes(l.adds) + RemovesBytes(l.removes)|
    ensures Written(old(buf[..]), buf[..], pos, AddsBytes(l.adds) + RemovesBytes(l.removes))
  {
    hide Written, AddsBytes, RemovesBytes;
    var a := PutAdds(buf, pos, l.adds);
    ghost var mid := buf[..];
    var b := PutRemoves(buf, pos + a, l.removes);
    Chain(old(buf[..]), mid, buf[..], pos, AddsBytes(l.adds), RemovesBytes(l.removes));
    return a + b;
  }

  /** PrefixOpListEncoder.EncodeInto */
  method PutList(buf: Buffer, pos: nat, l: PrefixOpList) returns (n: nat)
    requires pos + |ListBytes(l)| <= buf.Length
    modifies buf
    ensures n == |ListBytes(l)| && Written(old(buf[..]), buf[..], pos, ListBytes(l))
  {
    hide Written, DestField, ResetField, AddsBytes, RemovesBytes;
    ghost var s0, ops := buf[..], AddsBytes(l.adds) + RemovesBytes(l.removes);
    var a := PutDestField(buf, pos, 204, l.exitRouter);
    ghost var s1 := buf[..];
    var b := PutReset(buf, pos + a, l.reset);
    ghost var s2 := buf[..];
    var c := PutOps(buf, pos + a + b, l);
    Chain(s1, s2, buf[..], pos + a, ResetField(l.reset), ops);
    Chain(s0, s1, buf[..], pos, DestField(204, l.exitRouter), ResetField(l.reset) + ops);
    return a + b + c;
  }

  lemma WholeBuffer(a: Bytes, b: Bytes, bs: Bytes)
    requires Written(a, b, 0, bs) && |a| == |bs|
    ensures b == bs
  {
  }

  /** Advertisement.Encode: a buffer of the precomputed length, filled exactly. */
  method EncodeAdvertisement(a: Advertisement) returns (bs: Bytes)
    ensures bs == EntriesBytes(a.entries)
  {
    hide Written, EntriesBytes;
    var n := EntriesSize(a.entries);
    var buf := new Byte[n](_ => 0);
    ghost var was := buf[..];
    var k := PutEntries(buf, 0, a.entries);
    WholeBuffer(was, buf[..], EntriesBytes(a.entries));
    return buf[..];
  }

  /** PrefixOpList.Encode */
  method EncodePrefixOpList(l: PrefixOpList) returns (bs: Bytes)
    ensures bs == ListBytes(l)
  {
    hide Written, ListBytes;
    var n := ListSize(l);
    var buf := new Byte[n](_ => 0);
    ghost var was := buf[..];
    var k := PutList(buf, 0, l);
    WholeBuffer(was, buf[..], ListBytes(l));
    return buf[..];
  }
}
