/** The routing messages on the wire (dv/tlv/zz_generated.go): what is written, and what reading it
    back gives. */
module DvMessages {
  import opened NdnName
  import opened Wrappers
  import opened TlvSpec

  datatype Destination = Destination(name: Option<Name>)

  datatype AdvEntry = AdvEntry(destination: Option<Destination>, nextHop: Option<Destination>, cost: nat, otherCost: nat)

  datatype Advertisement = Advertisement(entries: seq<AdvEntry>)

  datatype PrefixOpAdd = PrefixOpAdd(name: Option<Name>, cost: nat)

  datatype PrefixOpRemove = PrefixOpRemove(name: Option<Name>)

  datatype PrefixOpList = PrefixOpList(exitRouter: Option<Destination>, reset: bool, adds: seq<PrefixOpAdd>, removes: seq<PrefixOpRemove>)

  // ----- What is written -----

  function NameField(n: Option<Name>): Bytes {
    if n.None? then [] else TlvBytes(7, NameBytes(n.value))
  }

  function NatField(typ: nat, v: nat): Bytes {
    TlvBytes(typ, NatBytes(v))
  }

  function DestField(typ: nat, d: Option<Destination>): Bytes {
    if d.None? then [] else TlvBytes(typ, NameField(d.value.name))
  }

  function EntryBytes(e: AdvEntry): Bytes {
    DestField(204, e.destination) + (DestField(206, e.nextHop) + (NatField(208, e.cost) + NatField(210, e.otherCost)))
  }

  function EntriesBytes(es: seq<AdvEntry>): Bytes {
    if es == [] then [] else TlvBytes(202, EntryBytes(es[0])) + EntriesBytes(es[1..])
  }

  function AddBytes(a: PrefixOpAdd): Bytes {
    NameField(a.name) + NatField(208, a.cost)
  }

  function AddsBytes(adds: seq<PrefixOpAdd>): Bytes {
    if adds == [] then [] else TlvBytes(304, AddBytes(adds[0])) + AddsBytes(adds[1..])
  }

  function RemovesBytes(removes: seq<PrefixOpRemove>): Bytes {
    if removes == [] then [] else TlvBytes(306, NameField(removes[0].name)) + RemovesBytes(removes[1..])
  }

  function ResetField(reset: bool): Bytes {
    if reset then TlvBytes(302, []) else []
  }

  function ListBytes(l: PrefixOpList): Bytes {
    DestField(204, l.exitRouter) + (ResetField(l.reset) + (AddsBytes(l.adds) + RemovesBytes(l.removes)))
  }

  lemma SmallTlv(typ: nat, val: Bytes)
    requires typ < 253 && |val| < 253
    ensures TlvBytes(typ, val) == [typ, |val|] + val
  {
    NumBytesAt(typ);
    NumBytesAt(|val|);
  }

  /** A type of three bytes. */
  lemma WideTlv(typ: nat, val: Bytes)
    requires 253 <= typ < 65536 && |val| < 253
    ensures TlvBytes(typ, val) == [253, typ / 256, typ % 256, |val|] + val
  {
    NumBytesAt(typ);
    NumBytesAt(|val|);
  }

  /** A name of one component with one byte. */
  function OneByte(x: Byte): Name {
    [Component(8, [x])]
  }

  lemma OneByteField(x: Byte)
    ensures NameField(Some(OneByte(x))) == [7, 3, 8, 1, x]
  {
    hide TlvBytes, NumBytes;
    NumBytesAt(8);
    OneDigit(1);
    assert NameBytes(OneByte(x)[..0]) == [];
    assert NameBytes(OneByte(x)) == CompBytes(OneByte(x)[0]) == [8, 1, x];
    SmallTlv(7, [8, 1, x]);
  }

  lemma OneDigit(v: nat)
    requires v < 256
    ensures NatBytes(v) == [v]
  {
    assert BigEndian(v / 256, 0) == [];
  }

  lemma DestAt(typ: nat, x: Byte)
    requires typ < 253
    ensures DestField(typ, Some(Destination(Some(OneByte(x))))) == [typ, 5, 7, 3, 8, 1, x]
  {
    hide TlvBytes, NameField, OneByte;
    OneByteField(x);
    SmallTlv(typ, [7, 3, 8, 1, x]);
  }

  lemma NatAt(typ: nat, v: nat)
    requires typ < 253 && v < 256
    ensures NatField(typ, v) == [typ, 1, v]
  {
    hide TlvBytes, NatBytes;
    OneDigit(v);
    SmallTlv(typ, [v]);
  }

  /** The bytes of an advertisement with one entry. */
  lemma AdvertisementAt(x: Byte, y: Byte, cost: nat, other: nat)
    requires cost < 256 && other < 256
    ensures EntriesBytes([AdvEntry(Some(Destination(Some(OneByte(x)))), Some(Destination(Some(OneByte(y)))), cost, other)])
         == [202, 20] + ([204, 5, 7, 3, 8, 1, x] + ([206, 5, 7, 3, 8, 1, y] + ([208, 1, cost] + [210, 1, other])))
  {
    hide TlvBytes, DestField, NatField, OneByte;
    DestAt(204, x);
    DestAt(206, y);
    NatAt(208, cost);
    NatAt(210, other);
    var e := AdvEntry(Some(Destination(Some(OneByte(x)))), Some(Destination(Some(OneByte(y)))), cost, other);
    SmallTlv(202, EntryBytes(e));
    assert [e][1..] == [];
  }

  /** The bytes of a prefix-operation list that resets, adds one prefix and removes another. */
  lemma PrefixOpListAt(x: Byte, y: Byte, z: Byte, cost: nat)
    requires cost < 256
    ensures
      var adds, removes := [PrefixOpAdd(Some(OneByte(y)), cost)], [PrefixOpRemove(Some(OneByte(z)))];
      var add, remove := [253, 1, 48, 8] + ([7, 3, 8, 1, y] + [208, 1, cost]), [253, 1, 50, 5] + [7, 3, 8, 1, z];
      ListBytes(PrefixOpList(Some(Destination(Some(OneByte(x)))), true, adds, removes))
      == [204, 5, 7, 3, 8, 1, x] + ([253, 1, 46, 0] + (add + remove))
  {
    hide TlvBytes, DestField, NatField, NameField, OneByte;
    DestAt(204, x);
    OneByteField(y);
    OneByteField(z);
    NatAt(208, cost);
    WideTlv(302, []);
    assert [253, 1, 46, 0] + [] == [253, 1, 46, 0];
    WideTlv(304, [7, 3, 8, 1, y] + [208, 1, cost]);
    WideTlv(306, [7, 3, 8, 1, z]);
    var add, remove := PrefixOpAdd(Some(OneByte(y)), cost), PrefixOpRemove(Some(OneByte(z)));
    OneElement(add, remove);
  }

  lemma OneElement(add: PrefixOpAdd, remove: PrefixOpRemove)
    ensures AddsBytes([add]) == TlvBytes(304, AddBytes(add)) && RemovesBytes([remove]) == TlvBytes(306, NameField(remove.name))
  {
    hide TlvBytes, AddBytes, NameField;
    assert [add][1..] == [] && [remove][1..] == [];
    assert AddsBytes([]) == [] && RemovesBytes([]) == [];
  }

  // ----- How it is read -----

  /** The default branch of every parser. */
  function Unknown<V>(lenient: bool, v: V, typ: nat): Option<V> {
    if !lenient && Critical(typ) then None else Some(v)
  }

  function NameStep(lenient: bool, v: Option<Name>, typ: nat, val: Bytes): Option<Option<Name>> {
    if typ == 7 then (match ReadName(val) case None => None case Some(n) => Some(Some(n))) else Unknown(lenient, v, typ)
  }

  /** DestinationParsingContext.Parse and PrefixOpRemoveParsingContext.Parse: a message that is one name. */
  function ParseDest(lenient: bool, bs: Bytes): Option<Destination> {
    match Fold(lenient, bs, None, NameStep) case None => None case Some(n) => Some(Destination(n))
  }

  function ParseRemove(lenient: bool, bs: Bytes): Option<PrefixOpRemove> {
    match Fold(lenient, bs, None, NameStep) case None => None case Some(n) => Some(PrefixOpRemove(n))
  }

  /** An entry being read; its costs are required. */
  datatype EntryPart = EntryPart(destination: Option<Destination>, nextHop: Option<Destination>, cost: Option<nat>, otherCost: Option<nat>)

  const NO_ENTRY := EntryPart(None, None, None, None)

  function EntryStep(lenient: bool, v: EntryPart, typ: nat, val: Bytes): Option<EntryPart> {
    if typ == 204 then (match ParseDest(lenient, val) case None => None case Some(d) => Some(v.(destination := Some(d))))
    else if typ == 206 then (match ParseDest(lenient, val) case None => None case Some(d) => Some(v.(nextHop := Some(d))))
    else if typ == 208 then Some(v.(cost := Some(Value(val))))
    else if typ == 210 then Some(v.(otherCost := Some(Value(val))))
    else Unknown(lenient, v, typ)
  }

  function FinishEntry(v: EntryPart): Option<AdvEntry> {
    if v.cost.None? || v.otherCost.None? then None
    else Some(AdvEntry(v.destination, v.nextHop, v.cost.value, v.otherCost.value))
  }

  function ParseEntry(lenient: bool, bs: Bytes): Option<AdvEntry> {
    match Fold(lenient, bs, NO_ENTRY, EntryStep) case None => None case Some(v) => FinishEntry(v)
  }

  function EntriesStep(lenient: bool, v: seq<AdvEntry>, typ: nat, val: Bytes): Option<seq<AdvEntry>> {
    if typ == 202 then (match ParseEntry(lenient, val) case None => None case Some(e) => Some(v + [e])) else Unknown(lenient, v, typ)
  }

  function ParseAdvertisement(lenient: bool, bs: Bytes): Option<Advertisement> {
    match Fold(lenient, bs, [], EntriesStep) case None => None case Some(es) => Some(Advertisement(es))
  }

  datatype AddPart = AddPart(name: Option<Name>, cost: Option<nat>)

  function AddStep(lenient: bool, v: AddPart, typ: nat, val: Bytes): Option<AddPart> {
    if typ == 7 then (match ReadName(val) case None => None case Some(n) => Some(v.(name := Some(n))))
    else if typ == 208 then Some(v.(cost := Some(Value(val))))
    else Unknown(lenient, v, typ)
  }

  function FinishAdd(v: AddPart): Option<PrefixOpAdd> {
    if v.cost.None? then None else Some(PrefixOpAdd(v.name, v.cost.value))
  }

  function ParseAdd(lenient: bool, bs: Bytes): Option<PrefixOpAdd> {
    match Fold(lenient, bs, AddPart(None, None), AddStep) case None => None case Some(v) => FinishAdd(v)
  }

  function ListStep(lenient: bool, v: PrefixOpList, typ: nat, val: Bytes): Option<PrefixOpList> {
    if typ == 204 then (match ParseDest(lenient, val) case None => None case Some(d) => Some(v.(exitRouter := Some(d))))
    else if typ == 302 then Some(v.(reset := true))
    else if typ == 304 then (match ParseAdd(lenient, val) case None => None case Some(a) => Some(v.(adds := v.adds + [a])))
    else if typ == 306 then (match ParseRemove(lenient, val) case None => None case Some(x) => Some(v.(removes := v.removes + [x])))
    else Unknown(lenient, v, typ)
  }

  const NO_LIST := PrefixOpList(None, false, [], [])

  function ParseList(lenient: bool, bs: Bytes): Option<PrefixOpList> {
    Fold(lenient, bs, NO_LIST, ListStep)
  }

  // ----- Reading back what was written -----

  ghost predicate OptNameOk(n: Option<Name>) {
    n.Some? ==> NameOk(n.value)
  }

  predicate OptShort(n: Option<Name>) {
    n.Some? ==> Short(n.value)
  }

  predicate DestShort(d: Option<Destination>) {
    d.Some? ==> OptShort(d.value.name)
  }

  ghost predicate DestOk(d: Option<Destination>) {
    d.Some? ==> OptNameOk(d.value.name)
  }

  /** A name that takes part in a message is read back as the bytes of its components are. */
  function Reread(n: Option<Name>): Option<Option<Name>> {
    if n.None? then Some(None) else match ReadName(NameBytes(n.value)) case None => None case Some(m) => Some(Some(m))
  }

  lemma RereadShort(n: Option<Name>)
    requires OptNameOk(n)
    ensures Reread(n) == Some(n) <==> OptShort(n)
  {
    if n.Some? {
      NameRoundTrip(n.value);
    }
  }

  lemma NameFieldRead(lenient: bool, n: Option<Name>)
    requires |NameField(n)| < UINT64
    ensures Fold(lenient, NameField(n), None, NameStep) == Reread(n)
  {
    if n.Some? {
      assert NameField(n) == NameField(n) + [];
      FoldStep(lenient, 7, NameBytes(n.value), [], None, NameStep);
    }
  }

  function RereadDest(d: Option<Destination>): Option<Option<Destination>> {
    if d.None? then Some(None) else match Reread(d.value.name) case None => None case Some(n) => Some(Some(Destination(n)))
  }

  lemma RereadDestShort(d: Option<Destination>)
    requires DestOk(d)
    ensures RereadDest(d) == Some(d) <==> DestShort(d)
  {
    if d.Some? {
      RereadShort(d.value.name);
    }
  }

  lemma EntryDestRead(lenient: bool, d: Option<Destination>, rest: Bytes, v: EntryPart)
    requires |DestField(204, d)| < UINT64 && v.destination == None
    ensures Fold(lenient, DestField(204, d) + rest, v, EntryStep)
         == match RereadDest(d) case None => None case Some(x) => Fold(lenient, rest, v.(destination := x), EntryStep)
  {
    hide Fold;
    if d.Some? {
      FoldStep(lenient, 204, NameField(d.value.name), rest, v, EntryStep);
      NameFieldRead(lenient, d.value.name);
    } else {
      assert DestField(204, d) + rest == rest && v == v.(destination := None);
    }
  }

  lemma EntryHopRead(lenient: bool, d: Option<Destination>, rest: Bytes, v: EntryPart)
    requires |DestField(206, d)| < UINT64 && v.nextHop == None
    ensures Fold(lenient, DestField(206, d) + rest, v, EntryStep)
         == match RereadDest(d) case None => None case Some(x) => Fold(lenient, rest, v.(nextHop := x), EntryStep)
  {
    hide Fold;
    if d.Some? {
      FoldStep(lenient, 206, NameField(d.value.name), rest, v, EntryStep);
      NameFieldRead(lenient, d.value.name);
    } else {
      assert DestField(206, d) + rest == rest && v == v.(nextHop := None);
    }
  }

  lemma EntryCostsRead(lenient: bool, cost: nat, otherCost: nat, v: EntryPart)
    requires cost < UINT64 && otherCost < UINT64
    ensures Fold(lenient, NatField(208, cost) + NatField(210, otherCost), v, EntryStep)
         == Some(v.(cost := Some(cost), otherCost := Some(otherCost)))
  {
    hide Fold, NatBytes, TlvBytes, Value;
    FoldNone(lenient, v.(cost := Some(cost), otherCost := Some(otherCost)), EntryStep);
    FoldStep(lenient, 208, NatBytes(cost), NatField(210, otherCost), v, EntryStep);
    NatRoundTrip(cost);
    assert NatField(210, otherCost) == NatField(210, otherCost) + [];
    FoldStep(lenient, 210, NatBytes(otherCost), [], v.(cost := Some(cost)), EntryStep);
    NatRoundTrip(otherCost);
  }

  /** What reading back an entry gives. */
  function RereadEntry(e: AdvEntry): Option<AdvEntry> {
    match RereadDest(e.destination)
    case None => None
    case Some(d) =>
      match RereadDest(e.nextHop)
      case None => None
      case Some(h) => Some(AdvEntry(d, h, e.cost, e.otherCost))
  }

  ghost predicate EntryOk(e: AdvEntry) {
    DestOk(e.destination) && DestOk(e.nextHop) && e.cost < UINT64 && e.otherCost < UINT64
  }

  predicate EntryShort(e: AdvEntry) {
    DestShort(e.destination) && DestShort(e.nextHop)
  }

  lemma EntryRead(lenient: bool, e: AdvEntry)
    requires EntryOk(e) && |EntryBytes(e)| < UINT64
    ensures ParseEntry(lenient, EntryBytes(e)) == RereadEntry(e)
    ensures RereadEntry(e) == Some(e) <==> EntryShort(e)
  {
    hide Fold, RereadDest, DestField, NatField, DestShort;
    var costs := NatField(208, e.cost) + NatField(210, e.otherCost);
    EntryDestRead(lenient, e.destination, DestField(206, e.nextHop) + costs, NO_ENTRY);
    if RereadDest(e.destination).Some? {
      var v := NO_ENTRY.(destination := RereadDest(e.destination).value);
      EntryHopRead(lenient, e.nextHop, costs, v);
      if RereadDest(e.nextHop).Some? {
        EntryCostsRead(lenient, e.cost, e.otherCost, v.(nextHop := RereadDest(e.nextHop).value));
      }
    }
    RereadDestShort(e.destination);
    RereadDestShort(e.nextHop);
  }

  // ----- Advertisements -----

  function RereadEntries(es: seq<AdvEntry>): Option<seq<AdvEntry>> {
    if es == [] then Some([])
    else
      match RereadEntry(es[0])
      case None => None
      case Some(e) => match RereadEntries(es[1..]) case None => None case Some(more) => Some([e] + more)
  }

  ghost predicate AdvOk(a: Advertisement) {
    forall i :: 0 <= i < |a.entries| ==> EntryOk(a.entries[i])
  }

  predicate AdvShort(a: Advertisement) {
    forall i :: 0 <= i < |a.entries| ==> EntryShort(a.entries[i])
  }

  lemma {:induction false} EntriesRead(lenient: bool, es: seq<AdvEntry>, v: seq<AdvEntry>)
    requires AdvOk(Advertisement(es)) && |EntriesBytes(es)| < UINT64
    ensures Fold(lenient, EntriesBytes(es), v, EntriesStep)
         == match RereadEntries(es) case None => None case Some(r) => Some(v + r)
    decreases |es|
  {
    hide Fold, RereadEntry, EntryBytes, ParseEntry, EntryOk, EntryShort, TlvBytes;
    if es == [] {
      FoldNone(lenient, v, EntriesStep);
      assert v + [] == v;
    } else {
      PartsSmaller(202, EntryBytes(es[0]), EntriesBytes(es[1..]));
      FoldStep(lenient, 202, EntryBytes(es[0]), EntriesBytes(es[1..]), v, EntriesStep);
      EntryRead(lenient, es[0]);
      if RereadEntry(es[0]).Some? {
        var e := RereadEntry(es[0]).value;
        EntriesRead(lenient, es[1..], v + [e]);
        if RereadEntries(es[1..]).Some? {
          assert v + [e] + RereadEntries(es[1..]).value == v + ([e] + RereadEntries(es[1..]).value);
        }
      }
    }
  }

  lemma {:induction false} EntriesShort(es: seq<AdvEntry>)
    requires AdvOk(Advertisement(es)) && |EntriesBytes(es)| < UINT64
    ensures RereadEntries(es) == Some(es) <==> AdvShort(Advertisement(es))
    ensures RereadEntries(es).Some? ==> |RereadEntries(es).value| == |es|
    decreases |es|
  {
    hide RereadEntry, EntryBytes, EntryOk, EntryShort;
    if es != [] {
      EntryRead(true, es[0]);
      EntriesShort(es[1..]);
      if RereadEntry(es[0]).Some? && RereadEntries(es[1..]).Some? {
        assert es == [es[0]] + es[1..];
        assert ([RereadEntry(es[0]).value] + RereadEntries(es[1..]).value)[1..] == RereadEntries(es[1..]).value;
      }
    }
  }

  /** An advertisement is read back exactly when no component value is longer than 252 bytes. */
  lemma AdvertisementRoundTrip(lenient: bool, a: Advertisement)
    requires AdvOk(a) && |EntriesBytes(a.entries)| < UINT64
    ensures ParseAdvertisement(lenient, EntriesBytes(a.entries)) == Some(a) <==> AdvShort(a)
  {
    hide Fold;
    EntriesRead(lenient, a.entries, []);
    EntriesShort(a.entries);
    if RereadEntries(a.entries).Some? {
      assert [] + RereadEntries(a.entries).value == RereadEntries(a.entries).value;
    }
  }

  // ----- Prefix operations -----

  function RereadAdd(a: PrefixOpAdd): Option<PrefixOpAdd> {
    match Reread(a.name) case None => None case Some(n) => Some(PrefixOpAdd(n, a.cost))
  }

  function RereadRemove(x: PrefixOpRemove): Option<PrefixOpRemove> {
    match Reread(x.name) case None => None case Some(n) => Some(PrefixOpRemove(n))
  }

  lemma AddRead(lenient: bool, a: PrefixOpAdd)
    requires OptNameOk(a.name) && a.cost < UINT64 && |AddBytes(a)| < UINT64
    ensures ParseAdd(lenient, AddBytes(a)) == RereadAdd(a)
    ensures RereadAdd(a) == Some(a) <==> OptShort(a.name)
  {
    hide Fold, NatBytes, TlvBytes, Value, NameBytes, Short;
    var init, cost := AddPart(None, None), NatField(208, a.cost);
    RereadShort(a.name);
    if a.name.Some? {
      PartsSmaller(7, NameBytes(a.name.value), cost);
      FoldStep(lenient, 7, NameBytes(a.name.value), cost, init, AddStep);
    } else {
      assert NameField(a.name) + cost == cost;
    }
    if Reread(a.name).Some? {
      AddCostRead(lenient, a.cost, AddPart(Reread(a.name).value, None));
    }
  }

  lemma AddCostRead(lenient: bool, cost: nat, v: AddPart)
    requires cost < UINT64
    ensures Fold(lenient, NatField(208, cost), v, AddStep) == Some(v.(cost := Some(cost)))
  {
    hide Fold, NatBytes, TlvBytes, Value;
    assert NatField(208, cost) == NatField(208, cost) + [];
    FoldStep(lenient, 208, NatBytes(cost), [], v, AddStep);
    FoldNone(lenient, v.(cost := Some(cost)), AddStep);
    NatRoundTrip(cost);
  }

  function RereadAdds(adds: seq<PrefixOpAdd>): Option<seq<PrefixOpAdd>> {
    if adds == [] then Some([])
    else
      match RereadAdd(adds[0])
      case None => None
      case Some(a) => match RereadAdds(adds[1..]) case None => None case Some(more) => Some([a] + more)
  }

  function RereadRemoves(removes: seq<PrefixOpRemove>): Option<seq<PrefixOpRemove>> {
    if removes == [] then Some([])
    else
      match RereadRemove(removes[0])
      case None => None
      case Some(x) => match RereadRemoves(removes[1..]) case None => None case Some(more) => Some([x] + more)
  }

  ghost predicate AddsOk(adds: seq<PrefixOpAdd>) {
    forall i :: 0 <= i < |adds| ==> OptNameOk(adds[i].name) && adds[i].cost < UINT64
  }

  ghost predicate RemovesOk(removes: seq<PrefixOpRemove>) {
    forall i :: 0 <= i < |removes| ==> OptNameOk(removes[i].name)
  }

  predicate AddsShort(adds: seq<PrefixOpAdd>) {
    forall i :: 0 <= i < |adds| ==> OptShort(adds[i].name)
  }

  predicate RemovesShort(removes: seq<PrefixOpRemove>) {
    forall i :: 0 <= i < |removes| ==> OptShort(removes[i].name)
  }

  lemma {:induction false} AddsRead(lenient: bool, adds: seq<PrefixOpAdd>, rest: Bytes, v: PrefixOpList)
    requires AddsOk(adds) && |AddsBytes(adds)| < UINT64
    ensures Fold(lenient, AddsBytes(adds) + rest, v, ListStep)
         == match RereadAdds(adds) case None => None case Some(r) => Fold(lenient, rest, v.(adds := v.adds + r), ListStep)
    decreases |adds|
  {
    hide Fold, RereadAdd, AddBytes, ParseAdd, TlvBytes, OptNameOk, OptShort;
    if adds == [] {
      assert AddsBytes(adds) + rest == rest && v.adds + [] == v.adds;
    } else {
      var one, tail := TlvBytes(304, AddBytes(adds[0])), AddsBytes(adds[1..]);
      assert AddsBytes(adds) + rest == one + (tail + rest);
      PartsSmaller(304, AddBytes(adds[0]), tail);
      FoldStep(lenient, 304, AddBytes(adds[0]), tail + rest, v, ListStep);
      AddRead(lenient, adds[0]);
      if RereadAdd(adds[0]).Some? {
        var a := RereadAdd(adds[0]).value;
        AddsRead(lenient, adds[1..], rest, v.(adds := v.adds + [a]));
        if RereadAdds(adds[1..]).Some? {
          assert v.adds + [a] + RereadAdds(adds[1..]).value == v.adds + ([a] + RereadAdds(adds[1..]).value);
        }
      }
    }
  }

  lemma PartsSmaller(typ: nat, val: Bytes, tail: Bytes)
    ensures |TlvBytes(typ, val) + tail| >= |val| && |TlvBytes(typ, val) + tail| >= |tail|
  {
  }

  lemma {:induction false} RemovesRead(lenient: bool, removes: seq<PrefixOpRemove>, v: PrefixOpList)
    requires RemovesOk(removes) && |RemovesBytes(removes)| < UINT64
    ensures Fold(lenient, RemovesBytes(removes), v, ListStep)
         == match RereadRemoves(removes) case None => None case Some(r) => Some(v.(removes := v.removes + r))
    decreases |removes|
  {
    hide Fold, RereadRemove, NameField, ParseRemove, TlvBytes, OptNameOk, OptShort;
    if removes == [] {
      FoldNone(lenient, v, ListStep);
      assert v.removes + [] == v.removes;
    } else {
      var field, tail := NameField(removes[0].name), RemovesBytes(removes[1..]);
      PartsSmaller(306, field, tail);
      FoldStep(lenient, 306, field, tail, v, ListStep);
      RemoveRead(lenient, removes[0]);
      if RereadRemove(removes[0]).Some? {
        var x := RereadRemove(removes[0]).value;
        RemovesRead(lenient, removes[1..], v.(removes := v.removes + [x]));
        if RereadRemoves(removes[1..]).Some? {
          assert v.removes + [x] + RereadRemoves(removes[1..]).value == v.removes + ([x] + RereadRemoves(removes[1..]).value);
        }
      }
    }
  }

  lemma RemoveRead(lenient: bool, x: PrefixOpRemove)
    requires |NameField(x.name)| < UINT64
    ensures ParseRemove(lenient, NameField(x.name)) == RereadRemove(x)
  {
    NameFieldRead(lenient, x.name);
  }

  lemma {:induction false} AddsReturn(adds: seq<PrefixOpAdd>)
    requires AddsOk(adds)
    ensures RereadAdds(adds) == Some(adds) <==> AddsShort(adds)
    ensures RereadAdds(adds).Some? ==> |RereadAdds(adds).value| == |adds|
    decreases |adds|
  {
    hide OptShort, OptNameOk, Reread;
    if adds != [] {
      RereadShort(adds[0].name);
      AddsReturn(adds[1..]);
      if RereadAdd(adds[0]).Some? && RereadAdds(adds[1..]).Some? {
        assert adds == [adds[0]] + adds[1..];
        assert ([RereadAdd(adds[0]).value] + RereadAdds(adds[1..]).value)[1..] == RereadAdds(adds[1..]).value;
      }
    }
  }

  lemma {:induction false} RemovesReturn(removes: seq<PrefixOpRemove>)
    requires RemovesOk(removes)
    ensures RereadRemoves(removes) == Some(removes) <==> RemovesShort(removes)
    ensures RereadRemoves(removes).Some? ==> |RereadRemoves(removes).value| == |removes|
    decreases |removes|
  {
    hide OptShort, OptNameOk, Reread;
    if removes != [] {
      RereadShort(removes[0].name);
      RemovesReturn(removes[1..]);
      if RereadRemove(removes[0]).Some? && RereadRemoves(removes[1..]).Some? {
        assert removes == [removes[0]] + removes[1..];
        assert ([RereadRemove(removes[0]).value] + RereadRemoves(removes[1..]).value)[1..] == RereadRemoves(removes[1..]).value;
      }
    }
  }

  lemma ListHeadRead(lenient: bool, d: Option<Destination>, reset: bool, rest: Bytes)
    requires |DestField(204, d)| < UINT64
    ensures Fold(lenient, DestField(204, d) + (ResetField(reset) + rest), NO_LIST, ListStep)
         == match RereadDest(d) case None => None case Some(x) => Fold(lenient, rest, NO_LIST.(exitRouter := x, reset := reset), ListStep)
  {
    hide Fold;
    var tail := ResetField(reset) + rest;
    if d.Some? {
      FoldStep(lenient, 204, NameField(d.value.name), tail, NO_LIST, ListStep);
      NameFieldRead(lenient, d.value.name);
    } else {
      assert DestField(204, d) + tail == tail;
    }
    if RereadDest(d).Some? {
      var v := NO_LIST.(exitRouter := RereadDest(d).value);
      if reset {
        FoldStep(lenient, 302, [], rest, v, ListStep);
      } else {
        assert ResetField(reset) + rest == rest;
      }
    }
  }

  ghost predicate ListOk(l: PrefixOpList) {
    DestOk(l.exitRouter) && AddsOk(l.adds) && RemovesOk(l.removes)
  }

  predicate ListShort(l: PrefixOpList) {
    DestShort(l.exitRouter) && AddsShort(l.adds) && RemovesShort(l.removes)
  }

  /** A list of prefix operations is read back exactly when no component value is longer than 252 bytes. */
  lemma PrefixOpListRoundTrip(lenient: bool, l: PrefixOpList)
    requires ListOk(l) && |ListBytes(l)| < UINT64
    ensures ParseList(lenient, ListBytes(l)) == Some(l) <==> ListShort(l)
  {
    hide Fold, RereadDest, RereadAdds, RereadRemoves, AddsBytes, RemovesBytes, DestField, ResetField, DestShort, AddsShort, RemovesShort,
         DestOk, AddsOk, RemovesOk;
    ListHeadRead(lenient, l.exitRouter, l.reset, AddsBytes(l.adds) + RemovesBytes(l.removes));
    RereadDestShort(l.exitRouter);
    AddsReturn(l.adds);
    RemovesReturn(l.removes);
    if RereadDest(l.exitRouter).Some? {
      var v := NO_LIST.(exitRouter := RereadDest(l.exitRouter).value, reset := l.reset);
      AddsRead(lenient, l.adds, RemovesBytes(l.removes), v);
      if RereadAdds(l.adds).Some? {
        var adds := RereadAdds(l.adds).value;
        assert v.adds + adds == adds;
        RemovesRead(lenient, l.removes, v.(adds := adds));
        if RereadRemoves(l.removes).Some? {
          assert v.removes + RereadRemoves(l.removes).value == RereadRemoves(l.removes).value;
        }
      }
    }
  }

  // ----- Framing -----

  /** Whether a message is whole elements, and so are the messages in it. */
  predicate AnyValue(typ: nat, val: Bytes) {
    true
  }

  ghost predicate NameMessage(bs: Bytes) {
    Framed(bs, AnyValue)
  }

  ghost predicate EntryValue(typ: nat, val: Bytes) {
    typ == 204 || typ == 206 ==> NameMessage(val)
  }

  ghost predicate EntryMessage(bs: Bytes) {
    Framed(bs, EntryValue)
  }

  ghost predicate EntriesValue(typ: nat, val: Bytes) {
    typ == 202 ==> EntryMessage(val)
  }

  ghost predicate AdvMessage(bs: Bytes) {
    Framed(bs, EntriesValue)
  }

  ghost predicate ListValue(typ: nat, val: Bytes) {
    typ == 204 || typ == 304 || typ == 306 ==> NameMessage(val)
  }

  ghost predicate ListMessage(bs: Bytes) {
    Framed(bs, ListValue)
  }

  /** What is read as flat bytes is framed. */
  lemma NameReadsFramed(lenient: bool, bs: Bytes)
    ensures Fold(lenient, bs, None, NameStep).Some? || ParseAdd(lenient, bs).Some? ==> NameMessage(bs)
  {
    hide Fold, Framed;
    FoldFramed(lenient, bs, None, NameStep, AnyValue);
    FoldFramed(lenient, bs, AddPart(None, None), AddStep, AnyValue);
  }

  lemma EntryReadsFramed(lenient: bool, bs: Bytes)
    ensures ParseEntry(lenient, bs).Some? ==> EntryMessage(bs)
  {
    hide Fold, NameMessage;
    forall w, typ, val | EntryStep(lenient, w, typ, val).Some? ensures EntryValue(typ, val) {
      NameReadsFramed(lenient, val);
    }
    FoldFramed(lenient, bs, NO_ENTRY, EntryStep, EntryValue);
  }

  lemma AdvReadsFramed(lenient: bool, bs: Bytes)
    ensures ParseAdvertisement(lenient, bs).Some? ==> AdvMessage(bs)
  {
    hide Fold, EntryMessage, ParseEntry;
    forall w, typ, val | EntriesStep(lenient, w, typ, val).Some? ensures EntriesValue(typ, val) {
      EntryReadsFramed(lenient, val);
    }
    FoldFramed(lenient, bs, [], EntriesStep, EntriesValue);
  }

  lemma ListReadsFramed(lenient: bool, bs: Bytes)
    ensures ParseList(lenient, bs).Some? ==> ListMessage(bs)
  {
    hide Fold, NameMessage, ParseAdd;
    forall w, typ, val | ListStep(lenient, w, typ, val).Some? ensures ListValue(typ, val) {
      NameReadsFramed(lenient, val);
    }
    FoldFramed(lenient, bs, NO_LIST, ListStep, ListValue);
  }

  /** What is written is framed, however long its components. */
  lemma NameFieldFramed(n: Option<Name>)
    requires |NameField(n)| < UINT64
    ensures NameMessage(NameField(n))
  {
    hide Framed;
    FramedNone(AnyValue);
    if n.Some? {
      assert NameField(n) == TlvBytes(7, NameBytes(n.value)) + [];
      FramedStep(7, NameBytes(n.value), [], AnyValue);
    }
  }

  lemma DestFieldFramed(typ: nat, d: Option<Destination>, rest: Bytes, inner: (nat, Bytes) -> bool)
    requires typ < UINT64 && |DestField(typ, d)| < UINT64 && Framed(rest, inner) && forall val :: NameMessage(val) ==> inner(typ, val)
    ensures Framed(DestField(typ, d) + rest, inner)
  {
    hide Framed, NameMessage;
    if d.Some? {
      NameFieldFramed(d.value.name);
      FramedStep(typ, NameField(d.value.name), rest, inner);
    } else {
      assert DestField(typ, d) + rest == rest;
    }
  }

  lemma NatFieldFramed(typ: nat, x: nat, rest: Bytes, inner: (nat, Bytes) -> bool)
    requires typ < UINT64 && x < UINT64 && Framed(rest, inner) && forall val :: inner(typ, val)
    ensures Framed(NatField(typ, x) + rest, inner)
  {
    hide Framed;
    FramedStep(typ, NatBytes(x), rest, inner);
  }

  lemma EntryFramed(e: AdvEntry)
    requires e.cost < UINT64 && e.otherCost < UINT64 && |EntryBytes(e)| < UINT64
    ensures EntryMessage(EntryBytes(e))
  {
    hide Framed, NameMessage, DestField, NatField;
    FramedNone(EntryValue);
    NatFieldFramed(210, e.otherCost, [], EntryValue);
    assert NatField(210, e.otherCost) + [] == NatField(210, e.otherCost);
    NatFieldFramed(208, e.cost, NatField(210, e.otherCost), EntryValue);
    DestFieldFramed(206, e.nextHop, NatField(208, e.cost) + NatField(210, e.otherCost), EntryValue);
    DestFieldFramed(204, e.destination, DestField(206, e.nextHop) + (NatField(208, e.cost) + NatField(210, e.otherCost)), EntryValue);
  }

  lemma {:induction false} EntriesFramed(es: seq<AdvEntry>)
    requires AdvOk(Advertisement(es)) && |EntriesBytes(es)| < UINT64
    ensures AdvMessage(EntriesBytes(es))
    decreases |es|
  {
    hide Framed, EntryMessage, EntryBytes, TlvBytes, DestOk;
    FramedNone(EntriesValue);
    if es != [] {
      PartsSmaller(202, EntryBytes(es[0]), EntriesBytes(es[1..]));
      EntryFramed(es[0]);
      EntriesFramed(es[1..]);
      FramedStep(202, EntryBytes(es[0]), EntriesBytes(es[1..]), EntriesValue);
    }
  }

  lemma AddFramed(a: PrefixOpAdd)
    requires a.cost < UINT64 && |AddBytes(a)| < UINT64
    ensures NameMessage(AddBytes(a))
  {
    hide Framed, NatField;
    FramedNone(AnyValue);
    var cost := NatField(208, a.cost);
    NatFieldFramed(208, a.cost, [], AnyValue);
    assert cost + [] == cost;
    if a.name.Some? {
      FramedStep(7, NameBytes(a.name.value), cost, AnyValue);
    } else {
      assert NameField(a.name) + cost == cost;
    }
  }

  lemma {:induction false} AddsFramed(adds: seq<PrefixOpAdd>, rest: Bytes)
    requires AddsOk(adds) && |AddsBytes(adds)| < UINT64 && ListMessage(rest)
    ensures ListMessage(AddsBytes(adds) + rest)
    decreases |adds|
  {
    hide Framed, NameMessage, AddBytes, TlvBytes, OptNameOk;
    if adds == [] {
      assert AddsBytes(adds) + rest == rest;
    } else {
      var one, tail := TlvBytes(304, AddBytes(adds[0])), AddsBytes(adds[1..]);
      assert AddsBytes(adds) + rest == one + (tail + rest);
      PartsSmaller(304, AddBytes(adds[0]), tail);
      AddFramed(adds[0]);
      AddsFramed(adds[1..], rest);
      FramedStep(304, AddBytes(adds[0]), tail + rest, ListValue);
    }
  }

  lemma {:induction false} RemovesFramed(removes: seq<PrefixOpRemove>)
    requires |RemovesBytes(removes)| < UINT64
    ensures ListMessage(RemovesBytes(removes))
    decreases |removes|
  {
    hide Framed, NameMessage, NameField, TlvBytes;
    FramedNone(ListValue);
    if removes != [] {
      var field, tail := NameField(removes[0].name), RemovesBytes(removes[1..]);
      PartsSmaller(306, field, tail);
      NameFieldFramed(removes[0].name);
      RemovesFramed(removes[1..]);
      FramedStep(306, field, tail, ListValue);
    }
  }

  lemma ListFramed(l: PrefixOpList)
    requires ListOk(l) && |ListBytes(l)| < UINT64
    ensures ListMessage(ListBytes(l))
  {
    hide Framed, NameMessage, DestField, AddsBytes, RemovesBytes, DestOk, AddsOk, RemovesOk;
    RemovesFramed(l.removes);
    AddsFramed(l.adds, RemovesBytes(l.removes));
    var ops := AddsBytes(l.adds) + RemovesBytes(l.removes);
    if l.reset {
      FramedStep(302, [], ops, ListValue);
    } else {
      assert ResetField(l.reset) + ops == ops;
    }
    DestFieldFramed(204, l.exitRouter, ResetField(l.reset) + ops, ListValue);
  }
}
