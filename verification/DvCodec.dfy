/** The generated encoders and parsers of the routing messages (dv/tlv/zz_generated.go). Parsers are
    proved against the flat reading of the bytes: whatever the segmentation, of whole elements the
    parser returns exactly what the flat reading does, failure included. */
module DvCodec {
  import opened NdnName
  import opened Wrappers
  import opened TlvSpec
  import opened DvMessages
  import opened WireViews

  // ----- Parsers -----

  /** Type and length at the head of an element. */
  method ReadHeader(view: WireView) returns (r: Result<(nat, nat)>)
    requires view.Valid()
    modifies view
    ensures view.Valid()
    ensures r.Ok? ==> |view.Rest()| < |old(view.Rest())| && view.apos <= view.end
    ensures match ReadNum(old(view.Rest()))
            case None => r.Err?
            case Some((typ, more)) =>
              match ReadNum(more) case None => r.Err? case Some((l, rest)) => r == Ok((typ, l)) && view.Rest() == rest
    ensures match ReadTlv(old(view.Rest()))
            case None => true
            case Some((typ, val, rest)) => r == Ok((typ, |val|)) && view.Rest() == val + rest
  {
    hide ReadNum, At, Join, Segmented;
    var typ := ReadNumber(view);
    if typ.Err? {
      return Err(typ.error);
    }
    var l := ReadNumber(view);
    if l.Err? {
      return Err(l.error);
    }
    return Ok((typ.value, l.value));
  }

  /** The value of the element whose header was just read, as a view of its own. */
  method TakeValue(view: WireView, l: nat) returns (sub: WireView)
    requires view.Valid() && view.apos <= view.end
    modifies view
    ensures view.Valid() && sub.Valid() && fresh(sub) && |view.Rest()| <= |old(view.Rest())|
    ensures l <= |old(view.Rest())| ==> sub.Rest() == old(view.Rest())[..l] && view.Rest() == old(view.Rest())[l..]
  {
    hide At, Join, Segmented;
    sub := Delegate(view, l);
  }

  /** The default branch of every parser. */
  method SkipUnknown(view: WireView, lenient: bool, typ: nat, l: nat) returns (ok: bool)
    requires view.Valid()
    modifies view
    ensures view.Valid() && |view.Rest()| <= |old(view.Rest())|
    ensures l <= |old(view.Rest())| ==> (ok <==> lenient || !Critical(typ)) && (ok ==> view.Rest() == old(view.Rest())[l..])
  {
    hide At, Join, Segmented;
    if !lenient && Critical(typ) {
      return false;
    }
    ok := view.Skip(l);
  }

  /** What is known at the head of each round of a parsing loop over whole elements. */
  ghost predicate OnTrack<V>(framed: bool, lenient: bool, goal: Option<V>, bs: Bytes, v: V,
                             step: (bool, V, nat, Bytes) -> Option<V>, inner: (nat, Bytes) -> bool) {
    framed ==> Framed(bs, inner) && Fold(lenient, bs, v, step) == goal
  }

  lemma NextRound<V>(lenient: bool, goal: Option<V>, bs: Bytes, v: V,
                     step: (bool, V, nat, Bytes) -> Option<V>, inner: (nat, Bytes) -> bool)
    requires OnTrack(true, lenient, goal, bs, v, step, inner) && bs != []
    ensures ReadTlv(bs).Some? && inner(ReadTlv(bs).value.0, ReadTlv(bs).value.1)
    ensures match step(lenient, v, ReadTlv(bs).value.0, ReadTlv(bs).value.1)
            case None => goal == None
            case Some(w) => OnTrack(true, lenient, goal, ReadTlv(bs).value.2, w, step, inner)
  {
  }

  lemma Split(val: Bytes, rest: Bytes)
    ensures (val + rest)[..|val|] == val && (val + rest)[|val|..] == rest
  {
  }

  /** DestinationParsingContext.Parse and PrefixOpRemoveParsingContext.Parse */
  method ParseNameMessage(view: WireView, lenient: bool) returns (r: Option<Option<Name>>)
    requires view.Valid()
    modifies view
    ensures view.Valid()
    ensures NameMessage(old(view.Rest())) ==> r == Fold(lenient, old(view.Rest()), None, NameStep)
    ensures Fold(lenient, old(view.Rest()), None, NameStep).Some? ==> r == Fold(lenient, old(view.Rest()), None, NameStep)
  {
    hide Fold, Framed, ReadTlv, ReadNum, ReadName, At, Join, Segmented;
    var name: Option<Name> := None;
    NameReadsFramed(lenient, view.Rest());
    ghost var framed, goal := NameMessage(view.Rest()), Fold(lenient, view.Rest(), None, NameStep);
    while !view.IsEof()
      invariant view.Valid() && OnTrack(framed, lenient, goal, view.Rest(), name, NameStep, AnyValue)
      decreases |view.Rest()|
    {
      if framed {
        NextRound(lenient, goal, view.Rest(), name, NameStep, AnyValue);
        Split(ReadTlv(view.Rest()).value.1, ReadTlv(view.Rest()).value.2);
      }
      var head := ReadHeader(view);
      if head.Err? {
        return None;
      }
      var (typ, l) := head.value;
      if typ == 7 {
        var sub := TakeValue(view, l);
        var n := ReadNameFrom(sub);
        if n.Err? {
          return None;
        }
        name := Some(n.value);
      } else {
        var ok := SkipUnknown(view, lenient, typ, l);
        if !ok {
          return None;
        }
      }
    }
    FoldNone(lenient, name, NameStep);
    return Some(name);
  }

  method ParseDestination(view: WireView, lenient: bool) returns (r: Option<Destination>)
    requires view.Valid()
    modifies view
    ensures view.Valid()
    ensures NameMessage(old(view.Rest())) ==> r == ParseDest(lenient, old(view.Rest()))
    ensures ParseDest(lenient, old(view.Rest())).Some? ==> r == ParseDest(lenient, old(view.Rest()))
  {
    var n := ParseNameMessage(view, lenient);
    return match n case None => None case Some(name) => Some(Destination(name));
  }

  /** AdvEntryParsingContext.Parse */
  method ParseAdvEntry(view: WireView, lenient: bool) returns (r: Option<AdvEntry>)
    requires view.Valid()
    modifies view
    ensures view.Valid()
    ensures EntryMessage(old(view.Rest())) ==> r == ParseEntry(lenient, old(view.Rest()))
    ensures ParseEntry(lenient, old(view.Rest())).Some? ==> r == ParseEntry(lenient, old(view.Rest()))
  {
    hide Fold, Framed, ReadTlv, ReadNum, ParseDest, NameMessage, Value, At, Join, Segmented;
    var v := NO_ENTRY;
    EntryReadsFramed(lenient, view.Rest());
    ghost var framed, goal := EntryMessage(view.Rest()), Fold(lenient, view.Rest(), NO_ENTRY, EntryStep);
    while !view.IsEof()
      invariant view.Valid() && OnTrack(framed, lenient, goal, view.Rest(), v, EntryStep, EntryValue)
      decreases |view.Rest()|
    {
      if framed {
        NextRound(lenient, goal, view.Rest(), v, EntryStep, EntryValue);
        Split(ReadTlv(view.Rest()).value.1, ReadTlv(view.Rest()).value.2);
      }
      var head := ReadHeader(view);
      if head.Err? {
        return None;
      }
      var (typ, l) := head.value;
      if typ == 204 || typ == 206 {
        var sub := TakeValue(view, l);
        var d := ParseDestination(sub, lenient);
        if d.None? {
          return None;
        }
        v := if typ == 204 then v.(destination := d) else v.(nextHop := d);
      } else if typ == 208 || typ == 210 {
        var x := ReadValue(view, l);
        if x.Err? {
          return None;
        }
        v := if typ == 208 then v.(cost := Some(x.value)) else v.(otherCost := Some(x.value));
      } else {
        var ok := SkipUnknown(view, lenient, typ, l);
        if !ok {
          return None;
        }
      }
    }
    FoldNone(lenient, v, EntryStep);
    return FinishEntry(v);
  }

  /** AdvertisementParsingContext.Parse */
  method ParseAdvertisementView(view: WireView, lenient: bool) returns (r: Option<Advertisement>)
    requires view.Valid()
    modifies view
    ensures view.Valid()
    ensures AdvMessage(old(view.Rest())) ==> r == ParseAdvertisement(lenient, old(view.Rest()))
    ensures ParseAdvertisement(lenient, old(view.Rest())).Some? ==> r == ParseAdvertisement(lenient, old(view.Rest()))
  {
    hide Fold, Framed, ReadTlv, ReadNum, ParseEntry, EntryMessage, At, Join, Segmented;
    var es: seq<AdvEntry> := [];
    AdvReadsFramed(lenient, view.Rest());
    ghost var framed, goal := AdvMessage(view.Rest()), Fold(lenient, view.Rest(), [], EntriesStep);
    while !view.IsEof()
      invariant view.Valid() && OnTrack(framed, lenient, goal, view.Rest(), es, EntriesStep, EntriesValue)
      decreases |view.Rest()|
    {
      if framed {
        NextRound(lenient, goal, view.Rest(), es, EntriesStep, EntriesValue);
        Split(ReadTlv(view.Rest()).value.1, ReadTlv(view.Rest()).value.2);
      }
      var head := ReadHeader(view);
      if head.Err? {
        return None;
      }
      var (typ, l) := head.value;
      if typ == 202 {
        var sub := TakeValue(view, l);
        var e := ParseAdvEntry(sub, lenient);
        if e.None? {
          return None;
        }
        es := es + [e.value];
      } else {
        var ok := SkipUnknown(view, lenient, typ, l);
        if !ok {
          return None;
        }
      }
    }
    FoldNone(lenient, es, EntriesStep);
    return Some(Advertisement(es));
  }

  method ParseRemoveView(view: WireView, lenient: bool) returns (r: Option<PrefixOpRemove>)
    requires view.Valid()
    modifies view
    ensures view.Valid()
    ensures NameMessage(old(view.Rest())) ==> r == ParseRemove(lenient, old(view.Rest()))
    ensures ParseRemove(lenient, old(view.Rest())).Some? ==> r == ParseRemove(lenient, old(view.Rest()))
  {
    var n := ParseNameMessage(view, lenient);
    return match n case None => None case Some(name) => Some(PrefixOpRemove(name));
  }

  /** PrefixOpAddParsingContext.Parse */
  method ParseAddView(view: WireView, lenient: bool) returns (r: Option<PrefixOpAdd>)
    requires view.Valid()
    modifies view
    ensures view.Valid()
    ensures NameMessage(old(view.Rest())) ==> r == ParseAdd(lenient, old(view.Rest()))
    ensures ParseAdd(lenient, old(view.Rest())).Some? ==> r == ParseAdd(lenient, old(view.Rest()))
  {
    hide Fold, Framed, ReadTlv, ReadNum, ReadName, Value, At, Join, Segmented;
    var v := AddPart(None, None);
    NameReadsFramed(lenient, view.Rest());
    ghost var framed, goal := NameMessage(view.Rest()), Fold(lenient, view.Rest(), v, AddStep);
    while !view.IsEof()
      invariant view.Valid() && OnTrack(framed, lenient, goal, view.Rest(), v, AddStep, AnyValue)
      decreases |view.Rest()|
    {
      if framed {
        NextRound(lenient, goal, view.Rest(), v, AddStep, AnyValue);
        Split(ReadTlv(view.Rest()).value.1, ReadTlv(view.Rest()).value.2);
      }
      var head := ReadHeader(view);
      if head.Err? {
        return None;
      }
      var (typ, l) := head.value;
      if typ == 7 {
        var sub := TakeValue(view, l);
        var n := ReadNameFrom(sub);
        if n.Err? {
          return None;
        }
        v := v.(name := Some(n.value));
      } else if typ == 208 {
        var x := ReadValue(view, l);
        if x.Err? {
          return None;
        }
        v := v.(cost := Some(x.value));
      } else {
        var ok := SkipUnknown(view, lenient, typ, l);
        if !ok {
          return None;
        }
      }
    }
    FoldNone(lenient, v, AddStep);
    return FinishAdd(v);
  }

  /** One known element of a list of prefix operations. */
  method ParseListElement(view: WireView, lenient: bool, v: PrefixOpList, typ: nat, l: nat) returns (r: Option<PrefixOpList>)
    requires view.Valid() && view.apos <= view.end && typ in {204, 302, 304, 306}
    modifies view
    ensures view.Valid() && |view.Rest()| <= |old(view.Rest())|
    ensures l <= |old(view.Rest())| && ListValue(typ, old(view.Rest())[..l]) ==>
      r == ListStep(lenient, v, typ, old(view.Rest())[..l]) && (r.Some? ==> view.Rest() == old(view.Rest())[l..])
  {
    hide ParseDest, ParseAdd, ParseRemove, NameMessage, At, Join, Segmented;
    if typ == 302 {
      var ok := view.Skip(l);
      return if ok then Some(v.(reset := true)) else None;
    }
    var sub := TakeValue(view, l);
    if typ == 204 {
      var d := ParseDestination(sub, lenient);
      return if d.None? then None else Some(v.(exitRouter := d));
    } else if typ == 304 {
      var a := ParseAddView(sub, lenient);
      return if a.None? then None else Some(v.(adds := v.adds + [a.value]));
    } else {
      var x := ParseRemoveView(sub, lenient);
      return if x.None? then None else Some(v.(removes := v.removes + [x.value]));
    }
  }

  /** PrefixOpListParsingContext.Parse */
  method ParseListView(view: WireView, lenient: bool) returns (r: Option<PrefixOpList>)
    requires view.Valid()
    modifies view
    ensures view.Valid()
    ensures ListMessage(old(view.Rest())) ==> r == ParseList(lenient, old(view.Rest()))
    ensures ParseList(lenient, old(view.Rest())).Some? ==> r == ParseList(lenient, old(view.Rest()))
  {
    hide Fold, Framed, ReadTlv, ReadNum, ParseDest, ParseAdd, ParseRemove, NameMessage, At, Join, Segmented;
    var v := NO_LIST;
    ListReadsFramed(lenient, view.Rest());
    ghost var framed, goal := ListMessage(view.Rest()), Fold(lenient, view.Rest(), NO_LIST, ListStep);
    while !view.IsEof()
      invariant view.Valid() && OnTrack(framed, lenient, goal, view.Rest(), v, ListStep, ListValue)
      decreases |view.Rest()|
    {
      if framed {
        NextRound(lenient, goal, view.Rest(), v, ListStep, ListValue);
        Split(ReadTlv(view.Rest()).value.1, ReadTlv(view.Rest()).value.2);
      }
      var head := ReadHeader(view);
      if head.Err? {
        return None;
      }
      var (typ, l) := head.value;
      if typ in {204, 302, 304, 306} {
        var w := ParseListElement(view, lenient, v, typ, l);
        if w.None? {
          return None;
        }
        v := w.value;
      } else {
        var ok := SkipUnknown(view, lenient, typ, l);
        if !ok {
          return None;
        }
      }
    }
    FoldNone(lenient, v, ListStep);
    return Some(v);
  }

  // ----- Decoding what was encoded -----

  /** An advertisement cut into any non-empty segments parses to itself exactly when no component
      value is longer than 252 bytes. */
  method DecodeAdvertisement(wire: Wire, lenient: bool, ghost a: Advertisement) returns (r: Option<Advertisement>)
    requires Segmented(wire) && Join(wire) == EntriesBytes(a.entries) && |Join(wire)| < UINT64 && AdvOk(a)
    ensures r == Some(a) <==> AdvShort(a)
  {
    hide ParseAdvertisement, Segmented, AdvOk, AdvShort, AdvMessage;
    AdvertisementRoundTrip(lenient, a);
    EntriesFramed(a.entries);
    var view := new WireView(wire);
    r := ParseAdvertisementView(view, lenient);
  }

  /** A list of prefix operations cut into any non-empty segments parses to itself exactly when no
      component value is longer than 252 bytes. */
  method DecodePrefixOpList(wire: Wire, lenient: bool, ghost l: PrefixOpList) returns (r: Option<PrefixOpList>)
    requires Segmented(wire) && Join(wire) == ListBytes(l) && |Join(wire)| < UINT64 && ListOk(l)
    ensures r == Some(l) <==> ListShort(l)
  {
    hide ParseList, Segmented, ListOk, ListShort, ListMessage;
    PrefixOpListRoundTrip(lenient, l);
    ListFramed(l);
    var view := new WireView(wire);
    r := ParseListView(view, lenient);
  }
}
