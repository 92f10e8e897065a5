/** What a report's objects say when they are decoded, in terms of their bytes and TLVs
    (pkg/packet/pcep/object.go, pkg/packet/pcep/message.go). */
module ReportFields {
  import opened Bytes
  import opened Netip
  import opened Objects
  import opened Reports
  import opened Tlv
  import opened Wrappers
  import Ero
  import Segments

  // ----- name and addresses of an LSP

  predicate SaysName(t: Tlv) { t.SymbolicPathName? }

  predicate SaysIds(t: Tlv) { t.IPv4LSPIdentifiers? || t.IPv6LSPIdentifiers? }

  function IdsOf(t: Tlv): LspIds
    requires SaysIds(t)
  {
    if t.IPv4LSPIdentifiers? then t.ids4 else t.ids6
  }

  /** TLV `i` is the last one that says something. */
  predicate IsLast(ts: seq<Tlv>, says: Tlv -> bool, i: nat) {
    i < |ts| && says(ts[i]) && forall j | i < j < |ts| :: !says(ts[j])
  }

  predicate NoneSays(ts: seq<Tlv>, says: Tlv -> bool) {
    forall t | t in ts :: !says(t)
  }

  lemma {:induction false} LaterLast(ts: seq<Tlv>, says: Tlv -> bool, i: nat)
    requires IsLast(ts, says, i)
    ensures i > 0 ==> IsLast(ts[1..], says, i - 1)
    ensures i == 0 ==> NoneSays(ts[1..], says)
  {
  }

  lemma {:induction false} FirstAndLater(ts: seq<Tlv>, says: Tlv -> bool)
    requires ts != []
    ensures NoneSays(ts, says) ==> !says(ts[0]) && NoneSays(ts[1..], says)
  {
    assert ts[0] in ts && forall t | t in ts[1..] :: t in ts;
  }

  lemma {:induction false} NameIsLast(o: Lsp, ts: seq<Tlv>)
    ensures forall i: nat | IsLast(ts, SaysName, i) :: LspFields(o, ts).name == ts[i].name
    ensures NoneSays(ts, SaysName) ==> LspFields(o, ts).name == o.name
    decreases |ts|
  {
    if ts != [] {
      var next := LspFields(o, [ts[0]]);
      OneField(o, ts);
      NameIsLast(next, ts[1..]);
      FirstAndLater(ts, SaysName);
      forall i: nat | IsLast(ts, SaysName, i)
        ensures LspFields(o, ts).name == ts[i].name
      {
        LaterLast(ts, SaysName, i);
      }
    }
  }

  lemma {:induction false} IdsAreLast(o: Lsp, ts: seq<Tlv>)
    ensures forall i: nat | IsLast(ts, SaysIds, i) ::
              var ids, r := IdsOf(ts[i]), LspFields(o, ts); r.src == ids.sender && r.dst == ids.endpoint && r.lspID == ids.lspID
    ensures NoneSays(ts, SaysIds) ==> var r := LspFields(o, ts); r.src == o.src && r.dst == o.dst && r.lspID == o.lspID
    decreases |ts|
  {
    if ts != [] {
      var next := LspFields(o, [ts[0]]);
      OneField(o, ts);
      IdsAreLast(next, ts[1..]);
      FirstAndLater(ts, SaysIds);
      forall i: nat | IsLast(ts, SaysIds, i)
        ensures var ids, r := IdsOf(ts[i]), LspFields(o, ts); r.src == ids.sender && r.dst == ids.endpoint && r.lspID == ids.lspID
      {
        LaterLast(ts, SaysIds, i);
      }
    }
  }

  lemma {:induction false} OneField(o: Lsp, ts: seq<Tlv>)
    requires ts != []
    ensures LspFields(o, ts) == LspFields(LspFields(o, [ts[0]]), ts[1..])
  {
    assert [ts[0]][1..] == [];
  }

  /** A decoded LSP has the name of the last name TLV, and sender, endpoint and LSP-ID of the last
      identifiers, IPv4 or IPv6. */
  lemma {:induction false} LspSaysWhatItsTlvsSay(typ: byte, body: bytes, o: Lsp)
    requires DecodeLsp(NO_LSP, typ, body) == Done(o)
    ensures forall i: nat | IsLast(o.tlvs, SaysName, i) :: o.name == o.tlvs[i].name
    ensures NoneSays(o.tlvs, SaysName) ==> o.name == []
    ensures forall i: nat | IsLast(o.tlvs, SaysIds, i) ::
              var ids := IdsOf(o.tlvs[i]); o.src == ids.sender && o.dst == ids.endpoint && o.lspID == ids.lspID
    ensures NoneSays(o.tlvs, SaysIds) ==> o.src == Invalid && o.dst == Invalid && o.lspID == 0
  {
    var bare := o.(name := [], src := Invalid, dst := Invalid, lspID := 0);
    if |body| > 4 {
      var tlvs := TlvsBehind([], body, 4, Standard).value;
      var flags := body[3];
      var first := Lsp(typ, [], Invalid, Invalid, ReadU32(body, 0) / 0x1000, 0, flags / 0x80 == 1, flags / 16 % 8, flags / 8 % 2 == 1,
                       flags / 4 % 2 == 1, flags / 2 % 2 == 1, flags % 2 == 1, tlvs);
      FieldsKeepTlvs(first, tlvs);
      NameIsLast(first, tlvs);
      IdsAreLast(first, tlvs);
    }
  }

  lemma {:induction false} FieldsKeepTlvs(o: Lsp, ts: seq<Tlv>)
    ensures LspFields(o, ts).tlvs == o.tlvs
    decreases |ts|
  {
    if ts != [] {
      OneField(o, ts);
      FieldsKeepTlvs(LspFields(o, [ts[0]]), ts[1..]);
      assert [ts[0]][1..] == [];
    }
  }

  // ----- attributes

  lemma {:induction false} BandwidthIsRead(typ: byte, x: u32, rest: bytes)
    ensures DecodeBandwidth(typ, U32Bytes(x) + rest) == Done(Bandwidth(typ, x))
  {
    U32RoundTrip([], x, rest);
    assert [] + U32Bytes(x) + rest == U32Bytes(x) + rest;
  }

  /** The flags are the lowest bits of the third byte: B (bound) and, before it, C (computed). */
  lemma {:induction false} MetricIsRead(typ: byte, a: byte, b: byte, upper: nat, c: bool, bound: bool, kind: byte, x: u32, rest: bytes)
    requires upper < 64
    ensures DecodeMetric(typ, [a, b, 4 * upper + 2 * Bit(c) + Bit(bound), kind] + U32Bytes(x) + rest) == Done(Metric(typ, c, bound, kind, x))
  {
    U32RoundTrip([a, b, 4 * upper + 2 * Bit(c) + Bit(bound), kind], x, rest);
  }

  /** `LSPAObject.Serialize`, behind the header. */
  function LspaBody(o: Lspa): bytes {
    U32Bytes(o.excludeAny) + U32Bytes(o.includeAny) + U32Bytes(o.includeAll)
    + [o.setupPriority, o.holdingPriority, Bit(o.lFlag), 0]
  }

  /** Every LSPA object survives its format. */
  lemma {:induction false} LspaRoundTrip(o: Lspa)
    ensures DecodeLspa(o.typ, LspaBody(o)) == Done(o)
  {
    var x, y, z := U32Bytes(o.excludeAny), U32Bytes(o.includeAny), U32Bytes(o.includeAll);
    var tail: bytes := [o.setupPriority, o.holdingPriority, Bit(o.lFlag), 0];
    U32RoundTrip([], o.excludeAny, y + z + tail);
    U32RoundTrip(x, o.includeAny, z + tail);
    U32RoundTrip(x + y, o.includeAll, tail);
    assert LspaBody(o) == [] + x + (y + z + tail) == x + y + (z + tail) == x + y + z + tail;
  }

  /** Without these many bytes the decoders of bandwidth, metric, LSPA, LSP and association slice out of
      bounds; those of SRP, error and vendor information report an error. */
  lemma {:induction false} ShortBodies(typ: byte, body: bytes, lsp: Lsp, association: Association, vendor: VendorInfo)
    ensures DecodeBandwidth(typ, body) == Crashed <==> |body| < 4
    ensures DecodeMetric(typ, body) == Crashed <==> |body| < 8
    ensures DecodeLspa(typ, body) == Crashed <==> |body| < 15
    ensures DecodeLsp(lsp, typ, body) == Crashed <==> |body| < 4
    ensures DecodeAssociation(association, typ, body) == Crashed <==>
            |body| < 8 || (typ == 1 && |body| < 12) || (typ == 2 && |body| < 24)
    ensures |body| >= 8 && typ !in {1, 2} ==> DecodeAssociation(association, typ, body) == Rejected
    ensures |body| < 8 ==> DecodeSrp(typ, body) == None
    ensures |body| < 4 ==> DecodeError(typ, body) == None && DecodeVendor(vendor, typ, body) == None
  {
  }

  /** An object without TLVs leaves those that the report has from an earlier one. */
  lemma {:induction false} EarlierTlvsStay(typ: byte, body: bytes, lsp: Lsp, association: Association, vendor: VendorInfo)
    ensures |body| == 4 ==> forall o | DecodeLsp(lsp, typ, body) == Done(o) ::
              o.tlvs == lsp.tlvs && o.name == lsp.name && o.src == lsp.src && o.dst == lsp.dst && o.lspID == lsp.lspID
    ensures |body| == (if typ == 1 then 12 else 24) ==>
              forall o | DecodeAssociation(association, typ, body) == Done(o) :: o.tlvs == association.tlvs
    ensures |body| == 4 ==> forall o | DecodeVendor(vendor, typ, body) == Some(o) :: o.tlvs == vendor.tlvs
  {
  }

  /** The operational state has three bits; a fourth one would set the C flag. */
  lemma {:induction false} FourthStateBit(o: Lsp)
    ensures LspFlags(o) / 0x80 == 1 <==> o.cFlag || o.oFlag / 8 % 2 == 1
    ensures LspFlags(o) / 0x10 % 8 == o.oFlag % 8
  {
  }

  /** Bandwidths, metrics and hops are added to those of the report; LSPA, association and vendor
      information are replaced; and what the decoders report is passed on. */
  lemma {:induction false} AttributesAreAdded(r: Report, o: RawObject)
    ensures o.class_ == 5 ==> Apply(r, o) == match DecodeBandwidth(o.typ, o.body)
                                             case Done(b) => Done(r.(bandwidths := r.bandwidths + [b]))
                                             case Rejected => Rejected
                                             case Crashed => Crashed
    ensures o.class_ == 6 ==> Apply(r, o) == match DecodeMetric(o.typ, o.body)
                                             case Done(m) => Done(r.(metrics := r.metrics + [m]))
                                             case Rejected => Rejected
                                             case Crashed => Crashed
    ensures o.class_ == 7 ==> Apply(r, o) == match Ero.DecodeBody(o.body)
                                             case Some(hops) => Done(r.(ero := Route(o.typ, r.ero.hops + hops)))
                                             case None => Rejected
    ensures o.class_ == 9 ==> Apply(r, o) == match DecodeLspa(o.typ, o.body)
                                             case Done(l) => Done(r.(lspa := l))
                                             case Rejected => Rejected
                                             case Crashed => Crashed
    ensures o.class_ == 40 ==> Apply(r, o) == match DecodeAssociation(r.association, o.typ, o.body)
                                              case Done(a) => Done(r.(association := a))
                                              case Rejected => Rejected
                                              case Crashed => Crashed
    ensures o.class_ == 34 ==> Apply(r, o) == match DecodeVendor(r.vendor, o.typ, o.body)
                                              case Some(v) => Done(r.(vendor := v))
                                              case None => Rejected
  {
  }

  // ----- a hop that is only ever received

  /** An SRv6 hop with a link-local adjacency (NAI type 6): of its forty bytes the two addresses are
      kept, and the interface identifiers between and behind them are not. */
  lemma {:induction false} LinkLocalHopIsRead(length: byte, behavior: u16, sid: Bytes16, local: Bytes16, x: bytes, remote: Bytes16, y: bytes, rest: bytes)
    requires |x| == 4 && |y| == 4
    ensures Ero.DecodeSubobject([0x28, length, 0x60, 0, 0, 0] + U16Bytes(behavior) + sid + local + x + remote + y + rest)
            == Some(Ero.SRv6Hop(false, length, 6, false, false, false, false,
                                Segments.SRv6(V6(sid), V6(local), V6(remote), None, behavior == 48 || behavior == 57)))
  {
    var head: bytes := [0x28, length, 0x60, 0, 0, 0];
    var nai := local + x + remote + y;
    var b := head + U16Bytes(behavior) + sid + local + x + remote + y + rest;
    U16RoundTrip(head, behavior, sid + nai + rest);
    assert b == head + U16Bytes(behavior) + (sid + nai + rest);
    assert b[8..24] == sid && b[24..64] == nai;
    assert nai[..16] == local && nai[20..36] == remote;
  }
}
