/** Which objects survive their wire format. */
module ObjectRoundTrip {
  import opened Bytes
  import opened Netip
  import opened Wrappers
  import opened Tlv
  import opened TlvRoundTrip
  import opened Objects

  lemma TlvTail(head: bytes, tail: bytes, space: Space)
    ensures TlvsBehind([], head + tail, |head|, space) == DecodeTLVs(tail, space)
  {
    assert (head + tail)[|head|..] == tail;
  }

  lemma SrpFields(typ: byte, rFlag: bool, srpID: u32, tail: bytes)
    ensures DecodeSrp(typ, [0, 0, 0, Bit(rFlag)] + U32Bytes(srpID) + tail) ==
            match DecodeTLVs(tail, Standard) case None => None case Some(tlvs) => Some(Srp(typ, rFlag, srpID, tlvs))
  {
    var head: bytes := [0, 0, 0, Bit(rFlag)];
    U32RoundTrip(head, srpID, tail);
    TlvTail(head + U32Bytes(srpID), tail, Standard);
  }

  lemma {:induction false} SrpRoundTrip(o: Srp)
    ensures DecodeSrp(o.typ, SrpBody(o)) == Some(o) <==> AllWellFormed(o.tlvs)
  {
    SrpFields(o.typ, o.rFlag, o.srpID, SerializeAll(o.tlvs));
    RoundTripsExactlyWhenWellFormed(o.tlvs);
  }

  lemma {:induction false} ErrorRoundTrip(o: PcepError)
    ensures DecodeError(o.typ, ErrorBody(o)) == Some(o) <==> AllWellFormed(o.tlvs)
  {
    TlvTail([0, 0, o.errorType, o.errorValue], SerializeAll(o.tlvs), Standard);
    RoundTripsExactlyWhenWellFormed(o.tlvs);
  }

  lemma {:induction false} VendorRoundTrip(o: VendorInfo)
    ensures DecodeVendor(NO_VENDOR, o.typ, VendorBody(o)) == Some(o) <==> AllOpaque(o.tlvs)
  {
    U32RoundTrip([], o.enterpriseNumber, SerializeAll(o.tlvs));
    assert VendorBody(o) == [] + U32Bytes(o.enterpriseNumber) + SerializeAll(o.tlvs);
    TlvTail(U32Bytes(o.enterpriseNumber), SerializeAll(o.tlvs), Vendor);
    TlvRoundTrip.VendorRoundTrip(o.tlvs, []);
  }

  /** The four fixed fields stand where they are read. */
  lemma {:induction false} AssociationHead(rFlag: bool, assocType: u16, assocID: u16, rest: bytes)
    ensures var b := [0, 0, 0, Bit(rFlag)] + U16Bytes(assocType) + U16Bytes(assocID) + rest;
            && |b| == 8 + |rest| && b[8..] == rest && b[3] == Bit(rFlag)
            && ReadU16(b, 4) == assocType && ReadU16(b, 6) == assocID
  {
    var head: bytes := [0, 0, 0, Bit(rFlag)];
    var b := head + U16Bytes(assocType) + U16Bytes(assocID) + rest;
    U16RoundTrip(head, assocType, U16Bytes(assocID) + rest);
    assert b == head + U16Bytes(assocType) + (U16Bytes(assocID) + rest);
    U16RoundTrip(head + U16Bytes(assocType), assocID, rest);
  }

  lemma Middle(pre: bytes, mid: bytes, post: bytes)
    ensures (pre + mid + post)[|pre|..|pre| + |mid|] == mid
  {
  }

  lemma {:induction false} AssociationFields(o: Association, tail: bytes)
    requires if o.typ == 1 then o.assocSrc.V4? else o.typ == 2 && o.assocSrc.V6?
    ensures var b := [0, 0, 0, Bit(o.rFlag)] + U16Bytes(o.assocType) + U16Bytes(o.assocID) + o.assocSrc.AsSlice() + tail;
            DecodeAssociation(NO_ASSOCIATION, o.typ, b) ==
            match DecodeTLVs(tail, Standard) case None => Rejected case Some(tlvs) => Done(o.(tlvs := tlvs))
  {
    var head := [0, 0, 0, Bit(o.rFlag)] + U16Bytes(o.assocType) + U16Bytes(o.assocID);
    var src := o.assocSrc.AsSlice();
    var b := head + src + tail;
    AssociationHead(o.rFlag, o.assocType, o.assocID, src + tail);
    assert b == head + (src + tail);
    Middle(head, src, tail);
    TlvTail(head + src, tail, Standard);
  }

  /** An association whose object type is its source's address family. */
  lemma {:induction false} AssociationRoundTrip(o: Association)
    requires if o.typ == 1 then o.assocSrc.V4? else o.typ == 2 && o.assocSrc.V6?
    ensures DecodeAssociation(NO_ASSOCIATION, o.typ, AssociationBody(o)) == Done(o) <==> AllWellFormed(o.tlvs)
  {
    AssociationFields(o, SerializeAll(o.tlvs));
    RoundTripsExactlyWhenWellFormed(o.tlvs);
  }

  /** The fields an LSP object repeats from its TLVs. */
  predicate FieldsFromTlvs(o: Lsp) {
    LspFields(o.(name := [], src := Invalid, dst := Invalid, lspID := 0), o.tlvs) == o
  }

  lemma LspWord(p: nat, f: nat)
    requires f < 0x100
    ensures var w := p * 0x1000 + f; w / 0x1000 == p && w % 0x100 == f
  {
  }

  lemma LowByte(v: u32)
    ensures U32Bytes(v)[3] == v % 0x100
  {
  }

  lemma {:induction false} LspFlagsSum(o: Lsp)
    requires o.oFlag < 8
    ensures LspFlags(o) == 0x80 * Bit(o.cFlag) + o.oFlag * 16 + 8 * Bit(o.aFlag) + 4 * Bit(o.rFlag) + 2 * Bit(o.sFlag) + Bit(o.dFlag)
  {
  }

  lemma {:induction false} LspFlagsRead(o: Lsp)
    requires o.oFlag < 8
    ensures forall f | f == LspFlags(o) ::
              && (f / 0x80 == 1) == o.cFlag && f / 16 % 8 == o.oFlag && (f / 8 % 2 == 1) == o.aFlag
              && (f / 4 % 2 == 1) == o.rFlag && (f / 2 % 2 == 1) == o.sFlag && (f % 2 == 1) == o.dFlag
  {
    LspFlagsSum(o);
    FlagFields(Bit(o.cFlag), o.oFlag, Bit(o.aFlag), Bit(o.rFlag), Bit(o.sFlag), Bit(o.dFlag));
  }

  lemma FlagFields(c: nat, op: nat, a: nat, r: nat, s: nat, d: nat)
    requires c < 2 && op < 8 && a < 2 && r < 2 && s < 2 && d < 2
    ensures var f := 0x80 * c + op * 16 + 8 * a + 4 * r + 2 * s + d;
            f / 0x80 == c && f / 16 % 8 == op && f / 8 % 2 == a && f / 4 % 2 == r && f / 2 % 2 == s && f % 2 == d
  {
    var f := 0x80 * c + op * 16 + 8 * a + 4 * r + 2 * s + d;
    assert f / 16 == 8 * c + op;
    assert f / 8 == 2 * (8 * c + op) + a;
  }

  /** The first word of an LSP object, in front of any bytes. */
  lemma LspHead(o: Lsp, tail: bytes)
    ensures var b := U32Bytes(o.plspID % 0x10_0000 * 0x1000 + LspFlags(o)) + tail;
            ReadU32(b, 0) / 0x1000 == o.plspID % 0x10_0000 && b[3] == LspFlags(o)
  {
    var p, f := o.plspID % 0x10_0000, LspFlags(o);
    var w: u32 := p * 0x1000 + f;
    LspWord(p, f);
    LowByte(w);
    assert U32Bytes(w) + tail == [] + U32Bytes(w) + tail;
    U32RoundTrip([], w, tail);
  }

  lemma {:induction false} LspFieldsFromTail(o: Lsp, tail: bytes)
    requires o.oFlag < 8
    ensures var b := U32Bytes(o.plspID % 0x10_0000 * 0x1000 + LspFlags(o)) + tail;
            DecodeLsp(NO_LSP, o.typ, b) ==
            match DecodeTLVs(tail, Standard) case None => Rejected case Some(tlvs) => Done(LspFields(LspBare(o, tlvs), tlvs))
  {
    LspHead(o, tail);
    LspFlagsRead(o);
    TlvTail(U32Bytes(o.plspID % 0x10_0000 * 0x1000 + LspFlags(o)), tail, Standard);
  }

  /** The object without what its TLVs repeat, and with the PLSP-ID the wire carries. */
  function LspBare(o: Lsp, tlvs: seq<Tlv>): Lsp {
    o.(name := [], src := Invalid, dst := Invalid, lspID := 0, plspID := o.plspID % 0x10_0000, tlvs := tlvs)
  }

  lemma {:induction false} LspIsRead(o: Lsp, read: Option<seq<Tlv>>)
    ensures read.Some? && LspFields(LspBare(o, read.value), read.value) == o <==>
            o.plspID < 0x10_0000 && FieldsFromTlvs(o) && read == Some(o.tlvs)
  {
    if read.Some? {
      LspFieldsKeep(LspBare(o, read.value), read.value);
    }
    if o.plspID < 0x10_0000 {
      assert o.plspID % 0x10_0000 == o.plspID;
      assert LspBare(o, o.tlvs) == o.(name := [], src := Invalid, dst := Invalid, lspID := 0);
    }
  }

  /** The operational state is read from three bits. */
  lemma {:induction false} ReadStateHasThreeBits(typ: byte, body: bytes)
    ensures forall o | DecodeLsp(NO_LSP, typ, body) == Done(o) :: o.oFlag < 8
  {
    forall o | DecodeLsp(NO_LSP, typ, body) == Done(o)
      ensures o.oFlag < 8
    {
      var flags, tlvs := body[3], TlvsBehind([], body, 4, Standard).value;
      LspFieldsKeep(Lsp(typ, [], Invalid, Invalid, ReadU32(body, 0) / 0x1000, 0,
                        flags / 0x80 == 1, flags / 16 % 8, flags / 8 % 2 == 1, flags / 4 % 2 == 1,
                        flags / 2 % 2 == 1, flags % 2 == 1, tlvs), tlvs);
    }
  }

  lemma {:induction false} LspDecodes(o: Lsp)
    requires o.oFlag < 8
    ensures DecodeLsp(NO_LSP, o.typ, LspBody(o)) ==
            match DecodeTLVs(SerializeAll(o.tlvs), Standard) case None => Rejected case Some(tlvs) => Done(LspFields(LspBare(o, tlvs), tlvs))
  {
    LspFieldsFromTail(o, SerializeAll(o.tlvs));
  }

  /** What is decoded is the object exactly when nothing of it was lost. */
  lemma {:induction false} LspComesBack(o: Lsp, decoded: Outcome<Lsp>, read: Option<seq<Tlv>>)
    requires decoded == match read case None => Rejected case Some(tlvs) => Done(LspFields(LspBare(o, tlvs), tlvs))
    ensures decoded == Done(o) <==> o.plspID < 0x10_0000 && FieldsFromTlvs(o) && read == Some(o.tlvs)
  {
    LspIsRead(o, read);
  }

  lemma {:induction false} LspOfThreeBits(o: Lsp)
    requires o.oFlag < 8
    ensures DecodeLsp(NO_LSP, o.typ, LspBody(o)) == Done(o) <==> o.plspID < 0x10_0000 && FieldsFromTlvs(o) && AllWellFormed(o.tlvs)
  {
    LspDecodes(o);
    LspComesBack(o, DecodeLsp(NO_LSP, o.typ, LspBody(o)), DecodeTLVs(SerializeAll(o.tlvs), Standard));
    RoundTripsExactlyWhenWellFormed(o.tlvs);
  }

  lemma {:induction false} LspRoundTrip(o: Lsp)
    ensures DecodeLsp(NO_LSP, o.typ, LspBody(o)) == Done(o)
            <==> o.oFlag < 8 && o.plspID < 0x10_0000 && FieldsFromTlvs(o) && AllWellFormed(o.tlvs)
  {
    if o.oFlag < 8 {
      LspOfThreeBits(o);
    } else {
      ReadStateHasThreeBits(o.typ, LspBody(o));
    }
  }

  lemma {:induction false} LspFieldsKeep(o: Lsp, tlvs: seq<Tlv>)
    ensures var r := LspFields(o, tlvs); r.plspID == o.plspID && r.oFlag == o.oFlag && r.tlvs == o.tlvs
    decreases |tlvs|
  {
    if tlvs != [] {
      var next :=
        match tlvs[0]
        case SymbolicPathName(name) => o.(name := name)
        case IPv4LSPIdentifiers(ids, _) => o.(src := ids.sender, dst := ids.endpoint, lspID := ids.lspID)
        case IPv6LSPIdentifiers(ids, _) => o.(src := ids.sender, dst := ids.endpoint, lspID := ids.lspID)
        case _ => o;
      LspFieldsKeep(next, tlvs[1..]);
    }
  }
}
