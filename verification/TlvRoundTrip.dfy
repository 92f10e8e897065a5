/** Decoding inverts serialization for every well-formed list of TLVs, at any nesting depth. */
module TlvRoundTrip {
  import opened Bytes
  import opened Netip
  import opened Tlv
  import opened Wrappers
  import opened TlvFrames

  predicate OnlyWireFlags(f: StatefulFlags) {
    !f.p2mp && !f.p2mpUpdate && !f.p2mpInstantiation && !f.lspScheduling && !f.pdLSP
    && !f.pathRecomputation && !f.strictPath && !f.relax
  }

  /** IPv4, or an IPv6 address that the decoder cannot take for one. */
  predicate IsOriginator(a: Addr) {
    a.V4? || (a.V6? && !AllZero(a.b16[..12]))
  }

  predicate WellFormed(t: Tlv)
    decreases t
  {
    match t
    case VendorInformation(_, info) => FitsPadded(4 + |info|)
    case StatefulPCECapability(f) => OnlyWireFlags(f)
    case SymbolicPathName(name) => Utf8Valid(name) && Fits(|name|)
    case IPv4LSPIdentifiers(ids, _) => ids.sender.V4? && ids.endpoint.V4?
    case IPv6LSPIdentifiers(ids, _) => ids.sender.V6? && ids.endpoint.V6?
    case ExtendedAssociationID(_, e) => e.IsValid()
    case ExtendedAssociationIDJuniper(_, e) => e.V4?
    case PathSetupTypeCapability(psts, subs) =>
      && |psts| <= 255 && Fits(4 + PaddedLength(|psts|) + |SerializeAll(subs)|)
      && forall s | s in subs :: WellFormed(s)
    case AssocTypeList(ts) => FitsPadded(2 * |ts|)
    case CPathIdentifier(c) => IsOriginator(c.originatorAddr)
    case CPathIdentifierJuniper(c) => IsOriginator(c.originatorAddr)
    case UnknownTLV(typ, length, value) => typ !in KNOWN_TYPES && length == |value| && Fits(length)
    case _ => true
  }

  predicate AllWellFormed(ts: seq<Tlv>) {
    forall t | t in ts :: WellFormed(t)
  }

  lemma {:induction false} LeafIsFramable(t: Tlv)
    requires WellFormed(t) && IsLeaf(t)
    ensures Framable(t) && IsEmitted(t)
  {
    if t.VendorInformation? {
      VendorFits(t.info);
    } else if t.AssocTypeList? {
      EvenSize(|t.assocTypes|);
    }
  }

  lemma {:induction false} WellFormedIsFramable(ts: seq<Tlv>)
    requires AllWellFormed(ts)
    ensures AllFramable(ts) && forall t | t in ts :: IsEmitted(t)
    decreases ts
  {
    forall t | t in ts
      ensures Framable(t) && IsEmitted(t)
    {
      if t.PathSetupTypeCapability? {
        WellFormedIsFramable(t.subTLVs);
        assert SentPsts(t.psts) == t.psts;
      } else {
        LeafIsFramable(t);
      }
    }
  }

  // ----- framing

  lemma FrameParts(typ: u16, v: bytes, rest: bytes)
    requires |v| < 0x1_0000
    ensures var data := Frame(typ, v) + rest;
            var total := 4 + |v|;
            var paddedLen := PaddedLength(total);
            && |data| >= paddedLen && ReadU16(data, 2) == |v|
            && data[..total] == Header(typ, v) + v && AllZero(data[total..paddedLen]) && data[paddedLen..] == rest
  {
    var data := Frame(typ, v) + rest;
    var h := Header(typ, v);
    assert data[2] == h[2] && data[3] == h[3];
    var paddedLen := PaddedLength(4 + |v|);
    assert paddedLen == 4 + |v| + Padding(|v|);
    assert data[4 + |v|..paddedLen] == Zeros(Padding(|v|));
  }

  /** Decoding a frame that is followed by more: the frame, then the rest. */
  lemma DecodeFrame(typ: u16, v: bytes, rest: bytes, space: Space)
    requires |v| < 0x1_0000
    ensures DecodeTLVs(Frame(typ, v) + rest, space) ==
            match DecodeTLV(Header(typ, v) + v, space)
            case None => None
            case Some(t) =>
              match DecodeTLVs(rest, space)
              case None => None
              case Some(ts) => Some([t] + ts)
  {
    FrameParts(typ, v, rest);
  }

  lemma ExactLength(typ: u16, v: bytes, allowPadding: bool)
    requires |v| < 0x1_0000
    ensures var data := Header(typ, v) + v;
            && DecodeTLVLength(data, allowPadding) == Some(|v|)
            && ReadU16(data, 0) == typ && data[4..4 + |v|] == v
  {
    var data, h := Header(typ, v) + v, Header(typ, v);
    assert data[0] == h[0] && data[1] == h[1] && data[2] == h[2] && data[3] == h[3];
  }

  /** A whole TLV is decoded by its value field. */
  lemma {:induction false} DecodeExact(typ: u16, v: bytes)
    requires |v| < 0x1_0000
    ensures DecodeTLV(Header(typ, v) + v, Standard) ==
            if typ == PATH_SETUP_TYPE_CAPABILITY then DecodePathSetupTypeCapability(v) else DecodeLeaf(typ, v)
  {
    ExactLength(typ, v, AllowsPadding(typ));
  }

  lemma {:induction false} DecodeExactVendor(typ: u16, v: bytes)
    requires |v| < 0x1_0000
    ensures DecodeTLV(Header(typ, v) + v, Vendor) == Some(UnknownTLV(typ, |v|, v))
  {
    ExactLength(typ, v, true);
  }

  // ----- the value field of each leaf

  lemma SetHigherBit(value: nat, mask: nat, c: bool)
    requires value < mask
    ensures SetBit(value, mask, c) == value + (if c then mask else 0) < 2 * mask
  {
    assert value / mask == 0;
  }

  /** The low six flags as a number. */
  function LowFlags(f: StatefulFlags): nat {
    Bit(f.lspUpdate) + 2 * Bit(f.includeDBVersion) + 4 * Bit(f.lspInstantiation) + 8 * Bit(f.triggeredResync)
    + 0x10 * Bit(f.deltaLSPSync) + 0x20 * Bit(f.triggeredInitialSync)
  }

  lemma SixBitsSum(c0: bool, c1: bool, c2: bool, c3: bool, c4: bool, c5: bool)
    ensures SetBit(SetBit(SetBit(SetBit(SetBit(SetBit(0, 1, c0), 2, c1), 4, c2), 8, c3), 0x10, c4), 0x20, c5)
            == Bit(c0) + 2 * Bit(c1) + 4 * Bit(c2) + 8 * Bit(c3) + 0x10 * Bit(c4) + 0x20 * Bit(c5)
  {
    var b0 := SetBit(0, 1, c0); SetHigherBit(0, 1, c0);
    var b1 := SetBit(b0, 2, c1); SetHigherBit(b0, 2, c1);
    var b2 := SetBit(b1, 4, c2); SetHigherBit(b1, 4, c2);
    var b3 := SetBit(b2, 8, c3); SetHigherBit(b2, 8, c3);
    var b4 := SetBit(b3, 0x10, c4); SetHigherBit(b3, 0x10, c4);
    SetHigherBit(b4, 0x20, c5);
  }

  lemma StatefulBitsSum(f: StatefulFlags)
    ensures StatefulBits(f) == LowFlags(f) + 0x800 * Bit(f.color)
  {
    SixBitsSum(f.lspUpdate, f.includeDBVersion, f.lspInstantiation, f.triggeredResync, f.deltaLSPSync, f.triggeredInitialSync);
    SetHigherBit(LowFlags(f), 0x800, f.color);
  }

  lemma LowestBit(x: nat, bit: nat, high: nat)
    requires bit <= 1 && x == bit + 2 * high
    ensures x % 2 == bit && x / 2 == high
  {
  }

  lemma HalveTwice(x: nat)
    ensures x / 2 / 2 == x / 4 && x / 4 / 2 == x / 8 && x / 8 / 2 == x / 0x10
    ensures x / 0x10 / 2 == x / 0x20 && x / 0x20 / 2 == x / 0x40
  {
  }

  /** The bits of a sum of distinct powers of two. */
  lemma {:induction false} SixBits(x0: nat, x1: nat, x2: nat, x3: nat, x4: nat, x5: nat, high: nat, x: nat)
    requires x0 <= 1 && x1 <= 1 && x2 <= 1 && x3 <= 1 && x4 <= 1 && x5 <= 1
    requires x == x0 + 2 * x1 + 4 * x2 + 8 * x3 + 0x10 * x4 + 0x20 * x5 + 0x40 * high
    ensures x % 2 == x0 && x / 2 % 2 == x1 && x / 4 % 2 == x2 && x / 8 % 2 == x3
    ensures x / 0x10 % 2 == x4 && x / 0x20 % 2 == x5 && x / 0x40 == high
  {
    var h5 := x5 + 2 * high;
    var h4 := x4 + 2 * h5;
    var h3 := x3 + 2 * h4;
    var h2 := x2 + 2 * h3;
    var h1 := x1 + 2 * h2;
    LowestBit(x, x0, h1);
    LowestBit(h1, x1, h2);
    LowestBit(h2, x2, h3);
    LowestBit(h3, x3, h4);
    LowestBit(h4, x4, h5);
    LowestBit(h5, x5, high);
    HalveTwice(x);
  }

  lemma {:induction false} StatefulFlagBits(f: StatefulFlags)
    ensures var x := StatefulBits(f);
            && x < 0x1000
            && x % 2 == Bit(f.lspUpdate) && x / 2 % 2 == Bit(f.includeDBVersion)
            && x / 4 % 2 == Bit(f.lspInstantiation) && x / 8 % 2 == Bit(f.triggeredResync)
            && x / 0x10 % 2 == Bit(f.deltaLSPSync) && x / 0x20 % 2 == Bit(f.triggeredInitialSync)
            && x / 0x800 % 2 == Bit(f.color)
  {
    StatefulBitsSum(f);
    var x, c := StatefulBits(f), Bit(f.color);
    SixBits(Bit(f.lspUpdate), Bit(f.includeDBVersion), Bit(f.lspInstantiation), Bit(f.triggeredResync),
            Bit(f.deltaLSPSync), Bit(f.triggeredInitialSync), 0x20 * c, x);
    assert x / 0x800 == c;
  }

  lemma {:induction false} StatefulFlagsRoundTrip(f: StatefulFlags)
    requires OnlyWireFlags(f)
    ensures ExtractCapabilities(StatefulBits(f)) == f
  {
    StatefulFlagBits(f);
  }

  lemma MultipathFlagsRoundTrip(f: MultipathFlags)
    ensures var b := MultipathBits(f);
            b < 0x1_0000 && MultipathFlags(IsBitSet(b, 1), IsBitSet(b, 4), IsBitSet(b, 8), IsBitSet(b, 0x10)) == f
  {
    var b0 := SetBit(0, 1, f.weighted); SetHigherBit(0, 1, f.weighted);
    var b1 := SetBit(b0, 4, f.oppositeDir); SetHigherBit(b0, 4, f.oppositeDir);
    var b2 := SetBit(b1, 8, f.forwardClass); SetHigherBit(b1, 8, f.forwardClass);
    SetHigherBit(b2, 0x10, f.compositePath);
  }

  lemma {:induction false} AssocTypesRoundTrip(ts: seq<u16>)
    ensures ReadAssocTypes(AssocTypesValue(ts)) == ts
  {
    if ts != [] {
      var init, last := ts[..|ts| - 1], ts[|ts| - 1];
      var v := AssocTypesValue(ts);
      AssocTypesRoundTrip(init);
      assert v[..|v| - 2] == AssocTypesValue(init);
      U16RoundTrip(AssocTypesValue(init), last, []);
      assert v == AssocTypesValue(init) + U16Bytes(last) + [];
      assert ts == init + [last];
    }
  }

  /** Reading an integer that sits between other bytes. */
  lemma ReadU16In(v: bytes, pre: bytes, x: u16, post: bytes)
    requires v == pre + U16Bytes(x) + post
    ensures ReadU16(v, |pre|) == x
  {
    U16RoundTrip(pre, x, post);
  }

  lemma ReadU32In(v: bytes, pre: bytes, x: u32, post: bytes)
    requires v == pre + U32Bytes(x) + post
    ensures ReadU32(v, |pre|) == x
  {
    U32RoundTrip(pre, x, post);
  }

  lemma IPv4LspIdsRoundTrip(ids: LspIds, ext: u32)
    requires ids.sender.V4? && ids.endpoint.V4?
    ensures DecodeLeaf(IPV4_LSP_IDENTIFIERS, ValueOf(IPv4LSPIdentifiers(ids, ext))) == Some(IPv4LSPIdentifiers(ids, ext))
  {
    var s, e := ids.sender.b4, ids.endpoint.b4;
    var v := ValueOf(IPv4LSPIdentifiers(ids, ext));
    var a, b, c := U16Bytes(ids.lspID), U16Bytes(ids.tunnelID), U32Bytes(ext);
    assert v == s + a + b + c + e;
    ReadU16In(v, s, ids.lspID, b + c + e);
    ReadU16In(v, s + a, ids.tunnelID, c + e);
    ReadU32In(v, s + a + b, ext, e);
    assert v[..4] == s && v[12..16] == e;
  }

  lemma IPv6LspIdsRoundTrip(ids: LspIds, ext: Bytes16)
    requires ids.sender.V6? && ids.endpoint.V6?
    ensures DecodeLeaf(IPV6_LSP_IDENTIFIERS, ValueOf(IPv6LSPIdentifiers(ids, ext))) == Some(IPv6LSPIdentifiers(ids, ext))
  {
    var s, e := ids.sender.b16, ids.endpoint.b16;
    var v := ValueOf(IPv6LSPIdentifiers(ids, ext));
    var a, b := U16Bytes(ids.lspID), U16Bytes(ids.tunnelID);
    assert v == s + a + b + ext + e;
    ReadU16In(v, s, ids.lspID, b + ext + e);
    ReadU16In(v, s + a, ids.tunnelID, ext + e);
    assert v[..16] == s && v[36..52] == e && v[20..36] == ext;
  }

  lemma {:induction false} CPathRoundTrip(c: CPath)
    requires IsOriginator(c.originatorAddr)
    ensures ReadCPath(CPathValue(c)) == c
  {
    var v, o := CPathValue(c), OriginatorBytes(c.originatorAddr);
    var head: bytes := [c.protocolOrigin, 0, 0, 0];
    assert v == head + U32Bytes(c.originatorASN) + (o + U32Bytes(c.discriminator));
    ReadU32In(v, head, c.originatorASN, o + U32Bytes(c.discriminator));
    assert v == head + U32Bytes(c.originatorASN) + o + U32Bytes(c.discriminator) + [];
    ReadU32In(v, head + U32Bytes(c.originatorASN) + o, c.discriminator, []);
    assert v[8..24] == o;
    if c.originatorAddr.V4? {
      assert o[..12] == Zeros(12) && o[12..] == c.originatorAddr.b4;
    }
  }

  lemma AssociationRoundTrip(c: u32, e: Addr)
    requires e.IsValid()
    ensures ReadAssociation(U32Bytes(c) + e.AsSlice()) == Some((c, e))
  {
    var v := U32Bytes(c) + e.AsSlice();
    assert v == [] + U32Bytes(c) + e.AsSlice();
    ReadU32In(v, [], c, e.AsSlice());
    assert v[4..] == e.AsSlice();
  }

  lemma WholeU32(x: u32)
    ensures ReadU32(U32Bytes(x), 0) == x
  {
    assert U32Bytes(x) == [] + U32Bytes(x) + [];
    U32RoundTrip([], x, []);
  }

  lemma MultipathRoundTrip(max: u16, f: MultipathFlags)
    ensures DecodeLeaf(MULTIPATH_CAP, ValueOf(MultipathCapability(max, f))) == Some(MultipathCapability(max, f))
  {
    var v, flags := ValueOf(MultipathCapability(max, f)), ToU16(MultipathBits(f));
    MultipathFlagsRoundTrip(f);
    ReadU16In(v, [], max, U16Bytes(flags));
    ReadU16In(v, U16Bytes(max), flags, []);
  }

  lemma {:induction false} SmallLeafRoundTrip(t: Tlv)
    requires t.SRPCECapability? || t.SRv6PCECapability? || t.PathSetupType? || t.LSPDBVersion?
    ensures DecodeLeaf(TypeOf(t), ValueOf(t)) == Some(t)
  {
    match t
    case LSPDBVersion(v) =>
      assert U64Bytes(v) == [] + U64Bytes(v) + [];
      U64RoundTrip([], v, []);
    case SRPCECapability(unlimited, nai, depth) =>
      SetHigherBit(0, 1, unlimited);
      SetHigherBit(SetBit(0, 1, unlimited), 2, nai);
    case SRv6PCECapability(nai) =>
      ReadU16In(ValueOf(t), [0, 0], if nai then 2 else 0, []);
    case PathSetupType(_) =>
  }

  lemma VendorInformationRoundTrip(en: u32, info: bytes)
    requires FitsPadded(4 + |info|)
    ensures DecodeLeaf(VENDOR_INFORMATION, ValueOf(VendorInformation(en, info))) == Some(VendorInformation(en, info))
  {
    var v := ValueOf(VendorInformation(en, info));
    ReadU32In(v, [], en, info);
    assert v[4..] == info;
  }

  lemma StatefulFromWord(x: u32)
    ensures DecodeLeaf(STATEFUL_PCE_CAPABILITY, U32Bytes(x)) == Some(StatefulPCECapability(ExtractCapabilities(x)))
  {
    WholeU32(x);
  }

  lemma SmallWord(n: nat)
    requires n < 0x1000
    ensures ToU32(n) == n
  {
  }

  lemma StatefulWordIsBits(f: StatefulFlags)
    ensures StatefulWord(f) == StatefulBits(f)
  {
    StatefulFlagBits(f);
    SmallWord(StatefulBits(f));
  }

  lemma {:induction false} StatefulWordRoundTrip(f: StatefulFlags)
    requires OnlyWireFlags(f)
    ensures ExtractCapabilities(StatefulWord(f)) == f
  {
    StatefulWordIsBits(f);
    StatefulFlagsRoundTrip(f);
  }

  lemma {:induction false} StatefulRoundTrip(f: StatefulFlags)
    requires OnlyWireFlags(f)
    ensures DecodeLeaf(STATEFUL_PCE_CAPABILITY, ValueOf(StatefulPCECapability(f))) == Some(StatefulPCECapability(f))
  {
    StatefulWordRoundTrip(f);
    StatefulFromWord(StatefulWord(f));
  }

  lemma ExtendedAssociationRoundTrip(c: u32, e: Addr)
    requires e.IsValid()
    ensures DecodeLeaf(EXTENDED_ASSOCIATION_ID, ValueOf(ExtendedAssociationID(c, e))) == Some(ExtendedAssociationID(c, e))
  {
    AssociationRoundTrip(c, e);
  }

  lemma JuniperAssociationRoundTrip(c: u32, e: Addr)
    requires e.V4?
    ensures DecodeLeaf(EXTENDED_ASSOCIATION_ID_JUNIPER, ValueOf(ExtendedAssociationIDJuniper(c, e)))
            == Some(ExtendedAssociationIDJuniper(c, e))
  {
    AssociationRoundTrip(c, e);
  }

  lemma AssocTypeListRoundTrip(ts: seq<u16>)
    requires Fits(2 * |ts|)
    ensures DecodeLeaf(ASSOC_TYPE_LIST, ValueOf(AssocTypeList(ts))) == Some(AssocTypeList(ts))
  {
    AssocTypesRoundTrip(ts);
  }

  lemma {:induction false} CPathLeafRoundTrip(t: Tlv)
    requires WellFormed(t)
    requires t.CPathIdentifier? || t.CPathIdentifierJuniper? || t.CPathPreference? || t.CPathPreferenceJuniper? || t.Color?
    ensures DecodeLeaf(TypeOf(t), ValueOf(t)) == Some(t)
  {
    match t
    case CPathIdentifier(c) => CPathRoundTrip(c);
    case CPathIdentifierJuniper(c) => CPathRoundTrip(c);
    case CPathPreference(p) => WholeU32(p);
    case CPathPreferenceJuniper(p) => WholeU32(p);
    case Color(c) => WholeU32(c);
  }

  lemma {:induction false} LeafRoundTrip(t: Tlv)
    requires WellFormed(t) && IsLeaf(t) && |ValueOf(t)| < 0x1_0000
    ensures DecodeLeaf(TypeOf(t), ValueOf(t)) == Some(t)
  {
    match t
    case MultipathCapability(max, f) => MultipathRoundTrip(max, f);
    case IPv4LSPIdentifiers(ids, ext) => IPv4LspIdsRoundTrip(ids, ext);
    case IPv6LSPIdentifiers(ids, ext) => IPv6LspIdsRoundTrip(ids, ext);
    case VendorInformation(en, info) => VendorInformationRoundTrip(en, info);
    case StatefulPCECapability(f) => StatefulRoundTrip(f);
    case SymbolicPathName(_) =>
    case UnknownTLV(_, _, _) =>
    case ExtendedAssociationID(c, e) => ExtendedAssociationRoundTrip(c, e);
    case ExtendedAssociationIDJuniper(c, e) => JuniperAssociationRoundTrip(c, e);
    case AssocTypeList(ts) => AssocTypeListRoundTrip(ts);
    case CPathIdentifier(_) => CPathLeafRoundTrip(t);
    case CPathIdentifierJuniper(_) => CPathLeafRoundTrip(t);
    case CPathPreference(_) => CPathLeafRoundTrip(t);
    case CPathPreferenceJuniper(_) => CPathLeafRoundTrip(t);
    case Color(_) => CPathLeafRoundTrip(t);
    case _ => SmallLeafRoundTrip(t);
  }

  lemma SerializeIsFrame(t: Tlv)
    requires WellFormed(t)
    ensures |ValueOf(t)| < 0x1_0000 && Serialize(t) == Frame(TypeOf(t), ValueOf(t))
  {
    WellFormedIsFramable([t]);
    SizeOf(t);
    SizeOfFrame(t, |ValueOf(t)|);
  }

  // ----- decoding what was serialized

  lemma SplitPathSetupTypes(psts: bytes, rest: bytes)
    requires |psts| <= 255
    ensures var v: bytes := [0, 0, 0, |psts|] + psts + Zeros(Padding(|psts|)) + rest;
            var off := 4 + PaddedLength(|psts|);
            && v[3] == |psts| && off <= |v| && v[4..4 + |psts|] == psts && v[off..] == rest
  {
  }

  lemma {:induction false} NestedRoundTrip(t: Tlv)
    requires WellFormed(t) && t.PathSetupTypeCapability?
    ensures DecodePathSetupTypeCapability(ValueOf(t)) == Some(t)
    decreases t, 0
  {
    SerializedDecodes(t.subTLVs);
    SplitPathSetupTypes(t.psts, SerializeAll(t.subTLVs));
  }

  lemma LeafType(t: Tlv)
    requires WellFormed(t)
    ensures IsLeaf(t) <==> TypeOf(t) != PATH_SETUP_TYPE_CAPABILITY
  {
  }

  lemma {:induction false} ValueDecodes(t: Tlv)
    requires WellFormed(t) && |ValueOf(t)| < 0x1_0000
    ensures DecodeTLV(Header(TypeOf(t), ValueOf(t)) + ValueOf(t), Standard) == Some(t)
    decreases t, 1
  {
    if t.PathSetupTypeCapability? { NestedRoundTrip(t); } else { LeafRoundTrip(t); LeafType(t); }
    DecodeExact(TypeOf(t), ValueOf(t));
  }

  /** One well-formed TLV in front of others. */
  lemma {:induction false} FrontDecodes(ts: seq<Tlv>, rest: bytes)
    requires ts != [] && AllWellFormed(ts)
    ensures forall us | DecodeTLVs(rest, Standard) == Some(us) ::
              DecodeTLVs(Serialize(ts[0]) + rest, Standard) == Some([ts[0]] + us)
    decreases ts, 0
  {
    var t := ts[0];
    SerializeIsFrame(t);
    ValueDecodes(t);
    DecodeFrame(TypeOf(t), ValueOf(t), rest, Standard);
  }

  lemma {:induction false} SerializedDecodes(ts: seq<Tlv>)
    requires AllWellFormed(ts)
    ensures DecodeTLVs(SerializeAll(ts), Standard) == Some(ts)
    decreases ts, 1
  {
    if ts != [] {
      SerializedDecodes(ts[1..]);
      FrontDecodes(ts, SerializeAll(ts[1..]));
      assert ts == [ts[0]] + ts[1..];
    }
  }

  // ----- what decoding can yield

  /** A TLV that can be read but not written: its padded value is one byte too long to measure. */
  predicate AtTheLimit(t: Tlv) {
    match t
    case VendorInformation(_, info) => Fits(4 + |info|) && !FitsPadded(4 + |info|)
    case AssocTypeList(ts) => Fits(2 * |ts|) && !FitsPadded(2 * |ts|)
    case _ => false
  }

  predicate Readable(t: Tlv) {
    WellFormed(t) || AtTheLimit(t)
  }

  predicate AllReadable(ts: seq<Tlv>) {
    forall t | t in ts :: Readable(t)
  }

  lemma {:induction false} AtTheLimitIsNotWritten(t: Tlv)
    requires AtTheLimit(t)
    ensures !IsEmitted(t) && Serialize(t) == []
  {
    if t.VendorInformation? {
      assert ToU16(|t.info|) == |t.info| && VendorValueLength(t.info) == 4 + |t.info|;
      assert VendorBufferLength(t.info) == 0;
    } else {
      assert AssocBufferLength(t.assocTypes) == 0;
    }
  }

  lemma {:induction false} DecodedLeaf(typ: u16, v: bytes)
    requires |v| < 0x1_0000 && typ != PATH_SETUP_TYPE_CAPABILITY
    ensures forall t | DecodeLeaf(typ, v) == Some(t) ::
              && Readable(t) && (FitsPadded(|v|) ==> WellFormed(t))
              && (WellFormed(t) ==> |ValueOf(t)| <= |v|)
  {
  }

  lemma {:induction false} DecodedNested(v: bytes)
    requires |v| < 0x1_0000
    ensures forall t | DecodePathSetupTypeCapability(v) == Some(t) :: WellFormed(t) && |ValueOf(t)| <= |v|
    decreases |v|, 0
  {
    if DecodePathSetupTypeCapability(v).Some? {
      DecodedList(v[4 + PaddedLength(v[3])..]);
    }
  }

  lemma HeaderIsRead(data: bytes)
    requires |data| >= 4
    ensures data[..4] == U16Bytes(ReadU16(data, 0)) + U16Bytes(ReadU16(data, 2))
  {
    U16Unique(data, 0);
    U16Unique(data, 2);
    assert data[..4] == data[..2] + data[2..4];
  }

  lemma DataIsFrame(data: bytes, total: nat, paddedLen: nat)
    requires 4 <= total <= paddedLen <= |data| && total == 4 + ReadU16(data, 2)
    requires paddedLen == PaddedLength(total) && AllZero(data[total..paddedLen])
    ensures data == Frame(ReadU16(data, 0), data[4..total]) + data[paddedLen..]
  {
    HeaderIsRead(data);
    AllZeroIsZeros(data[total..paddedLen]);
    assert Padding(total - 4) == paddedLen - total;
    assert data == data[..4] + data[4..total] + data[total..paddedLen] + data[paddedLen..];
  }

  /** How an accepted byte string divides. */
  lemma AcceptedSplit(data: bytes, space: Space) returns (typ: u16, v: bytes, rest: bytes)
    requires data != [] && DecodeTLVs(data, space).Some?
    ensures |v| < 0x1_0000 && data == Frame(typ, v) + rest
  {
    typ := ReadU16(data, 0);
    var total: nat := 4 + ReadU16(data, 2) as int;
    var paddedLen := PaddedLength(total);
    v, rest := data[4..total], data[paddedLen..];
    DataIsFrame(data, total, paddedLen);
  }

  lemma {:induction false} WellFormedFront(t: Tlv, typ: u16, v: bytes)
    requires |v| < 0x1_0000 && WellFormed(t) && |ValueOf(t)| <= |v|
    ensures |Serialize(t)| <= |Frame(typ, v)|
  {
    WellFormedIsFramable([t]);
    SizeOf(t);
    SizeOfFrame(t, |ValueOf(t)|);
    PaddedMonotone(|ValueOf(t)|, |v|);
  }

  lemma {:induction false} DecodedFront(typ: u16, v: bytes)
    requires |v| < 0x1_0000
    ensures forall t | DecodeTLV(Header(typ, v) + v, Standard) == Some(t) ::
              AllReadable([t]) && |Serialize(t)| <= |Frame(typ, v)| && (|Frame(typ, v)| < 0x1_0000 ==> AllWellFormed([t]))
    decreases |v|, 1
  {
    DecodeExact(typ, v);
    if DecodeTLV(Header(typ, v) + v, Standard).Some? {
      if typ == PATH_SETUP_TYPE_CAPABILITY { DecodedNested(v); } else { DecodedLeaf(typ, v); }
      var t := DecodeTLV(Header(typ, v) + v, Standard).value;
      if WellFormed(t) { WellFormedFront(t, typ, v); } else { AtTheLimitIsNotWritten(t); }
    }
  }

  /** Whatever is accepted is well-formed, up to TLVs at the limit, for which the bytes must be more
      than a message has, and no longer when written again. */
  lemma {:induction false} DecodedList(data: bytes)
    ensures forall ts | DecodeTLVs(data, Standard) == Some(ts) ::
              AllReadable(ts) && |SerializeAll(ts)| <= |data| && (|data| < 0x1_0000 ==> AllWellFormed(ts))
    decreases |data|, 0
  {
    if data != [] && DecodeTLVs(data, Standard).Some? {
      var typ, v, rest := AcceptedSplit(data, Standard);
      DecodeFrame(typ, v, rest, Standard);
      DecodedFront(typ, v);
      DecodedList(rest);
      var ts := DecodeTLVs(data, Standard).value;
      assert ts == [ts[0]] + DecodeTLVs(rest, Standard).value;
    }
  }

  /** The TLVs that are written at all. */
  function Written(ts: seq<Tlv>): seq<Tlv> {
    if ts == [] then [] else (if IsEmitted(ts[0]) then [ts[0]] else []) + Written(ts[1..])
  }

  lemma {:induction false} WrittenAreWritten(ts: seq<Tlv>)
    ensures forall t | t in Written(ts) :: t in ts && IsEmitted(t)
    ensures |Written(ts)| <= |ts| && (|Written(ts)| == |ts| ==> Written(ts) == ts)
  {
    if ts != [] {
      WrittenAreWritten(ts[1..]);
    }
  }

  lemma {:induction false} ReadableAndWrittenIsWellFormed(ts: seq<Tlv>)
    requires AllReadable(ts)
    ensures AllWellFormed(Written(ts))
  {
    WrittenAreWritten(ts);
    forall t | t in Written(ts)
      ensures WellFormed(t)
    {
      if AtTheLimit(t) { AtTheLimitIsNotWritten(t); }
    }
  }

  lemma {:induction false} SerializeWritten(ts: seq<Tlv>)
    ensures SerializeAll(Written(ts)) == SerializeAll(ts)
  {
    if ts != [] {
      SerializeWritten(ts[1..]);
      SerializeFirst(ts);
    }
  }

  lemma {:induction false} SerializeFirst(ts: seq<Tlv>)
    requires ts != [] && SerializeAll(Written(ts[1..])) == SerializeAll(ts[1..])
    ensures SerializeAll(Written(ts)) == SerializeAll(ts)
  {
    if IsEmitted(ts[0]) {
      assert Written(ts)[0] == ts[0] && Written(ts)[1..] == Written(ts[1..]);
    } else {
      assert Written(ts) == Written(ts[1..]);
      assert SerializeAll(ts) == [] + SerializeAll(ts[1..]);
    }
  }

  /** The main result: a list of TLVs survives the wire exactly when each of them is well-formed. */
  lemma {:induction false} RoundTripsExactlyWhenWellFormed(ts: seq<Tlv>)
    ensures DecodeTLVs(SerializeAll(ts), Standard) == Some(ts) <==> AllWellFormed(ts)
  {
    if AllWellFormed(ts) {
      SerializedDecodes(ts);
    } else if DecodeTLVs(SerializeAll(ts), Standard) == Some(ts) {
      DecodedList(SerializeAll(ts));
      ReadableAndWrittenIsWellFormed(ts);
      WrittenAreWritten(ts);
      SerializeWritten(ts);
      SerializedDecodes(Written(ts));
      assert false;
    }
  }

  /** What was accepted, written again and read again, is the same, exactly when it holds no TLV at
      the limit; no message is long enough for one. */
  lemma {:induction false} AcceptedIsStable(data: bytes)
    requires DecodeTLVs(data, Standard).Some?
    ensures var ts := DecodeTLVs(data, Standard).value;
            && (DecodeTLVs(SerializeAll(ts), Standard) == Some(ts) <==> AllWellFormed(ts))
            && (|data| < 0x1_0000 ==> AllWellFormed(ts))
  {
    DecodedList(data);
    RoundTripsExactlyWhenWellFormed(DecodeTLVs(data, Standard).value);
  }

  // ----- a vendor's own type space

  predicate AllOpaque(ts: seq<Tlv>) {
    forall t | t in ts :: t.UnknownTLV? && t.length == |t.value|
  }

  lemma OpaqueIsFrame(t: Tlv)
    requires t.UnknownTLV? && t.length == |t.value|
    ensures Serialize(t) == Frame(t.typ, t.value)
  {
  }

  lemma {:induction false} OpaqueSerializedDecodes(ts: seq<Tlv>)
    requires AllOpaque(ts)
    ensures DecodeTLVs(SerializeAll(ts), Vendor) == Some(ts)
  {
    if ts == [] {
      assert SerializeAll(ts) == [];
    } else {
      var t := ts[0];
      OpaqueIsFrame(t);
      var rest := SerializeAll(ts[1..]);
      assert SerializeAll(ts) == Frame(t.typ, t.value) + rest;
      OpaqueSerializedDecodes(ts[1..]);
      DecodeFrame(t.typ, t.value, rest, Vendor);
      DecodeExactVendor(t.typ, t.value);
      assert ts == [t] + ts[1..];
    }
  }

  /** An accepted byte string is the serialization of what it decodes to, byte for byte. */
  lemma {:induction false} VendorAcceptedIsSerialized(data: bytes)
    ensures forall ts | DecodeTLVs(data, Vendor) == Some(ts) :: AllOpaque(ts) && SerializeAll(ts) == data
    decreases |data|
  {
    if data != [] && DecodeTLVs(data, Vendor).Some? {
      var typ, v, rest := AcceptedSplit(data, Vendor);
      DecodeFrame(typ, v, rest, Vendor);
      DecodeExactVendor(typ, v);
      OpaqueIsFrame(UnknownTLV(typ, |v|, v));
      VendorAcceptedIsSerialized(rest);
    }
  }

  /** `DecodeVendorTLVs` and the serializer are mutually inverse. */
  lemma {:induction false} VendorRoundTrip(ts: seq<Tlv>, data: bytes)
    ensures DecodeTLVs(SerializeAll(ts), Vendor) == Some(ts) <==> AllOpaque(ts)
    ensures DecodeTLVs(data, Vendor) == Some(ts) ==> SerializeAll(ts) == data
  {
    VendorAcceptedIsSerialized(SerializeAll(ts));
    VendorAcceptedIsSerialized(data);
    if AllOpaque(ts) {
      OpaqueSerializedDecodes(ts);
    }
  }
}
