/** PCEP TLVs (section 7.1 of RFC 5440): what each one serializes to and what its decoder accepts
    (pkg/packet/pcep/tlv.go, tlv_common.go). A TLV object is filled once, when it is built or
    decoded, so it is a value here. A decoder's error is `None`. */
module Tlv {
  import opened Bytes
  import opened Netip
  import opened Wrappers

  const VENDOR_INFORMATION: u16 := 0x07
  const STATEFUL_PCE_CAPABILITY: u16 := 0x10
  const SYMBOLIC_PATH_NAME: u16 := 0x11
  const IPV4_LSP_IDENTIFIERS: u16 := 0x12
  const IPV6_LSP_IDENTIFIERS: u16 := 0x13
  const LSP_DB_VERSION: u16 := 0x17
  const SR_PCE_CAPABILITY: u16 := 0x1a
  const SRV6_PCE_CAPABILITY: u16 := 0x1b
  const PATH_SETUP_TYPE: u16 := 0x1c
  const EXTENDED_ASSOCIATION_ID: u16 := 0x1f
  const PATH_SETUP_TYPE_CAPABILITY: u16 := 0x22
  const ASSOC_TYPE_LIST: u16 := 0x23
  const SRPOLICY_CPATH_ID: u16 := 0x39
  const SRPOLICY_CPATH_PREFERENCE: u16 := 0x3b
  const MULTIPATH_CAP: u16 := 0x3c
  const COLOR: u16 := 0x43
  const EXTENDED_ASSOCIATION_ID_JUNIPER: u16 := 0xffe3
  const SRPOLICY_CPATH_ID_JUNIPER: u16 := 0xffe4
  const SRPOLICY_CPATH_PREFERENCE_JUNIPER: u16 := 0xffe5

  /** The keys of `tlvMap`. */
  const KNOWN_TYPES: set<u16> := {
    VENDOR_INFORMATION, STATEFUL_PCE_CAPABILITY, SYMBOLIC_PATH_NAME, IPV4_LSP_IDENTIFIERS,
    IPV6_LSP_IDENTIFIERS, LSP_DB_VERSION, SR_PCE_CAPABILITY, SRV6_PCE_CAPABILITY, PATH_SETUP_TYPE,
    EXTENDED_ASSOCIATION_ID, PATH_SETUP_TYPE_CAPABILITY, ASSOC_TYPE_LIST, SRPOLICY_CPATH_ID,
    SRPOLICY_CPATH_PREFERENCE, MULTIPATH_CAP, COLOR, EXTENDED_ASSOCIATION_ID_JUNIPER,
    SRPOLICY_CPATH_ID_JUNIPER, SRPOLICY_CPATH_PREFERENCE_JUNIPER}

  /** The fifteen flags of STATEFUL-PCE-CAPABILITY. The last eight are never put on the wire. */
  datatype StatefulFlags = StatefulFlags(
    lspUpdate: bool, includeDBVersion: bool, lspInstantiation: bool, triggeredResync: bool,
    deltaLSPSync: bool, triggeredInitialSync: bool, color: bool,
    p2mp: bool, p2mpUpdate: bool, p2mpInstantiation: bool, lspScheduling: bool, pdLSP: bool,
    pathRecomputation: bool, strictPath: bool, relax: bool)

  datatype MultipathFlags = MultipathFlags(weighted: bool, oppositeDir: bool, forwardClass: bool, compositePath: bool)

  datatype LspIds = LspIds(sender: Addr, endpoint: Addr, lspID: u16, tunnelID: u16)

  datatype CPath = CPath(protocolOrigin: byte, originatorASN: u32, originatorAddr: Addr, discriminator: u32)

  datatype Tlv =
    | VendorInformation(enterpriseNumber: u32, info: bytes)
    | StatefulPCECapability(flags: StatefulFlags)
    | SymbolicPathName(name: bytes)
    | IPv4LSPIdentifiers(ids4: LspIds, extTunnelID4: u32)
    | IPv6LSPIdentifiers(ids6: LspIds, extTunnelID6: Bytes16)
    | LSPDBVersion(version: u64)
    | SRPCECapability(unlimitedDepth: bool, naiSupported: bool, maxSidDepth: byte)
    | SRv6PCECapability(srv6NaiSupported: bool)
    | MultipathCapability(maxMultipaths: u16, mflags: MultipathFlags)
    | PathSetupType(pst: byte)
    | ExtendedAssociationID(color: u32, endpoint: Addr)
    | ExtendedAssociationIDJuniper(color: u32, endpoint: Addr)
    | PathSetupTypeCapability(psts: bytes, subTLVs: seq<Tlv>)
    | AssocTypeList(assocTypes: seq<u16>)
    | CPathIdentifier(cpath: CPath)
    | CPathIdentifierJuniper(cpath: CPath)
    | CPathPreference(preference: u32)
    | CPathPreferenceJuniper(preference: u32)
    | Color(color: u32)
    | UnknownTLV(typ: u16, length: u16, value: bytes)

  function TypeOf(t: Tlv): u16 {
    match t
    case VendorInformation(_, _) => VENDOR_INFORMATION
    case StatefulPCECapability(_) => STATEFUL_PCE_CAPABILITY
    case SymbolicPathName(_) => SYMBOLIC_PATH_NAME
    case IPv4LSPIdentifiers(_, _) => IPV4_LSP_IDENTIFIERS
    case IPv6LSPIdentifiers(_, _) => IPV6_LSP_IDENTIFIERS
    case LSPDBVersion(_) => LSP_DB_VERSION
    case SRPCECapability(_, _, _) => SR_PCE_CAPABILITY
    case SRv6PCECapability(_) => SRV6_PCE_CAPABILITY
    case MultipathCapability(_, _) => MULTIPATH_CAP
    case PathSetupType(_) => PATH_SETUP_TYPE
    case ExtendedAssociationID(_, _) => EXTENDED_ASSOCIATION_ID
    case ExtendedAssociationIDJuniper(_, _) => EXTENDED_ASSOCIATION_ID_JUNIPER
    case PathSetupTypeCapability(_, _) => PATH_SETUP_TYPE_CAPABILITY
    case AssocTypeList(_) => ASSOC_TYPE_LIST
    case CPathIdentifier(_) => SRPOLICY_CPATH_ID
    case CPathIdentifierJuniper(_) => SRPOLICY_CPATH_ID_JUNIPER
    case CPathPreference(_) => SRPOLICY_CPATH_PREFERENCE
    case CPathPreferenceJuniper(_) => SRPOLICY_CPATH_PREFERENCE_JUNIPER
    case Color(_) => COLOR
    case UnknownTLV(typ, _, _) => typ
  }

  // ----- value fields

  /** `SetFlags`; only these seven bits are in `definedStatefulPCEFlagsMask`. */
  function StatefulBits(f: StatefulFlags): nat {
    var b := SetBit(0, 1, f.lspUpdate);
    var b := SetBit(b, 2, f.includeDBVersion);
    var b := SetBit(b, 4, f.lspInstantiation);
    var b := SetBit(b, 8, f.triggeredResync);
    var b := SetBit(b, 0x10, f.deltaLSPSync);
    var b := SetBit(b, 0x20, f.triggeredInitialSync);
    SetBit(b, 0x800, f.color)
  }

  function StatefulWord(f: StatefulFlags): u32 { ToU32(StatefulBits(f)) }

  /** `ExtractCapabilities`, into a fresh object. */
  function ExtractCapabilities(flags: nat): StatefulFlags {
    StatefulFlags(IsBitSet(flags, 1), IsBitSet(flags, 2), IsBitSet(flags, 4), IsBitSet(flags, 8),
                  IsBitSet(flags, 0x10), IsBitSet(flags, 0x20), IsBitSet(flags, 0x800),
                  false, false, false, false, false, false, false, false)
  }

  function SrPceBits(unlimited: bool, nai: bool): nat {
    SetBit(SetBit(0, 1, unlimited), 2, nai)
  }

  function MultipathBits(f: MultipathFlags): nat {
    var b := SetBit(0, 1, f.weighted);
    var b := SetBit(b, 4, f.oppositeDir);
    var b := SetBit(b, 8, f.forwardClass);
    SetBit(b, 0x10, f.compositePath)
  }

  /** The sixteen bytes of an originator address: IPv4 sits in the last four. */
  function OriginatorBytes(a: Addr): (b: bytes)
    ensures |b| == 16
  {
    match a
    case Invalid => Zeros(16)
    case V4(b) => Zeros(12) + b
    case V6(b) => b
  }

  function CPathValue(c: CPath): (b: bytes)
    ensures |b| == 28
  {
    [c.protocolOrigin, 0, 0, 0] + U32Bytes(c.originatorASN) + OriginatorBytes(c.originatorAddr) + U32Bytes(c.discriminator)
  }

  function AssocTypesValue(ts: seq<u16>): (b: bytes)
    ensures |b| == 2 * |ts|
  {
    if ts == [] then [] else AssocTypesValue(ts[..|ts| - 1]) + U16Bytes(ts[|ts| - 1])
  }

  /** At most 255 path setup types are sent. */
  function SentPsts(psts: bytes): (b: bytes)
    ensures |b| <= 255
  {
    if |psts| > 255 then psts[..255] else psts
  }

  /** With its padding, the value can be measured in 16 bits. */
  predicate FitsPadded(valueLength: nat) {
    PaddedLength(valueLength) < 0x1_0000
  }

  /** `valueLength` of VENDOR-INFORMATION, and the size of the buffer its serializer makes. */
  function VendorValueLength(info: bytes): u16 { ToU16(4 + ToU16(|info|)) }

  function VendorBufferLength(info: bytes): u16 { ToU16(PaddedLength(VendorValueLength(info))) }

  /** Information too long for its buffer is cut off; a buffer with no room for the enterprise
      number stops the program. */
  function VendorValue(en: u32, info: bytes): bytes {
    if FitsPadded(4 + |info|) then U32Bytes(en) + info
    else if VendorBufferLength(info) < 4 then []
    else U32Bytes(en) + CopyInto(VendorBufferLength(info) - 4, info)
  }

  /** The size of the buffer the association types are written to. */
  function AssocBufferLength(ts: seq<u16>): u16 {
    var valueLen := ToU16(ToU16(|ts|) * 2);
    ToU16(valueLen + Padding(valueLen))
  }

  /** The value field without its padding. */
  function ValueOf(t: Tlv): bytes
    decreases t, 0
  {
    match t
    case VendorInformation(en, info) => VendorValue(en, info)
    case StatefulPCECapability(f) => U32Bytes(StatefulWord(f))
    case SymbolicPathName(name) => name
    case IPv4LSPIdentifiers(ids, ext) =>
      CopyInto(4, ids.sender.AsSlice()) + U16Bytes(ids.lspID) + U16Bytes(ids.tunnelID) + U32Bytes(ext)
      + CopyInto(4, ids.endpoint.AsSlice())
    case IPv6LSPIdentifiers(ids, ext) =>
      CopyInto(16, ids.sender.AsSlice()) + U16Bytes(ids.lspID) + U16Bytes(ids.tunnelID) + ext
      + CopyInto(16, ids.endpoint.AsSlice())
    case LSPDBVersion(v) => U64Bytes(v)
    case SRPCECapability(unlimited, nai, depth) => [SrPceBits(unlimited, nai) % 0x100, depth, 0, 0]
    case SRv6PCECapability(nai) => [0, 0] + U16Bytes(if nai then 2 else 0)
    case MultipathCapability(max, f) => U16Bytes(max) + U16Bytes(ToU16(MultipathBits(f)))
    case PathSetupType(pst) => [0, 0, 0, pst]
    case ExtendedAssociationID(c, e) => U32Bytes(c) + e.AsSlice()
    case ExtendedAssociationIDJuniper(c, e) => U32Bytes(c) + e.AsSlice()
    case PathSetupTypeCapability(psts, subs) =>
      var sent := SentPsts(psts);
      [0, 0, 0, |sent|] + sent + Zeros(Padding(|sent|)) + SerializeAll(subs)
    case AssocTypeList(ts) => AssocTypesValue(ts)
    case CPathIdentifier(c) => CPathValue(c)
    case CPathIdentifierJuniper(c) => CPathValue(c)
    case CPathPreference(p) => U32Bytes(p)
    case CPathPreferenceJuniper(p) => U32Bytes(p)
    case Color(c) => U32Bytes(c)
    case UnknownTLV(_, _, value) => value
  }

  /** What goes into the length field, a 16-bit count. */
  function LengthField(t: Tlv): u16 {
    match t
    case VendorInformation(_, info) => VendorValueLength(info)
    case SymbolicPathName(name) => ToU16(|name|)
    case AssocTypeList(ts) => ToU16(ToU16(|ts|) * 2)
    case PathSetupTypeCapability(psts, subs) =>
      ToU16(4 + PaddedLength(|SentPsts(psts)|) + LenAll(subs))
    case UnknownTLV(_, length, _) => length
    case IPv4LSPIdentifiers(_, _) => 16
    case IPv6LSPIdentifiers(_, _) => 52
    case LSPDBVersion(_) => 8
    case CPathIdentifier(_) => 28
    case CPathIdentifierJuniper(_) => 28
    case ExtendedAssociationID(_, e) => if e.Is4() then 8 else if e.Is6() then 20 else 0
    case ExtendedAssociationIDJuniper(_, e) => if e.Is4() then 8 else if e.Is6() then 20 else 0
    case _ => 4
  }

  /** An association without a usable endpoint serializes to nothing. Neither does a TLV whose
      serializer stops the program, writing outside a buffer that was sized in 16 bits. */
  predicate IsEmitted(t: Tlv) {
    match t
    case VendorInformation(_, info) => VendorBufferLength(info) >= 4
    case AssocTypeList(ts) => 2 * |ts| <= AssocBufferLength(ts)
    case ExtendedAssociationID(_, e) => e.IsValid()
    case ExtendedAssociationIDJuniper(_, e) => e.Is4()
    case _ => true
  }

  /** Zero bytes after the value. */
  function PaddingOf(t: Tlv): nat {
    match t
    case VendorInformation(_, info) => if FitsPadded(4 + |info|) then Padding(4 + |info|) else 0
    case SymbolicPathName(name) => Padding(|name|)
    case AssocTypeList(ts) => Padding(2 * |ts|)
    case UnknownTLV(_, length, _) => Padding(length)
    case _ => 0
  }

  function Serialize(t: Tlv): bytes
    decreases t, 1
  {
    if !IsEmitted(t) then []
    else U16Bytes(TypeOf(t)) + U16Bytes(LengthField(t)) + ValueOf(t) + Zeros(PaddingOf(t))
  }

  /** The loop every object has: TLV after TLV. */
  function SerializeAll(ts: seq<Tlv>): bytes
    decreases ts
  {
    if ts == [] then [] else Serialize(ts[0]) + SerializeAll(ts[1..])
  }

  /** `Len`: the whole TLV, as a 16-bit count. */
  function Len(t: Tlv): u16
    decreases t, 0
  {
    match t
    case VendorInformation(_, info) => ToU16(4 + VendorBufferLength(info))
    case SymbolicPathName(name) => ToU16(4 + PaddedLength(ToU16(|name|)))
    case AssocTypeList(ts) =>
      var length := ToU16(ToU16(|ts|) * 2);
      ToU16(4 + length + if length % 4 != 0 then 2 else 0)
    case PathSetupTypeCapability(psts, subs) => ToU16(4 + 4 + PaddedLength(|SentPsts(psts)|) + LenAll(subs))
    case UnknownTLV(_, length, _) => ToU16(4 + PaddedLength(length))
    case ExtendedAssociationID(_, e) => if e.Is4() then 12 else if e.Is6() then 24 else 0
    case ExtendedAssociationIDJuniper(_, e) => if e.Is4() then 12 else 0
    case IPv4LSPIdentifiers(_, _) => 20
    case IPv6LSPIdentifiers(_, _) => 56
    case LSPDBVersion(_) => 12
    case CPathIdentifier(_) => 32
    case CPathIdentifierJuniper(_) => 32
    case _ => 8
  }

  /** The sum of lengths every object keeps in 16 bits. */
  function LenAll(ts: seq<Tlv>): u16
    decreases ts
  {
    if ts == [] then 0 else ToU16(Len(ts[0]) + LenAll(ts[1..]))
  }

  // ----- decoding

  /** `utf8.Valid`. */
  predicate Utf8Valid(b: bytes) {
    if b == [] then true
    else if b[0] < 0x80 then Utf8Valid(b[1..])
    else if 0xc2 <= b[0] <= 0xdf then Continues(b, 1, 0x80, 0xbf) && Utf8Valid(b[2..])
    else if 0xe0 <= b[0] <= 0xef then
      && Continues(b, 1, if b[0] == 0xe0 then 0xa0 else 0x80, if b[0] == 0xed then 0x9f else 0xbf)
      && Continues(b, 2, 0x80, 0xbf) && Utf8Valid(b[3..])
    else if 0xf0 <= b[0] <= 0xf4 then
      && Continues(b, 1, if b[0] == 0xf0 then 0x90 else 0x80, if b[0] == 0xf4 then 0x8f else 0xbf)
      && Continues(b, 2, 0x80, 0xbf) && Continues(b, 3, 0x80, 0xbf) && Utf8Valid(b[4..])
    else false
  }

  predicate Continues(b: bytes, i: nat, low: byte, high: byte) {
    i < |b| && low <= b[i] <= high
  }

  /** `decodeTLVLength`: the data is the TLV exactly, or with zero padding up to four bytes. */
  function DecodeTLVLength(data: bytes, allowPadding: bool): (r: Option<nat>)
    ensures r.Some? ==> |data| >= 4 && r.value == ReadU16(data, 2) && 4 + r.value <= |data|
  {
    if |data| < 4 then None
    else
      var length := ReadU16(data, 2);
      var expected := 4 + length;
      if |data| < expected then None
      else if |data| == expected then Some(length)
      else if !allowPadding then None
      else if |data| != PaddedLength(expected) then None
      else if !AllZero(data[expected..]) then None
      else Some(length)
  }

  function ReadAssocTypes(value: bytes): (ts: seq<u16>)
    requires |value| % 2 == 0
    ensures |ts| == |value| / 2
  {
    if value == [] then []
    else ReadAssocTypes(value[..|value| - 2]) + [ReadU16(value, |value| - 2)]
  }

  /** `isIPv4Bytes` and what follows it. */
  function ReadOriginator(b: bytes): Addr
    requires |b| == 16
  {
    if AllZero(b[..12]) then V4(b[12..]) else V6(b)
  }

  function ReadCPath(v: bytes): CPath
    requires |v| == 28
  {
    CPath(v[0], ReadU32(v, 4), ReadOriginator(v[8..24]), ReadU32(v, 24))
  }

  function ReadAssociation(v: bytes): Option<(u32, Addr)> {
    if |v| == 8 || |v| == 20 then Some((ReadU32(v, 0), AddrFromSlice(v[4..]))) else None
  }

  function ReadMultipath(v: bytes): Tlv
    requires |v| == 4
  {
    var flags := ReadU16(v, 2);
    MultipathCapability(ReadU16(v, 0),
      MultipathFlags(IsBitSet(flags, 1), IsBitSet(flags, 4), IsBitSet(flags, 8), IsBitSet(flags, 0x10)))
  }

  /** The decoders of the TLVs that hold no TLVs, on the value field. */
  function DecodeLeaf(typ: u16, v: bytes): Option<Tlv>
    requires |v| < 0x1_0000
  {
    if typ == VENDOR_INFORMATION then
      if |v| < 4 then None else Some(VendorInformation(ReadU32(v, 0), v[4..]))
    else if typ == STATEFUL_PCE_CAPABILITY then
      if |v| != 4 then None else Some(StatefulPCECapability(ExtractCapabilities(ReadU32(v, 0))))
    else if typ == SYMBOLIC_PATH_NAME then
      if !Utf8Valid(v) then None else Some(SymbolicPathName(v))
    else if typ == IPV4_LSP_IDENTIFIERS then
      if |v| != 16 then None
      else Some(IPv4LSPIdentifiers(
        LspIds(AddrFromSlice(v[..4]), AddrFromSlice(v[12..16]), ReadU16(v, 4), ReadU16(v, 6)), ReadU32(v, 8)))
    else if typ == IPV6_LSP_IDENTIFIERS then
      if |v| != 52 then None
      else Some(IPv6LSPIdentifiers(
        LspIds(AddrFromSlice(v[..16]), AddrFromSlice(v[36..52]), ReadU16(v, 16), ReadU16(v, 18)), v[20..36]))
    else if typ == LSP_DB_VERSION then
      if |v| != 8 then None else Some(LSPDBVersion(ReadU64(v, 0)))
    else if typ == SR_PCE_CAPABILITY then
      if |v| != 4 then None else Some(SRPCECapability(IsBitSet(v[0], 1), IsBitSet(v[0], 2), v[1]))
    else if typ == SRV6_PCE_CAPABILITY then
      if |v| < 4 then None else Some(SRv6PCECapability(IsBitSet(ReadU16(v, 2), 2)))
    else if typ == MULTIPATH_CAP then
      if |v| != 4 then None else Some(ReadMultipath(v))
    else if typ == PATH_SETUP_TYPE then
      if |v| != 4 then None else Some(PathSetupType(v[3]))
    else if typ == EXTENDED_ASSOCIATION_ID then
      match ReadAssociation(v) { case None => None case Some((c, e)) => Some(ExtendedAssociationID(c, e)) }
    else if typ == EXTENDED_ASSOCIATION_ID_JUNIPER then
      if |v| != 8 then None
      else match ReadAssociation(v) { case None => None case Some((c, e)) => Some(ExtendedAssociationIDJuniper(c, e)) }
    else if typ == ASSOC_TYPE_LIST then
      if |v| % 2 != 0 then None else Some(AssocTypeList(ReadAssocTypes(v)))
    else if typ == SRPOLICY_CPATH_ID then
      if |v| != 28 then None else Some(CPathIdentifier(ReadCPath(v)))
    else if typ == SRPOLICY_CPATH_ID_JUNIPER then
      if |v| != 28 then None else Some(CPathIdentifierJuniper(ReadCPath(v)))
    else if typ == SRPOLICY_CPATH_PREFERENCE then
      if |v| != 4 then None else Some(CPathPreference(ReadU32(v, 0)))
    else if typ == SRPOLICY_CPATH_PREFERENCE_JUNIPER then
      if |v| != 4 then None else Some(CPathPreferenceJuniper(ReadU32(v, 0)))
    else if typ == COLOR then
      if |v| != 4 then None else Some(Color(ReadU32(v, 0)))
    else Some(UnknownTLV(typ, |v|, v))
  }

  /** Decoders that tolerate padding in what they are given. */
  predicate AllowsPadding(typ: u16) {
    typ in {VENDOR_INFORMATION, SYMBOLIC_PATH_NAME, ASSOC_TYPE_LIST} || typ !in KNOWN_TYPES
  }

  /** Standard TLVs, or a vendor's own type space, where nothing is known. */
  datatype Space = Standard | Vendor

  /** `decodeTLV` and `decodeUnknownTLV`: one TLV. */
  function DecodeTLV(data: bytes, space: Space): Option<Tlv>
    requires |data| >= 4
    decreases |data|, 0
  {
    var typ := ReadU16(data, 0);
    match DecodeTLVLength(data, space.Vendor? || AllowsPadding(typ))
    case None => None
    case Some(length) =>
      if space.Vendor? then Some(UnknownTLV(typ, length, data[4..4 + length]))
      else if typ == PATH_SETUP_TYPE_CAPABILITY then DecodePathSetupTypeCapability(data[4..4 + length])
      else DecodeLeaf(typ, data[4..4 + length])
  }

  /** The path setup types, their padding, then TLVs again. */
  function DecodePathSetupTypeCapability(v: bytes): Option<Tlv>
    decreases |v|, 2
  {
    if |v| < 4 then None
    else
      var pstNum := v[3];
      var subTLVOffset := 4 + PaddedLength(pstNum);
      if 4 + pstNum > |v| || subTLVOffset > |v| then None
      else
        match DecodeTLVs(v[subTLVOffset..], Standard)
        case None => None
        case Some(subs) => Some(PathSetupTypeCapability(v[4..4 + pstNum], subs))
  }

  /** `decodeTLVSequence`. */
  function DecodeTLVs(data: bytes, space: Space): Option<seq<Tlv>>
    decreases |data|, 1
  {
    if data == [] then Some([])
    else if |data| < 4 then None
    else
      var totalLen := 4 + ReadU16(data, 2);
      var paddedLen := PaddedLength(totalLen);
      if |data| < totalLen then None
      else
        match DecodeTLV(data[..totalLen], space)
        case None => None
        case Some(t) =>
          if |data| < paddedLen || !AllZero(data[totalLen..paddedLen]) then None
          else
            match DecodeTLVs(data[paddedLen..], space)
            case None => None
            case Some(rest) => Some([t] + rest)
  }
}
