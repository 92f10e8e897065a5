/** PCEP objects (section 7.2 of RFC 5440): the common header, and what the bodies of the objects
    in reports, requests and errors look like (pkg/packet/pcep/object.go). Decoders fill an object
    that may already hold something: `prior`. */
module Objects {
  import opened Bytes
  import opened Netip
  import opened Wrappers
  import opened Tlv
  import Ero

  const BANDWIDTH: byte := 0x05
  const METRIC: byte := 0x06
  const ENDPOINTS: byte := 0x04
  const ERO: byte := 0x07
  const LSPA: byte := 0x09
  const PCEP_ERROR: byte := 0x0d
  const LSP: byte := 0x20
  const SRP: byte := 0x21
  const VENDOR: byte := 0x22
  const ASSOCIATION: byte := 0x28

  // ----- framing

  /** An object before its body is looked at. */
  datatype RawObject = RawObject(class_: byte, typ: byte, resFlags: byte, pFlag: bool, iFlag: bool, body: bytes)

  /** `CommonObjectHeader.Serialize`. */
  function HeaderBytes(class_: byte, typ: byte, resFlags: byte, pFlag: bool, iFlag: bool, length: u16): (b: bytes)
    ensures |b| == 4
  {
    [class_, typ % 16 * 16 + resFlags % 4 * 4 + 2 * Bit(pFlag) + Bit(iFlag)] + U16Bytes(length)
  }

  function Frame(o: RawObject): bytes
    requires |o.body| + 4 < 0x1_0000
  {
    HeaderBytes(o.class_, o.typ, o.resFlags, o.pFlag, o.iFlag, 4 + |o.body|) + o.body
  }

  /** `CommonObjectHeader.DecodeFromBytes`, with the bytes that follow as the body. */
  function RawFrom(b: bytes, body: bytes): RawObject
    requires |b| >= 4
  {
    RawObject(b[0], b[1] / 16, b[1] / 4 % 4, b[1] / 2 % 2 == 1, b[1] % 2 == 1, body)
  }

  predicate RawFits(o: RawObject) {
    o.typ < 16 && o.resFlags < 4 && |o.body| + 4 < 0x1_0000
  }

  /** The first object of a byte string and what is behind it; nothing when its length is below
      the header's four bytes or beyond the end. */
  function TakeObject(b: bytes): (r: Option<(RawObject, bytes)>)
    ensures r.Some? ==> |r.value.1| + |r.value.0.body| + 4 == |b| && RawFits(r.value.0)
  {
    if |b| < 4 then None
    else
      var length: nat := ReadU16(b, 2);
      if length < 4 || length > |b| then None
      else Some((RawFrom(b, b[4..length]), b[length..]))
  }

  /** Walking by object lengths. */
  function Objects(b: bytes): Option<seq<RawObject>>
    decreases |b|
  {
    if b == [] then Some([])
    else
      match TakeObject(b)
      case None => None
      case Some((o, rest)) =>
        match Objects(rest)
        case None => None
        case Some(os) => Some([o] + os)
  }

  function FrameAll(os: seq<RawObject>): bytes
    requires forall o | o in os :: RawFits(o)
  {
    if os == [] then [] else assert RawFits(os[0]); Frame(os[0]) + FrameAll(os[1..])
  }

  lemma TakeFrame(o: RawObject, rest: bytes)
    requires RawFits(o)
    ensures TakeObject(Frame(o) + rest) == Some((o, rest))
  {
    var b := Frame(o) + rest;
    var flags: byte := o.typ % 16 * 16 + o.resFlags % 4 * 4 + 2 * Bit(o.pFlag) + Bit(o.iFlag);
    FlagByte(o.typ, o.resFlags, Bit(o.pFlag), Bit(o.iFlag));
    U16RoundTrip([o.class_, flags], 4 + |o.body|, o.body + rest);
    assert b == [o.class_, flags] + U16Bytes(4 + |o.body|) + (o.body + rest);
    assert b[4..4 + |o.body|] == o.body;
    assert b[4 + |o.body|..] == rest;
    assert b[1] == flags;
  }

  lemma FlagByte(typ: byte, res: byte, p: nat, i: nat)
    requires typ < 16 && res < 4 && p < 2 && i < 2
    ensures var f := typ * 16 + res * 4 + 2 * p + i; f / 16 == typ && f / 4 % 4 == res && f / 2 % 2 == p && f % 2 == i
  {
  }

  /** Objects laid end to end are found again by their lengths. */
  lemma {:induction false} WalkFindsObjects(os: seq<RawObject>)
    requires forall o | o in os :: RawFits(o)
    ensures Objects(FrameAll(os)) == Some(os)
  {
    if os != [] {
      TakeFrame(os[0], FrameAll(os[1..]));
      WalkFindsObjects(os[1..]);
      assert os == [os[0]] + os[1..];
    }
  }

  // ----- objects

  datatype Srp = Srp(typ: byte, rFlag: bool, srpID: u32, tlvs: seq<Tlv>)

  datatype Lsp = Lsp(typ: byte, name: bytes, src: Addr, dst: Addr, plspID: u32, lspID: u16,
                     cFlag: bool, oFlag: byte, aFlag: bool, rFlag: bool, sFlag: bool, dFlag: bool, tlvs: seq<Tlv>)

  datatype PcepError = PcepError(typ: byte, errorType: byte, errorValue: byte, tlvs: seq<Tlv>)

  datatype Association = Association(typ: byte, rFlag: bool, assocType: u16, assocID: u16, assocSrc: Addr, tlvs: seq<Tlv>)

  datatype VendorInfo = VendorInfo(typ: byte, enterpriseNumber: u32, tlvs: seq<Tlv>)

  datatype Endpoints = Endpoints(typ: byte, src: Addr, dst: Addr)

  datatype Route = Route(typ: byte, hops: seq<Ero.Subobject>)

  datatype Bandwidth = Bandwidth(typ: byte, bandwidth: u32)

  datatype Metric = Metric(typ: byte, cFlag: bool, bFlag: bool, metricType: byte, metricValue: u32)

  datatype Lspa = Lspa(typ: byte, excludeAny: u32, includeAny: u32, includeAll: u32,
                       setupPriority: byte, holdingPriority: byte, lFlag: bool)

  const NO_SRP := Srp(0, false, 0, [])
  const NO_LSP := Lsp(0, [], Invalid, Invalid, 0, 0, false, 0, false, false, false, false, [])
  const NO_ASSOCIATION := Association(0, false, 0, 0, Invalid, [])
  const NO_VENDOR := VendorInfo(0, 0, [])
  const NO_LSPA := Lspa(0, 0, 0, 0, 0, 0, false)

  // ----- bodies

  function SrpBody(o: Srp): bytes {
    [0, 0, 0, Bit(o.rFlag)] + U32Bytes(o.srpID) + SerializeAll(o.tlvs)
  }

  /** The last byte of the first word; `C` and bit 3 of the operational state share a bit. */
  function LspFlags(o: Lsp): byte {
    0x80 * Bit(o.cFlag || o.oFlag / 8 % 2 == 1) + o.oFlag % 8 * 16
    + 8 * Bit(o.aFlag) + 4 * Bit(o.rFlag) + 2 * Bit(o.sFlag) + Bit(o.dFlag)
  }

  function LspBody(o: Lsp): bytes {
    U32Bytes(o.plspID % 0x10_0000 * 0x1000 + LspFlags(o)) + SerializeAll(o.tlvs)
  }

  function ErrorBody(o: PcepError): bytes {
    [0, 0, o.errorType, o.errorValue] + SerializeAll(o.tlvs)
  }

  function AssociationBody(o: Association): bytes {
    [0, 0, 0, Bit(o.rFlag)] + U16Bytes(o.assocType) + U16Bytes(o.assocID) + o.assocSrc.AsSlice() + SerializeAll(o.tlvs)
  }

  function VendorBody(o: VendorInfo): bytes {
    U32Bytes(o.enterpriseNumber) + SerializeAll(o.tlvs)
  }

  function EndpointsBody(o: Endpoints): bytes {
    o.src.AsSlice() + o.dst.AsSlice()
  }

  function RawSrp(s: Srp): RawObject { RawObject(SRP, s.typ, 0, false, false, SrpBody(s)) }

  // ----- decoders

  /** `if len(body) > n { decode the rest }`: without TLVs the prior ones stay. */
  function TlvsBehind(prior: seq<Tlv>, body: bytes, n: nat, space: Space): Option<seq<Tlv>>
    requires n <= |body|
  {
    if |body| > n then DecodeTLVs(body[n..], space) else Some(prior)
  }

  function DecodeSrp(typ: byte, body: bytes): Option<Srp> {
    if |body| < 8 then None
    else
      match TlvsBehind([], body, 8, Standard)
      case None => None
      case Some(tlvs) => Some(Srp(typ, body[3] % 2 == 1, ReadU32(body, 4), tlvs))
  }

  function DecodeError(typ: byte, body: bytes): Option<PcepError> {
    if |body| < 4 then None
    else
      match TlvsBehind([], body, 4, Standard)
      case None => None
      case Some(tlvs) => Some(PcepError(typ, body[2], body[3], tlvs))
  }

  /** Name, addresses and LSP-ID: the last TLV that says so decides. */
  function LspFields(o: Lsp, tlvs: seq<Tlv>): Lsp
    decreases |tlvs|
  {
    if tlvs == [] then o
    else
      var next :=
        match tlvs[0]
        case SymbolicPathName(name) => o.(name := name)
        case IPv4LSPIdentifiers(ids, _) => o.(src := ids.sender, dst := ids.endpoint, lspID := ids.lspID)
        case IPv6LSPIdentifiers(ids, _) => o.(src := ids.sender, dst := ids.endpoint, lspID := ids.lspID)
        case _ => o;
      LspFields(next, tlvs[1..])
  }

  /** The LSP decoder does not check that there are four bytes. */
  function DecodeLsp(prior: Lsp, typ: byte, body: bytes): Outcome<Lsp> {
    if |body| < 4 then Crashed
    else
      var flags := body[3];
      match TlvsBehind(prior.tlvs, body, 4, Standard)
      case None => Rejected
      case Some(tlvs) =>
        var o := Lsp(typ, prior.name, prior.src, prior.dst, ReadU32(body, 0) / 0x1000, prior.lspID,
                     flags / 0x80 == 1, flags / 16 % 8, flags / 8 % 2 == 1, flags / 4 % 2 == 1,
                     flags / 2 % 2 == 1, flags % 2 == 1, tlvs);
        Done(if |body| > 4 then LspFields(o, tlvs) else o)
  }

  function DecodeAssociation(prior: Association, typ: byte, body: bytes): Outcome<Association> {
    if |body| < 8 then Crashed
    else if typ != 1 && typ != 2 then Rejected
    else
      var n := if typ == 1 then 12 else 24;
      if |body| < n then Crashed
      else
        match TlvsBehind(prior.tlvs, body, n, Standard)
        case None => Rejected
        case Some(tlvs) =>
          Done(Association(typ, body[3] % 2 == 1, ReadU16(body, 4), ReadU16(body, 6), AddrFromSlice(body[8..n]), tlvs))
  }

  function DecodeVendor(prior: VendorInfo, typ: byte, body: bytes): Option<VendorInfo> {
    if |body| < 4 then None
    else
      match TlvsBehind(prior.tlvs, body, 4, Vendor)
      case None => None
      case Some(tlvs) => Some(VendorInfo(typ, ReadU32(body, 0), tlvs))
  }

  /** Hops are appended to those already there. */
  function DecodeRoute(prior: Route, typ: byte, body: bytes): Option<Route> {
    match Ero.DecodeBody(body)
    case None => None
    case Some(hops) => Some(Route(typ, prior.hops + hops))
  }

  function DecodeBandwidth(typ: byte, body: bytes): Outcome<Bandwidth> {
    if |body| < 4 then Crashed else Done(Bandwidth(typ, ReadU32(body, 0)))
  }

  function DecodeMetric(typ: byte, body: bytes): Outcome<Metric> {
    if |body| < 8 then Crashed
    else Done(Metric(typ, body[2] / 2 % 2 == 1, body[2] % 2 == 1, body[3], ReadU32(body, 4)))
  }

  function DecodeLspa(typ: byte, body: bytes): Outcome<Lspa> {
    if |body| < 15 then Crashed
    else Done(Lspa(typ, ReadU32(body, 0), ReadU32(body, 4), ReadU32(body, 8), body[12], body[13], body[14] % 2 == 1))
  }
}
