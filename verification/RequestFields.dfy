/** What the peer reads from the requests of a session, field by field, in terms of the policy they are
    about (pkg/packet/pcep/message.go, pkg/packet/pcep/object.go). */
module RequestFields {
  import opened Bytes
  import opened Messages
  import opened Netip
  import opened Objects
  import opened Requests
  import opened Segments
  import opened Sessions
  import opened Tlv
  import opened Wrappers
  import EroRoundTrip
  import ObjectRoundTrip
  import TlvRoundTrip

  // ----- objects as the peer reads them

  /** The path setup type that the first segment asks for: SR or SRv6, none without segments. */
  function SetupOf(segs: seq<Segment>): Option<byte> {
    if segs == [] then None else Some(if segs[0].SRMPLS? then 1 else 3)
  }

  predicate IsSrp(o: RawObject, srpID: u32, remove: bool, pathSetup: Option<byte>) {
    && o.class_ == 33 && o.typ == 1
    && match DecodeSrp(o.typ, o.body)
       case None => false
       case Some(srp) =>
         srp.srpID == srpID && srp.rFlag == remove && srp.tlvs == (match pathSetup case None => [] case Some(x) => [PathSetupType(x)])
  }

  /** A delegated LSP, up and to be active, of this name; the R and S flags are off. */
  predicate IsLsp(o: RawObject, plspID: u32, name: bytes, color: Option<u32>) {
    && o.class_ == 32 && o.typ == 1
    && match DecodeLsp(NO_LSP, o.typ, o.body)
       case Done(lsp) =>
         && lsp.plspID == plspID && lsp.name == name && lsp.cFlag && lsp.oFlag == 1 && lsp.aFlag && lsp.dFlag
         && !lsp.rFlag && !lsp.sFlag
         && lsp.tlvs == (match color case None => [SymbolicPathName(name)] case Some(c) => [SymbolicPathName(name), Color(c)])
       case _ => false
  }

  predicate IsEndpoints(o: RawObject, src: Addr, dst: Addr) {
    && o.class_ == 4
    && match (src, dst)
       case (V4(a), V4(b)) => o.typ == 1 && o.body == a + b
       case (V6(a), V6(b)) => o.typ == 2 && o.body == a + b
       case _ => false
  }

  predicate IsRoute(o: RawObject, segs: seq<Segment>) {
    o.class_ == 7 && o.typ == 1 && EroRoundTrip.Decode(o.body) == Some(EroRoundTrip.OnWireAll(segs))
  }

  function PolicyTlvs(a: Initiate): seq<Tlv> {
    [ExtendedAssociationID(a.color, a.dst), CPathIdentifier(CPath(10, a.asn, a.dst, 1)), CPathPreference(a.preference)]
  }

  /** An SR policy association: type 6 and ID 1 with the policy's color, endpoint and preference, and a
      candidate path that PCEP (10) originated. */
  predicate IsPolicyAssociation(o: RawObject, a: Initiate) {
    && o.class_ == 40
    && match DecodeAssociation(NO_ASSOCIATION, o.typ, o.body)
       case Done(x) =>
         && x.assocType == 6 && x.assocID == 1 && x.assocSrc == a.src && !x.rFlag
         && x.tlvs == PolicyTlvs(a)
       case _ => false
  }

  /** Juniper's: another type, ID 0, and originator 0.0.0.0. */
  predicate IsJuniperAssociation(o: RawObject, a: Initiate) {
    && o.class_ == 40
    && match DecodeAssociation(NO_ASSOCIATION, o.typ, o.body)
       case Done(x) =>
         && x.assocType == 0xffe1 && x.assocID == 0 && x.assocSrc == a.src && !x.rFlag
         && x.tlvs == [ExtendedAssociationIDJuniper(a.color, a.dst), CPathIdentifierJuniper(CPath(10, a.asn, V4([0, 0, 0, 0]), 1)),
                       CPathPreferenceJuniper(a.preference)]
       case _ => false
  }

  predicate IsNumber(t: Tlv, typ: u16, x: u32) {
    t.UnknownTLV? && t.typ == typ && |t.value| == 4 && ReadU32(t.value, 0) == x
  }

  /** Cisco's vendor information (enterprise 9): the color in TLV 1 and the preference in TLV 3. */
  predicate IsCiscoInformation(o: RawObject, color: u32, preference: u32) {
    && o.class_ == 34 && o.typ == 1
    && match DecodeVendor(NO_VENDOR, o.typ, o.body)
       case None => false
       case Some(x) =>
         x.enterpriseNumber == 9 && |x.tlvs| == 2 && IsNumber(x.tlvs[0], 1, color) && IsNumber(x.tlvs[1], 3, preference)
  }

  // ----- what each constructor says

  lemma {:induction false} SrpSays(segs: seq<Segment>, srpID: u32, isRemove: bool)
    ensures IsSrp(RawOf(SrpObject(NewSrpObject(segs, srpID, isRemove))), srpID, isRemove, SetupOf(segs))
  {
    SrpArrives(segs, srpID, isRemove);
  }

  lemma {:induction false} LspSays(name: bytes, color: Option<u32>, plspID: u32)
    requires var lsp := NewLspObject(name, color, plspID);
             |LspBody(lsp)| + 4 < 0x1_0000 && TlvRoundTrip.AllWellFormed(lsp.tlvs)
    requires plspID < 0x10_0000
    ensures IsLsp(RawOf(LspObject(NewLspObject(name, color, plspID))), plspID, name, color)
  {
    LspArrives(name, color, plspID);
  }

  lemma {:induction false} EndpointsSay(src: Addr, dst: Addr)
    requires SameFamily(src, dst)
    ensures NewEndpointsObject(dst, src).Some?
    ensures IsEndpoints(RawOf(EndpointsObject(NewEndpointsObject(dst, src).value)), src, dst)
  {
  }

  lemma {:induction false} RouteSays(segs: seq<Segment>)
    requires forall seg | seg in segs :: EroRoundTrip.Sendable(seg) && EroRoundTrip.Framed(seg)
    requires match EroRoundTrip.Encode(segs) case None => true case Some(body) => |body| + 4 < 0x1_0000
    ensures NewRoute(segs).Some? && BodyOf(RouteObject(NewRoute(segs).value)).Some?
    ensures IsRoute(RawOf(RouteObject(NewRoute(segs).value)), segs)
  {
    RouteArrives(segs);
    LenOfIsSize(RouteObject(NewRoute(segs).value));
  }

  lemma {:induction false} PolicyTlvsAreWellFormed(a: Initiate)
    requires a.dst.IsValid()
    ensures TlvRoundTrip.AllWellFormed(PolicyTlvs(a)) <==> (a.dst.V6? ==> !AllZero(a.dst.b16[..12]))
  {
    var ts := PolicyTlvs(a);
    assert TlvRoundTrip.WellFormed(ts[0]) && TlvRoundTrip.WellFormed(ts[2]);
    assert TlvRoundTrip.WellFormed(ts[1]) <==> (a.dst.V6? ==> !AllZero(a.dst.b16[..12]));
    assert ts[1] in ts && forall t | t in ts :: t == ts[0] || t == ts[1] || t == ts[2];
  }

  lemma {:induction false} PolicyAssociation(a: Initiate)
    requires SameFamily(a.src, a.dst) && !a.pcc.JuniperLegacy?
    ensures NewAssociationObject(a.src, a.dst, a.color, a.preference, a.pcc, a.asn)
            == Some(Association(if a.dst.V4? then 1 else 2, false, 6, 1, a.src, PolicyTlvs(a)))
  {
  }

  /** The association of a policy is read as it was meant, unless its IPv6 endpoint, which is also
      its originator, begins with twelve zero bytes. */
  lemma {:induction false} AssociationSays(a: Initiate)
    requires SameFamily(a.src, a.dst) && !a.pcc.JuniperLegacy?
    ensures NewAssociationObject(a.src, a.dst, a.color, a.preference, a.pcc, a.asn).Some?
    ensures IsPolicyAssociation(RawOf(AssociationObject(NewAssociationObject(a.src, a.dst, a.color, a.preference, a.pcc, a.asn).value)), a)
            <==> (a.dst.V6? ==> !AllZero(a.dst.b16[..12]))
  {
    PolicyAssociation(a);
    PolicyTlvsAreWellFormed(a);
    AssociationIsRead(Association(if a.dst.V4? then 1 else 2, false, 6, 1, a.src, PolicyTlvs(a)), a);
  }

  lemma {:induction false} AssociationIsRead(x: Association, a: Initiate)
    requires SameFamily(a.src, a.dst) && x == Association(if a.dst.V4? then 1 else 2, false, 6, 1, a.src, PolicyTlvs(a))
    ensures IsPolicyAssociation(RawOf(AssociationObject(x)), a) <==> TlvRoundTrip.AllWellFormed(x.tlvs)
  {
    ObjectRoundTrip.AssociationRoundTrip(x);
    TypeIsKept(x.typ, AssociationBody(x));
  }

  lemma {:induction false} TypeIsKept(typ: byte, body: bytes)
    ensures forall o | DecodeAssociation(NO_ASSOCIATION, typ, body) == Done(o) :: o.typ == typ
  {
  }

  lemma {:induction false} JuniperAssociationSays(a: Initiate)
    requires a.src.V4? && a.dst.V4? && a.pcc.JuniperLegacy?
    ensures NewAssociationObject(a.src, a.dst, a.color, a.preference, a.pcc, a.asn).Some?
    ensures IsJuniperAssociation(RawOf(AssociationObject(NewAssociationObject(a.src, a.dst, a.color, a.preference, a.pcc, a.asn).value)), a)
  {
    var x := NewAssociationObject(a.src, a.dst, a.color, a.preference, a.pcc, a.asn).value;
    ObjectRoundTrip.AssociationRoundTrip(x);
  }

  lemma {:induction false} NumberIsRead(typ: u16, x: u32)
    ensures IsNumber(UnknownTLV(typ, 4, U32Bytes(x)), typ, x)
  {
    U32RoundTrip([], x, []);
    assert [] + U32Bytes(x) + [] == U32Bytes(x);
  }

  lemma {:induction false} VendorSays(color: u32, preference: u32)
    ensures IsCiscoInformation(RawOf(VendorObject(NewVendorInformationObject(color, preference))), color, preference)
  {
    NumberIsRead(1, color);
    NumberIsRead(3, preference);
    ObjectRoundTrip.VendorRoundTrip(NewVendorInformationObject(color, preference));
  }

  // ----- the messages

  /** A request to create begins with SRP, LSP, endpoints and route. */
  predicate IsCreation(os: seq<RawObject>, a: Initiate) {
    && |os| >= 4
    && IsSrp(os[0], a.srpID, false, SetupOf(a.segs)) && IsLsp(os[1], 0, a.name, Some(a.color))
    && IsEndpoints(os[2], a.src, a.dst) && IsRoute(os[3], a.segs)
  }

  /** Then comes what the kind of PCC asks for: association, vendor information, or both. */
  predicate IsColored(os: seq<RawObject>, a: Initiate) {
    match a.pcc
    case RFCCompliant =>
      && |os| == 6 && (IsPolicyAssociation(os[4], a) <==> (a.dst.V6? ==> !AllZero(a.dst.b16[..12])))
      && IsCiscoInformation(os[5], a.color, a.preference)
    case JuniperLegacy => |os| == 5 && IsJuniperAssociation(os[4], a)
    case CiscoLegacy => |os| == 5 && IsCiscoInformation(os[4], a.color, a.preference)
  }

  predicate IsDeletion(os: seq<RawObject>, a: Initiate) {
    |os| == 2 && IsSrp(os[0], a.srpID, true, SetupOf(a.segs)) && IsLsp(os[1], a.plspID, a.name, Some(a.color))
  }

  predicate IsUpdate(os: seq<RawObject>, srpID: u32, name: bytes, plspID: u32, segs: seq<Segment>) {
    |os| == 3 && IsSrp(os[0], srpID, false, SetupOf(segs)) && IsLsp(os[1], plspID, name, None) && IsRoute(os[2], segs)
  }

  /** The PCC can be sent this: names and routes that fit 16-bit lengths, and segments whose bytes are
      as long as they say. */
  predicate CanBeSent(a: Initiate) {
    if a.lspDelete then a.plspID < 0x10_0000 && Fitting(NewLspObject(a.name, Some(a.color), a.plspID), [])
    else
      && SameFamily(a.src, a.dst) && (a.pcc.JuniperLegacy? ==> a.dst.V4?)
      && Fitting(NewLspObject(a.name, Some(a.color), 0), a.segs)
      && forall seg | seg in a.segs :: EroRoundTrip.Sendable(seg) && EroRoundTrip.Framed(seg)
  }

  lemma {:induction false} CreationObjects(a: Initiate)
    requires !a.lspDelete && SameFamily(a.src, a.dst) && (a.pcc.JuniperLegacy? ==> a.dst.V4?) && NewRoute(a.segs).Some?
    ensures NewPCInitiate(a).Some? && NewAssociationObject(a.src, a.dst, a.color, a.preference, a.pcc, a.asn).Some?
    ensures forall os: seq<Object> | NewPCInitiate(a) == Some(os) ::
              && |os| == (if a.pcc.RFCCompliant? then 6 else 5)
              && os[2] == EndpointsObject(NewEndpointsObject(a.dst, a.src).value)
              && os[4] == (if a.pcc.CiscoLegacy? then VendorObject(NewVendorInformationObject(a.color, a.preference))
                           else AssociationObject(NewAssociationObject(a.src, a.dst, a.color, a.preference, a.pcc, a.asn).value))
              && (a.pcc.RFCCompliant? ==> os[5] == VendorObject(NewVendorInformationObject(a.color, a.preference)))
  {
    AssociationExists(a.src, a.dst, a.color, a.preference, a.pcc, a.asn);
  }

  lemma {:induction false} RawsAreOfObjects(os: seq<Object>)
    requires forall o | o in os :: Typed(o) && BodyOf(o).Some?
    ensures |RawsOf(os)| == |os| && forall i | 0 <= i < |os| :: BodyOf(os[i]).Some? && RawsOf(os)[i] == RawOf(os[i])
  {
    assert forall i | 0 <= i < |os| :: os[i] in os;
  }

  lemma {:induction false} CreationFront(a: Initiate, os: seq<Object>)
    requires !a.lspDelete && CanBeSent(a) && NewPCInitiate(a) == Some(os) && forall o | o in os :: BodyOf(o).Some?
    ensures IsCreation(RawsOf(os), a)
  {
    SrpSays(a.segs, a.srpID, false);
    LspSays(a.name, Some(a.color), 0);
    EndpointsSay(a.src, a.dst);
    RouteSays(a.segs);
    InitiateOrder(a);
    CreationObjects(a);
    RawsAreOfObjects(os);
  }

  lemma {:induction false} CreationColor(a: Initiate, os: seq<Object>)
    requires !a.lspDelete && CanBeSent(a) && NewPCInitiate(a) == Some(os) && forall o | o in os :: BodyOf(o).Some?
    ensures IsColored(RawsOf(os), a)
  {
    RouteSays(a.segs);
    CreationObjects(a);
    RawsAreOfObjects(os);
    VendorSays(a.color, a.preference);
    if a.pcc.JuniperLegacy? { JuniperAssociationSays(a); } else { AssociationSays(a); }
  }

  lemma {:induction false} DeletionSays(a: Initiate)
    requires a.lspDelete && CanBeSent(a)
    ensures NewPCInitiate(a).Some? && forall o | o in NewPCInitiate(a).value :: BodyOf(o).Some?
    ensures IsDeletion(RawsOf(NewPCInitiate(a).value), a)
  {
    DeletionArrives(a);
    SrpSays(a.segs, a.srpID, true);
    LspSays(a.name, Some(a.color), a.plspID);
    RawsAreOfObjects(NewPCInitiate(a).value);
  }

  lemma {:induction false} UpdateSays(srpID: u32, name: bytes, plspID: u32, segs: seq<Segment>)
    requires plspID < 0x10_0000 && Fitting(NewLspObject(name, None, plspID), segs)
    requires forall seg | seg in segs :: EroRoundTrip.Sendable(seg) && EroRoundTrip.Framed(seg)
    ensures NewPCUpd(srpID, name, plspID, segs).Some? && forall o | o in NewPCUpd(srpID, name, plspID, segs).value :: BodyOf(o).Some?
    ensures IsUpdate(RawsOf(NewPCUpd(srpID, name, plspID, segs).value), srpID, name, plspID, segs)
  {
    UpdateArrives(srpID, name, plspID, segs);
    SrpSays(segs, srpID, false);
    LspSays(name, None, plspID);
    RouteSays(segs);
    RawsAreOfObjects(NewPCUpd(srpID, name, plspID, segs).value);
  }

  // ----- what a session sends

  /** Type 12 (PCInitiate) or 11 (PCUpd), and objects that the peer finds by their lengths. */
  ghost predicate Holds(b: bytes, typ: byte, os: seq<RawObject>) {
    |b| >= 4 && b[0] == 32 && b[1] == typ && Objects.Objects(b[4..]) == Some(os)
  }

  lemma {:induction false} MessageBegins(typ: byte, os: seq<Object>)
    requires forall o | o in os :: Typed(o)
    ensures forall b | SerializeMessage(typ, os) == Some(b) :: |b| >= 4 && b[0] == 32 && b[1] == typ
  {
  }

  /** The request for a policy. */
  function RequestFor(setup: Setup, id: u32, p: Policy, lspDelete: bool): (a: Initiate)
    ensures a.srpID == id && a.name == p.name && a.lspDelete == lspDelete && a.plspID == p.plspID && a.segs == p.segs
    ensures a.color == p.color && a.preference == p.preference && a.src == p.src && a.dst == p.dst
    ensures a.pcc == setup.pcc && a.asn == setup.asn
  {
    Initiate(id, p.name, lspDelete, p.plspID, p.segs, p.color, p.preference, p.src, p.dst, setup.pcc, setup.asn)
  }

  /** A policy's creation, as the peer reads it. */
  lemma {:induction false} CreationReachesPeer(setup: Setup, id: u32, p: Policy)
    requires CanBeSent(RequestFor(setup, id, p, false))
    ensures exists b, os :: InitiateMessage(setup, id, p, false) == Some(b) && Holds(b, 12, os)
                            && IsCreation(os, RequestFor(setup, id, p, false)) && IsColored(os, RequestFor(setup, id, p, false))
  {
    var a := RequestFor(setup, id, p, false);
    InitiateArrives(a);
    var os := NewPCInitiate(a).value;
    CreationFront(a, os);
    CreationColor(a, os);
    MessageBegins(12, os);
    var b := SerializeMessage(MESSAGE_LSP_INIT_REQ, os).value;
    assert InitiateMessage(setup, id, p, false) == Some(b) && Holds(b, 12, RawsOf(os));
  }

  /** And its deletion. */
  lemma {:induction false} DeletionReachesPeer(setup: Setup, id: u32, p: Policy)
    requires CanBeSent(RequestFor(setup, id, p, true))
    ensures exists b, os :: InitiateMessage(setup, id, p, true) == Some(b) && Holds(b, 12, os) && IsDeletion(os, RequestFor(setup, id, p, true))
  {
    var a := RequestFor(setup, id, p, true);
    DeletionArrives(a);
    DeletionSays(a);
    var os := NewPCInitiate(a).value;
    MessageBegins(12, os);
    var b := SerializeMessage(MESSAGE_LSP_INIT_REQ, os).value;
    assert InitiateMessage(setup, id, p, true) == Some(b) && Holds(b, 12, RawsOf(os));
  }

  /** An update of a policy, as the peer reads it. */
  lemma {:induction false} UpdateReachesPeer(id: u32, p: Policy)
    requires p.plspID < 0x10_0000 && Fitting(NewLspObject(p.name, None, p.plspID), p.segs)
    requires forall seg | seg in p.segs :: EroRoundTrip.Sendable(seg) && EroRoundTrip.Framed(seg)
    ensures exists b, os :: UpdateMessage(id, p) == Some(b) && Holds(b, 11, os) && IsUpdate(os, id, p.name, p.plspID, p.segs)
  {
    UpdateArrives(id, p.name, p.plspID, p.segs);
    UpdateSays(id, p.name, p.plspID, p.segs);
    var os := NewPCUpd(id, p.name, p.plspID, p.segs).value;
    MessageBegins(11, os);
    var b := SerializeMessage(MESSAGE_UPDATE, os).value;
    assert UpdateMessage(id, p) == Some(b) && Holds(b, 11, RawsOf(os));
  }
}
