/** The requests a PCE sends, PCInitiate (section 5.1 of RFC 8281) and PCUpd (section 6.2 of
    RFC 8231), from the arguments of their constructors to what the peer reads. */
module Requests {
  import opened Bytes
  import opened Netip
  import opened Wrappers
  import opened Segments
  import opened Objects
  import opened Tlv
  import opened TlvFrames
  import opened Messages
  import TlvRoundTrip
  import ObjectRoundTrip
  import Ero
  import EroRoundTrip

  datatype PccType = CiscoLegacy | JuniperLegacy | RFCCompliant

  const PATH_SETUP_SR_TE: byte := 0x01
  const PATH_SETUP_SRV6_TE: byte := 0x03
  const SR_POLICY_ASSOCIATION: u16 := 0x06
  const SR_POLICY_ASSOCIATION_JUNIPER: u16 := 0xffe1
  const PROTOCOL_ORIGIN_PCEP: byte := 0x0a
  const CISCO: u32 := 9
  const CISCO_COLOR: u16 := 0x01
  const CISCO_PREFERENCE: u16 := 0x03

  function NewSrpObject(segs: seq<Segment>, srpID: u32, isRemove: bool): Srp {
    Srp(1, isRemove, srpID,
        if segs == [] then [] else [PathSetupType(if segs[0].SRMPLS? then PATH_SETUP_SR_TE else PATH_SETUP_SRV6_TE)])
  }

  function NewLspObject(name: bytes, color: Option<u32>, plspID: u32): Lsp {
    Lsp(1, name, Invalid, Invalid, plspID, 0, true, 1, true, false, false, true,
        [SymbolicPathName(name)] + if color.Some? then [Color(color.value)] else [])
  }

  function NewEndpointsObject(dst: Addr, src: Addr): Option<Endpoints> {
    if dst.Is4() && src.Is4() then Some(Endpoints(1, src, dst))
    else if dst.Is6() && src.Is6() then Some(Endpoints(2, src, dst))
    else None
  }

  function NewAssociationObject(src: Addr, dst: Addr, color: u32, preference: u32, pcc: PccType, asn: u32): Option<Association> {
    if !((dst.Is4() && src.Is4()) || (dst.Is6() && src.Is6())) then None
    else
      var typ := if dst.Is4() then 1 else 2;
      if pcc.JuniperLegacy? then
        if !dst.Is4() then None
        else Some(Association(typ, false, SR_POLICY_ASSOCIATION_JUNIPER, 0, src,
                              [ExtendedAssociationIDJuniper(color, dst),
                               CPathIdentifierJuniper(CPath(PROTOCOL_ORIGIN_PCEP, asn, V4([0, 0, 0, 0]), 1)),
                               CPathPreferenceJuniper(preference)]))
      else Some(Association(typ, false, SR_POLICY_ASSOCIATION, 1, src,
                            [ExtendedAssociationID(color, dst),
                             CPathIdentifier(CPath(PROTOCOL_ORIGIN_PCEP, asn, dst, 1)),
                             CPathPreference(preference)]))
  }

  function NewVendorInformationObject(color: u32, preference: u32): VendorInfo {
    VendorInfo(1, CISCO, [UnknownTLV(CISCO_COLOR, 4, U32Bytes(color)), UnknownTLV(CISCO_PREFERENCE, 4, U32Bytes(preference))])
  }

  function NewRoute(segs: seq<Segment>): (r: Option<Route>)
    ensures r.Some? ==> forall h | h in r.value.hops :: Ero.Typed(h)
  {
    match Ero.NewEroSubobjects(segs)
    case None => None
    case Some(hops) => Some(Route(1, hops))
  }

  /** The arguments of `NewPCInitiateMessage`. */
  datatype Initiate = Initiate(srpID: u32, name: bytes, lspDelete: bool, plspID: u32, segs: seq<Segment>, color: u32,
                               preference: u32, src: Addr, dst: Addr, pcc: PccType, asn: u32)

  /** The objects of the message in the order `Serialize` writes them. */
  function NewPCInitiate(a: Initiate): (r: Option<seq<Object>>)
    ensures r.Some? ==> forall o | o in r.value :: Typed(o)
  {
    var srp := SrpObject(NewSrpObject(a.segs, a.srpID, a.lspDelete));
    if a.lspDelete then Some([srp, LspObject(NewLspObject(a.name, Some(a.color), a.plspID))])
    else
      var lsp := LspObject(NewLspObject(a.name, Some(a.color), 0));
      match (NewEndpointsObject(a.dst, a.src), NewRoute(a.segs))
      case (Some(endpoints), Some(route)) =>
        var front := [srp, lsp, EndpointsObject(endpoints), RouteObject(route)];
        var vendor := VendorObject(NewVendorInformationObject(a.color, a.preference));
        if a.pcc.CiscoLegacy? then Some(front + [vendor])
        else
          (match NewAssociationObject(a.src, a.dst, a.color, a.preference, a.pcc, a.asn)
           case None => None
           case Some(association) =>
             Some(front + [AssociationObject(association)] + if a.pcc.RFCCompliant? then [vendor] else []))
      case _ => None
  }

  function NewPCUpd(srpID: u32, name: bytes, plspID: u32, segs: seq<Segment>): (r: Option<seq<Object>>)
    ensures r.Some? ==> forall o | o in r.value :: Typed(o)
  {
    match NewRoute(segs)
    case None => None
    case Some(route) =>
      Some([SrpObject(NewSrpObject(segs, srpID, false)), LspObject(NewLspObject(name, None, plspID)), RouteObject(route)])
  }

  // ----- the parts

  predicate SameFamily(a: Addr, b: Addr) {
    (a.V4? && b.V4?) || (a.V6? && b.V6?)
  }

  /** Name and route fit the 16-bit lengths of their objects, and the name is text. */
  predicate Fitting(lsp: Lsp, segs: seq<Segment>) {
    && |LspBody(lsp)| + 4 < 0x1_0000
    && TlvRoundTrip.AllWellFormed(lsp.tlvs)
    && match EroRoundTrip.Encode(segs) case None => true case Some(body) => |body| + 4 < 0x1_0000
  }

  lemma {:induction false} HopsAreOnTheWire(segs: seq<Segment>)
    requires forall seg | seg in segs :: EroRoundTrip.Sendable(seg) && EroRoundTrip.Framed(seg)
    ensures Ero.NewEroSubobjects(segs).Some?
    ensures forall h | h in Ero.NewEroSubobjects(segs).value :: EroRoundTrip.OnTheWire(h)
  {
    if segs != [] {
      EroRoundTrip.OneEncodes(segs[0]);
      HopsAreOnTheWire(segs[1..]);
      var hops := Ero.NewEroSubobjects(segs).value;
      assert hops[1..] == Ero.NewEroSubobjects(segs[1..]).value;
    }
  }

  /** The route object of framed segments, and what its body is read as. */
  lemma {:induction false} RouteArrives(segs: seq<Segment>)
    requires forall seg | seg in segs :: EroRoundTrip.Sendable(seg) && EroRoundTrip.Framed(seg)
    requires match EroRoundTrip.Encode(segs) case None => true case Some(body) => |body| + 4 < 0x1_0000
    ensures NewRoute(segs).Some? && IsWire(RouteObject(NewRoute(segs).value))
    ensures forall body | BodyOf(RouteObject(NewRoute(segs).value)) == Some(body) ::
              EroRoundTrip.Decode(body) == Some(EroRoundTrip.OnWireAll(segs))
  {
    EroRoundTrip.FramedListArrives(segs);
    HopsAreOnTheWire(segs);
  }

  lemma SrpArrives(segs: seq<Segment>, srpID: u32, isRemove: bool)
    ensures var srp := NewSrpObject(segs, srpID, isRemove);
            && IsWire(SrpObject(srp))
            && DecodeSrp(srp.typ, SrpBody(srp)) == Some(srp)
  {
    var srp := NewSrpObject(segs, srpID, isRemove);
    ObjectRoundTrip.SrpRoundTrip(srp);
    TlvRoundTrip.WellFormedIsFramable(srp.tlvs);
    if segs != [] {
      assert srp.tlvs[1..] == [];
      assert |SerializeAll(srp.tlvs)| == 8;
    }
  }

  lemma LspFieldsRepeat(name: bytes, color: Option<u32>, plspID: u32)
    ensures ObjectRoundTrip.FieldsFromTlvs(NewLspObject(name, color, plspID))
  {
    var lsp := NewLspObject(name, color, plspID);
    var bare := lsp.(name := [], src := Invalid, dst := Invalid, lspID := 0);
    assert lsp.tlvs[0] == SymbolicPathName(name);
    assert LspFields(bare, lsp.tlvs) == LspFields(lsp, lsp.tlvs[1..]);
    if color.Some? {
      assert lsp.tlvs[1..] == [Color(color.value)];
      assert [Color(color.value)][1..] == [];
    } else {
      assert lsp.tlvs[1..] == [];
    }
  }

  lemma LspArrives(name: bytes, color: Option<u32>, plspID: u32)
    requires var lsp := NewLspObject(name, color, plspID);
             |LspBody(lsp)| + 4 < 0x1_0000 && TlvRoundTrip.AllWellFormed(lsp.tlvs)
    ensures var lsp := NewLspObject(name, color, plspID);
            && IsWire(LspObject(lsp))
            && (DecodeLsp(NO_LSP, lsp.typ, LspBody(lsp)) == Done(lsp) <==> plspID < 0x10_0000)
  {
    var lsp := NewLspObject(name, color, plspID);
    TlvRoundTrip.WellFormedIsFramable(lsp.tlvs);
    LspFieldsRepeat(name, color, plspID);
    ObjectRoundTrip.LspRoundTrip(lsp);
  }

  lemma FourBytesAreEight(typ: u16, x: u32)
    ensures |Serialize(UnknownTLV(typ, 4, U32Bytes(x)))| == 8
  {
  }

  lemma VendorIsWire(color: u32, preference: u32)
    ensures IsWire(VendorObject(NewVendorInformationObject(color, preference)))
  {
    var tlvs := NewVendorInformationObject(color, preference).tlvs;
    assert tlvs[1..][1..] == [];
    FourBytesAreEight(CISCO_COLOR, color);
    FourBytesAreEight(CISCO_PREFERENCE, preference);
    assert SerializeAll(tlvs[1..]) == Serialize(tlvs[1]) + SerializeAll(tlvs[1..][1..]);
    assert SerializeAll(tlvs) == Serialize(tlvs[0]) + SerializeAll(tlvs[1..]);
  }

  lemma ThreeTlvs(ts: seq<Tlv>)
    requires |ts| == 3
    ensures |SerializeAll(ts)| == |Serialize(ts[0])| + |Serialize(ts[1])| + |Serialize(ts[2])|
  {
    assert ts[1..][0] == ts[1] && ts[1..][1..][0] == ts[2] && ts[1..][1..][1..] == [];
    assert SerializeAll(ts[1..][1..]) == Serialize(ts[2]) + SerializeAll(ts[1..][1..][1..]);
    assert SerializeAll(ts[1..]) == Serialize(ts[1]) + SerializeAll(ts[1..][1..]);
    assert SerializeAll(ts) == Serialize(ts[0]) + SerializeAll(ts[1..]);
  }

  lemma AssociationExists(src: Addr, dst: Addr, color: u32, preference: u32, pcc: PccType, asn: u32)
    ensures NewAssociationObject(src, dst, color, preference, pcc, asn).Some?
            <==> SameFamily(src, dst) && (pcc.JuniperLegacy? ==> dst.V4?)
  {
  }

  /** No TLV of an association is longer than a candidate path identifier. */
  lemma AssociationTlvSize(t: Tlv)
    requires t.ExtendedAssociationID? || t.ExtendedAssociationIDJuniper? || t.CPathIdentifier? || t.CPathIdentifierJuniper?
             || t.CPathPreference? || t.CPathPreferenceJuniper?
    ensures Framable(t) && |Serialize(t)| <= 32
  {
  }

  lemma AssociationIsWire(src: Addr, dst: Addr, color: u32, preference: u32, pcc: PccType, asn: u32)
    ensures forall x | NewAssociationObject(src, dst, color, preference, pcc, asn) == Some(x) :: IsWire(AssociationObject(x))
  {
    if NewAssociationObject(src, dst, color, preference, pcc, asn).Some? {
      var tlvs := NewAssociationObject(src, dst, color, preference, pcc, asn).value.tlvs;
      ThreeTlvs(tlvs);
      AssociationTlvSize(tlvs[0]);
      AssociationTlvSize(tlvs[1]);
      AssociationTlvSize(tlvs[2]);
    }
  }

  // ----- the messages

  /** The objects begin with an SRP, an LSP and, at `at`, a route that are read as these. */
  predicate Carries(raws: seq<RawObject>, srp: Srp, lsp: Lsp, at: nat, segs: seq<Segment>) {
    && 2 <= at < |raws|
    && raws[0].class_ == SRP && DecodeSrp(raws[0].typ, raws[0].body) == Some(srp)
    && raws[1].class_ == LSP && DecodeLsp(NO_LSP, raws[1].typ, raws[1].body) == Done(lsp)
    && raws[at].class_ == ERO && EroRoundTrip.Decode(raws[at].body) == Some(segs)
  }

  /** Which creation requests can be built: an SRv6 segment without a local address fails only when
      the message is serialized. */
  lemma {:induction false} InitiateIsBuiltExactlyWhen(a: Initiate)
    ensures NewPCInitiate(a).Some? <==>
            a.lspDelete ||
            (&& SameFamily(a.src, a.dst) && (a.pcc.JuniperLegacy? ==> a.dst.V4?)
             && forall seg | seg in a.segs :: seg.SRv6? || EroRoundTrip.Sendable(seg))
  {
    AssociationExists(a.src, a.dst, a.color, a.preference, a.pcc, a.asn);
    EroRoundTrip.ConstructsExactlyWhen(a.segs);
  }

  lemma AllParts(os: seq<Object>)
    requires |os| >= 4 && IsWire(os[0]) && IsWire(os[1]) && IsWire(os[3]) && os[0].SrpObject? && os[1].LspObject?
    requires forall o | o in os[2..] :: o.EndpointsObject? || o.RouteObject? || o.AssociationObject? || o.VendorObject?
    requires forall o | o in os :: (o.EndpointsObject? || o.AssociationObject? || o.VendorObject?) ==> IsWire(o)
    requires forall o | o in os :: o.RouteObject? ==> o == os[3]
    ensures forall o | o in os :: IsWire(o)
  {
  }

  /** The objects of a creation request stand in this order. */
  lemma {:induction false} InitiateOrder(a: Initiate)
    requires !a.lspDelete && NewPCInitiate(a).Some?
    ensures NewRoute(a.segs).Some?
    ensures forall os: seq<Object> | NewPCInitiate(a) == Some(os) ::
              && |os| >= 4
              && os[0] == SrpObject(NewSrpObject(a.segs, a.srpID, false))
              && os[1] == LspObject(NewLspObject(a.name, Some(a.color), 0))
              && os[3] == RouteObject(NewRoute(a.segs).value)
  {
  }

  lemma {:induction false} InitiateKinds(a: Initiate)
    requires !a.lspDelete && NewPCInitiate(a).Some?
    ensures forall os: seq<Object> | NewPCInitiate(a) == Some(os) ::
              && |os| >= 4
              && (forall o: Object | o in os[2..] :: o.EndpointsObject? || o.RouteObject? || o.AssociationObject? || o.VendorObject?)
              && (forall o: Object | o in os :: o.RouteObject? ==> o == os[3])
  {
  }

  lemma {:induction false} InitiateWire(a: Initiate)
    requires !a.lspDelete && NewPCInitiate(a).Some?
    ensures forall os: seq<Object> | NewPCInitiate(a) == Some(os) ::
              forall o: Object | o in os :: (o.EndpointsObject? || o.AssociationObject? || o.VendorObject?) ==> IsWire(o)
  {
    AssociationIsWire(a.src, a.dst, a.color, a.preference, a.pcc, a.asn);
    VendorIsWire(a.color, a.preference);
  }

  /** A creation request: the peer finds the SRP-ID, a new LSP of that name, and the segments as
      the wire keeps them. */
  lemma {:induction false} InitiateArrives(a: Initiate)
    requires !a.lspDelete && SameFamily(a.src, a.dst) && (a.pcc.JuniperLegacy? ==> a.dst.V4?)
    requires Fitting(NewLspObject(a.name, Some(a.color), 0), a.segs)
    requires forall seg | seg in a.segs :: EroRoundTrip.Sendable(seg) && EroRoundTrip.Framed(seg)
    ensures NewPCInitiate(a).Some? && forall o | o in NewPCInitiate(a).value :: IsWire(o) && BodyOf(o).Some?
    ensures SerializeMessage(MESSAGE_LSP_INIT_REQ, NewPCInitiate(a).value).Some?
    ensures forall b | SerializeMessage(MESSAGE_LSP_INIT_REQ, NewPCInitiate(a).value) == Some(b) ::
              Walks(b, MESSAGE_LSP_INIT_REQ, RawsOf(NewPCInitiate(a).value))
    ensures Carries(RawsOf(NewPCInitiate(a).value), NewSrpObject(a.segs, a.srpID, false),
                    NewLspObject(a.name, Some(a.color), 0), 3, EroRoundTrip.OnWireAll(a.segs))
  {
    SrpArrives(a.segs, a.srpID, false);
    LspArrives(a.name, Some(a.color), 0);
    RouteArrives(a.segs);
    InitiateIsBuiltExactlyWhen(a);
    InitiateOrder(a);
    InitiateKinds(a);
    InitiateWire(a);
    AllParts(NewPCInitiate(a).value);
    MessageIsWalked(MESSAGE_LSP_INIT_REQ, NewPCInitiate(a).value);
  }

  /** An update request: the peer finds the SRP-ID, the LSP it named, and the segments. */
  lemma {:induction false} UpdateArrives(srpID: u32, name: bytes, plspID: u32, segs: seq<Segment>)
    requires plspID < 0x10_0000 && Fitting(NewLspObject(name, None, plspID), segs)
    requires forall seg | seg in segs :: EroRoundTrip.Sendable(seg) && EroRoundTrip.Framed(seg)
    ensures NewPCUpd(srpID, name, plspID, segs).Some?
    ensures forall o | o in NewPCUpd(srpID, name, plspID, segs).value :: IsWire(o) && BodyOf(o).Some?
    ensures SerializeMessage(MESSAGE_UPDATE, NewPCUpd(srpID, name, plspID, segs).value).Some?
    ensures forall b | SerializeMessage(MESSAGE_UPDATE, NewPCUpd(srpID, name, plspID, segs).value) == Some(b) ::
              Walks(b, MESSAGE_UPDATE, RawsOf(NewPCUpd(srpID, name, plspID, segs).value))
    ensures Carries(RawsOf(NewPCUpd(srpID, name, plspID, segs).value), NewSrpObject(segs, srpID, false),
                    NewLspObject(name, None, plspID), 2, EroRoundTrip.OnWireAll(segs))
  {
    SrpArrives(segs, srpID, false);
    LspArrives(name, None, plspID);
    RouteArrives(segs);
    MessageIsWalked(MESSAGE_UPDATE, NewPCUpd(srpID, name, plspID, segs).value);
  }

  /** A deletion request carries the PLSP-ID and the remove flag, and no route. */
  lemma {:induction false} DeletionArrives(a: Initiate)
    requires a.lspDelete && a.plspID < 0x10_0000 && Fitting(NewLspObject(a.name, Some(a.color), a.plspID), [])
    ensures NewPCInitiate(a).Some? && forall o | o in NewPCInitiate(a).value :: IsWire(o) && BodyOf(o).Some?
    ensures var raws := RawsOf(NewPCInitiate(a).value);
            && |raws| == 2 && raws[0].class_ == SRP && raws[1].class_ == LSP
            && DecodeSrp(raws[0].typ, raws[0].body) == Some(NewSrpObject(a.segs, a.srpID, true))
            && DecodeLsp(NO_LSP, raws[1].typ, raws[1].body) == Done(NewLspObject(a.name, Some(a.color), a.plspID))
    ensures SerializeMessage(MESSAGE_LSP_INIT_REQ, NewPCInitiate(a).value).Some?
    ensures forall b | SerializeMessage(MESSAGE_LSP_INIT_REQ, NewPCInitiate(a).value) == Some(b) ::
              Walks(b, MESSAGE_LSP_INIT_REQ, RawsOf(NewPCInitiate(a).value))
  {
    SrpArrives(a.segs, a.srpID, true);
    LspArrives(a.name, Some(a.color), a.plspID);
    MessageIsWalked(MESSAGE_LSP_INIT_REQ, NewPCInitiate(a).value);
  }
}
