/** What the entry of a policy says after a report about it, field by field, in terms of the report
    (pkg/server/session.go, pkg/table/sr_policy.go). */
module PolicyFields {
  import opened Bytes
  import opened IntentMachine
  import opened Netip
  import opened Reports
  import opened Requests
  import opened Segments
  import opened SessionRuns
  import opened Sessions
  import opened Tlv
  import opened Wrappers
  import Ero
  import Objects
  import Ted

  // ----- the first TLV that says something

  predicate IsFirst(ts: seq<Tlv>, says: Tlv -> bool, i: nat) {
    i < |ts| && says(ts[i]) && forall j | 0 <= j < i :: !says(ts[j])
  }

  /** `x` is what the first TLV that says something says, or the default if none does. */
  ghost predicate IsFirstSaid<T(!new)>(ts: seq<Tlv>, says: Tlv -> bool, value: Tlv -> T, default: T, x: T) {
    || (exists i: nat :: IsFirst(ts, says, i) && value(ts[i]) == x)
    || ((forall t | t in ts :: !says(t)) && x == default)
  }

  lemma {:induction false} SaidFirst<T(!new)>(ts: seq<Tlv>, says: Tlv -> bool, value: Tlv -> T, default: T, x: T)
    requires ts != [] && says(ts[0]) && value(ts[0]) == x
    ensures IsFirstSaid(ts, says, value, default, x)
  {
    assert IsFirst(ts, says, 0);
  }

  lemma {:induction false} SaidLater<T(!new)>(ts: seq<Tlv>, says: Tlv -> bool, value: Tlv -> T, default: T, x: T)
    requires ts != [] && !says(ts[0]) && IsFirstSaid(ts[1..], says, value, default, x)
    ensures IsFirstSaid(ts, says, value, default, x)
  {
    if i: nat :| IsFirst(ts[1..], says, i) && value(ts[1..][i]) == x {
      assert IsFirst(ts, says, i + 1);
    } else {
      assert forall t | t in ts :: t == ts[0] || t in ts[1..];
    }
  }

  /** The first four bytes, the most significant one first. */
  function BigEndian(v: bytes): u32 {
    if |v| < 4 then 0
    else
      var a: int, b: int, c: int, d: int := v[0], v[1], v[2], v[3];
      a * 0x100_0000 + b * 0x1_0000 + c * 0x100 + d
  }

  /** A color: of an association ID, or the one that Juniper's unparsed ID (type 0xffe3) begins with. */
  predicate SaysColor(t: Tlv) {
    t.ExtendedAssociationID? || t.ExtendedAssociationIDJuniper? || (t.UnknownTLV? && t.typ == 0xffe3 && |t.value| >= 4)
  }

  function ColorSaid(t: Tlv): u32 {
    match t
    case ExtendedAssociationID(c, _) => c
    case ExtendedAssociationIDJuniper(c, _) => c
    case UnknownTLV(_, _, v) => BigEndian(v)
    case _ => 0
  }

  predicate SaysPreference(t: Tlv) {
    t.CPathPreference? || t.CPathPreferenceJuniper? || (t.UnknownTLV? && t.typ == 0xffe5 && |t.value| >= 4)
  }

  function PreferenceSaid(t: Tlv): u32 {
    match t
    case CPathPreference(p) => p
    case CPathPreferenceJuniper(p) => p
    case UnknownTLV(_, _, v) => BigEndian(v)
    case _ => 0
  }

  predicate SaysEndpoint(t: Tlv) {
    t.ExtendedAssociationID? || t.ExtendedAssociationIDJuniper?
  }

  function EndpointSaid(t: Tlv): Addr {
    match t
    case ExtendedAssociationID(_, e) => e
    case ExtendedAssociationIDJuniper(_, e) => e
    case _ => Invalid
  }

  lemma {:induction false} AssociationColorIsFirst(ts: seq<Tlv>)
    ensures IsFirstSaid(ts, SaysColor, ColorSaid, 0, AssociationColor(ts))
  {
    if ts != [] {
      if SaysColor(ts[0]) {
        SaidFirst(ts, SaysColor, ColorSaid, 0, AssociationColor(ts));
      } else {
        AssociationColorIsFirst(ts[1..]);
        SaidLater(ts, SaysColor, ColorSaid, 0, AssociationColor(ts));
      }
    }
  }

  lemma {:induction false} AssociationPreferenceIsFirst(ts: seq<Tlv>)
    ensures IsFirstSaid(ts, SaysPreference, PreferenceSaid, 0, AssociationPreference(ts))
  {
    if ts != [] {
      if SaysPreference(ts[0]) {
        SaidFirst(ts, SaysPreference, PreferenceSaid, 0, AssociationPreference(ts));
      } else {
        AssociationPreferenceIsFirst(ts[1..]);
        SaidLater(ts, SaysPreference, PreferenceSaid, 0, AssociationPreference(ts));
      }
    }
  }

  lemma {:induction false} AssociationEndpointIsFirst(ts: seq<Tlv>)
    ensures IsFirstSaid(ts, SaysEndpoint, EndpointSaid, Invalid, AssociationEndpoint(ts))
  {
    if ts != [] {
      if SaysEndpoint(ts[0]) {
        SaidFirst(ts, SaysEndpoint, EndpointSaid, Invalid, AssociationEndpoint(ts));
      } else {
        AssociationEndpointIsFirst(ts[1..]);
        SaidLater(ts, SaysEndpoint, EndpointSaid, Invalid, AssociationEndpoint(ts));
      }
    }
  }

  function HasType(typ: u16): Tlv -> bool {
    (t: Tlv) => t.UnknownTLV? && t.typ == typ
  }

  function NumberSaid(t: Tlv): u32 {
    if t.UnknownTLV? then BigEndian(t.value) else 0
  }

  lemma {:induction false} VendorNumberIsFirst(ts: seq<Tlv>, typ: u16)
    ensures IsFirstSaid(ts, HasType(typ), NumberSaid, 0, VendorU32(ts, typ))
  {
    if ts != [] {
      if HasType(typ)(ts[0]) {
        SaidFirst(ts, HasType(typ), NumberSaid, 0, VendorU32(ts, typ));
      } else {
        VendorNumberIsFirst(ts[1..], typ);
        SaidLater(ts, HasType(typ), NumberSaid, 0, VendorU32(ts, typ));
      }
    }
  }

  predicate IsColor(t: Tlv) { t.Color? }

  function LspColorSaid(t: Tlv): u32 { if t.Color? then t.color else 0 }

  lemma {:induction false} LspColorIsFirst(ts: seq<Tlv>)
    ensures IsFirstSaid(ts, IsColor, LspColorSaid, 0, LspColor(ts))
  {
    if ts != [] {
      if IsColor(ts[0]) {
        SaidFirst(ts, IsColor, LspColorSaid, 0, LspColor(ts));
      } else {
        LspColorIsFirst(ts[1..]);
        SaidLater(ts, IsColor, LspColorSaid, 0, LspColor(ts));
      }
    }
  }

  // ----- what a report says of a policy

  /** Operational state 0 is down, 1 up, 2 active; other values are not known. */
  predicate IsState(oFlag: byte, state: PolicyState) {
    match state
    case Down => oFlag == 0
    case Up => oFlag == 1
    case Active => oFlag == 2
    case Unknown => oFlag > 2
  }

  /** For Cisco's legacy PCC the color is in its vendor information (TLV 1). For others it is the
      association's; if that is 0, and the PCC announced colors, the LSP's. */
  ghost predicate IsColorOf(setup: Setup, r: Report, c: u32) {
    if setup.pcc.CiscoLegacy? then IsFirstSaid(r.vendor.tlvs, HasType(1), NumberSaid, 0, c)
    else
      || (c != 0 && IsFirstSaid(r.association.tlvs, SaysColor, ColorSaid, 0, c))
      || (IsFirstSaid(r.association.tlvs, SaysColor, ColorSaid, 0, 0)
          && if setup.pccHasColor then IsFirstSaid(r.lsp.tlvs, IsColor, LspColorSaid, 0, c) else c == 0)
  }

  ghost predicate IsPreferenceOf(setup: Setup, r: Report, p: u32) {
    if setup.pcc.CiscoLegacy? then IsFirstSaid(r.vendor.tlvs, HasType(3), NumberSaid, 0, p)
    else IsFirstSaid(r.association.tlvs, SaysPreference, PreferenceSaid, 0, p)
  }

  /** The hops that are segments, in order. */
  function SegmentsOf(hops: seq<Ero.Subobject>): seq<Segment> {
    if hops == [] then [] else (if hops[0].RSVPIPv4Prefix? then [] else [hops[0].segment]) + SegmentsOf(hops[1..])
  }

  ghost predicate Says(setup: Setup, r: Report, p: Policy) {
    && p.plspID == r.lsp.plspID && p.name == r.lsp.name && p.lspID == r.lsp.lspID && p.segs == SegmentsOf(r.ero.hops)
    && IsState(r.lsp.oFlag, p.state) && IsColorOf(setup, r, p.color) && IsPreferenceOf(setup, r, p.preference)
  }

  /** The LSP's address if it has one, else the association's. */
  ghost predicate IsSourceOf(r: Report, a: Addr) {
    a == if r.lsp.src.Invalid? then r.association.assocSrc else r.lsp.src
  }

  ghost predicate IsDestinationOf(r: Report, a: Addr) {
    if r.lsp.dst.Invalid? then IsFirstSaid(r.association.tlvs, SaysEndpoint, EndpointSaid, Invalid, a) else a == r.lsp.dst
  }

  /** Type and Metric are those of the intent outstanding for the report's SRP-ID, or as given. */
  predicate TypeIs(s: Session, r: Report, p: Policy, polType: PolicyType, metric: Ted.MetricType) {
    if r.srp.srpID != 0 && r.srp.srpID in s.intents
    then p.polType == s.intents[r.srp.srpID].polType && p.metric == s.intents[r.srp.srpID].metric
    else p.polType == polType && p.metric == metric
  }

  /** The entry after a report that is newer or as new: what the report says; the endpoints it had. */
  ghost predicate IsUpdated(setup: Setup, s: Session, r: Report, p: Policy, q: Policy) {
    Says(setup, r, q) && q.src == p.src && q.dst == p.dst && TypeIs(s, r, q, p.polType, p.metric)
  }

  ghost predicate IsCreated(setup: Setup, s: Session, r: Report, q: Policy) {
    && Says(setup, r, q) && IsSourceOf(r, q.src) && IsDestinationOf(r, q.dst) && q.src.IsValid() && q.dst.IsValid()
    && TypeIs(s, r, q, UnknownType, Ted.Unspecified)
  }

  ghost predicate LacksEndpoint(r: Report) {
    IsSourceOf(r, Invalid) || IsDestinationOf(r, Invalid)
  }

  /** The list after a report: its entry is updated unless it is newer, or created unless an endpoint is
      missing; without segments nothing happens; all other entries stay. */
  ghost predicate IsRegistered(setup: Setup, s: Session, r: Report, after: seq<Policy>) {
    var k := r.lsp.plspID;
    && (forall j: u32 | j != k :: Lookup(after, j) == Lookup(s.policies, j))
    && if SegmentsOf(r.ero.hops) == [] then Lookup(after, k) == Lookup(s.policies, k)
       else
         match (Lookup(s.policies, k), Lookup(after, k))
         case (Some(p), Some(q)) => if p.lspID > r.lsp.lspID then q == p else IsUpdated(setup, s, r, p, q)
         case (None, Some(q)) => IsCreated(setup, s, r, q)
         case (None, None) => LacksEndpoint(r)
         case (Some(_), None) => false
  }

  lemma {:induction false} SegmentsAreThoseOf(hops: seq<Ero.Subobject>)
    ensures Ero.ToSegmentList(hops) == SegmentsOf(hops)
  {
    if hops != [] {
      SegmentsAreThoseOf(hops[1..]);
    }
  }

  lemma {:induction false} DiffSays(setup: Setup, r: Report, p: Policy)
    requires var d := DiffOf(setup, r);
             && p.plspID == r.lsp.plspID && p.name == d.name && p.color == d.color && p.preference == d.preference && p.segs == d.segs
             && p.lspID == d.lspID && p.state == d.state
    ensures Says(setup, r, p)
  {
    SegmentsAreThoseOf(r.ero.hops);
    VendorNumberIsFirst(r.vendor.tlvs, 1);
    VendorNumberIsFirst(r.vendor.tlvs, 3);
    AssociationColorIsFirst(r.association.tlvs);
    AssociationPreferenceIsFirst(r.association.tlvs);
    LspColorIsFirst(r.lsp.tlvs);
  }

  lemma {:induction false} EndpointsAreThoseOf(r: Report)
    ensures IsSourceOf(r, SourceOf(r)) && IsDestinationOf(r, DestinationOf(r))
  {
    AssociationEndpointIsFirst(r.association.tlvs);
  }

  lemma {:induction false} OthersStay(setup: Setup, s: Session, r: Report, j: u32)
    requires Sound(s.policies) && j != r.lsp.plspID
    ensures Lookup(Register(setup, s, r).0.policies, j) == Lookup(s.policies, j)
  {
    RegisterLookup(setup, s, r, j);
    AsMapIsLookup(s.policies, j);
  }

  lemma {:induction false} KnownIsUpdated(setup: Setup, s: Session, r: Report, p: Policy)
    requires Sound(s.policies) && Lookup(s.policies, r.lsp.plspID) == Some(p) && SegmentsOf(r.ero.hops) != []
    ensures Lookup(Register(setup, s, r).0.policies, r.lsp.plspID).Some?
    ensures var q := Lookup(Register(setup, s, r).0.policies, r.lsp.plspID).value;
            if p.lspID > r.lsp.lspID then q == p else IsUpdated(setup, s, r, p, q)
  {
    RegisterLookup(setup, s, r, r.lsp.plspID);
    AsMapIsLookup(s.policies, r.lsp.plspID);
    SegmentsAreThoseOf(r.ero.hops);
    if p.lspID <= r.lsp.lspID {
      DiffSays(setup, r, Lookup(Register(setup, s, r).0.policies, r.lsp.plspID).value);
    }
  }

  lemma {:induction false} UnknownIsCreated(setup: Setup, s: Session, r: Report)
    requires Sound(s.policies) && Lookup(s.policies, r.lsp.plspID).None? && SegmentsOf(r.ero.hops) != []
    ensures match Lookup(Register(setup, s, r).0.policies, r.lsp.plspID)
            case Some(q) => IsCreated(setup, s, r, q)
            case None => LacksEndpoint(r)
  {
    RegisterLookup(setup, s, r, r.lsp.plspID);
    AsMapIsLookup(s.policies, r.lsp.plspID);
    SegmentsAreThoseOf(r.ero.hops);
    EndpointsAreThoseOf(r);
    if Lookup(Register(setup, s, r).0.policies, r.lsp.plspID).Some? {
      DiffSays(setup, r, Lookup(Register(setup, s, r).0.policies, r.lsp.plspID).value);
    }
  }

  /** Registering a report does this. */
  lemma {:induction false} RegisterDoes(setup: Setup, s: Session, r: Report)
    requires Sound(s.policies)
    ensures IsRegistered(setup, s, r, Register(setup, s, r).0.policies)
  {
    forall j: u32 | j != r.lsp.plspID
      ensures Lookup(Register(setup, s, r).0.policies, j) == Lookup(s.policies, j)
    {
      OthersStay(setup, s, r, j);
    }
    SegmentsAreThoseOf(r.ero.hops);
    if SegmentsOf(r.ero.hops) != [] {
      match Lookup(s.policies, r.lsp.plspID)
      case Some(p) => KnownIsUpdated(setup, s, r, p);
      case None => UnknownIsCreated(setup, s, r);
    }
  }

  // ----- handling a report

  /** The report that is registered: as it is when it synchronizes, answers a request or there is no TED;
      with the computed path instead of its route when nobody asked for it. */
  predicate Registers(r: Report, w: World, r': Report) {
    if r.lsp.sFlag then r' == r
    else
      && r.lsp.plspID != 0 && !r.lsp.rFlag
      && if r.srp.srpID != 0 || !w.hasTed then r' == r
         else w.computed.Some? && r'.ero.hops == CreateEro(w.computed.value) && r' == r.(ero := r'.ero) && r'.ero.typ == 1
  }

  /** Whatever report is handled, its policy's entry says afterwards what the report says. */
  lemma {:induction false} HandledIsRegistered(setup: Setup, s: Session, r: Report, w: World, r': Report)
    requires Sound(s.policies) && Registers(r, w, r')
    ensures IsRegistered(setup, s, r', Handle(setup, s, r, w).0.policies)
  {
    RegisterDoes(setup, s, r');
    HandleRegisters(setup, s, r, w, r');
  }

  lemma {:induction false} HandleRegisters(setup: Setup, s: Session, r: Report, w: World, r': Report)
    requires Registers(r, w, r')
    ensures Handle(setup, s, r, w).0.policies == Register(setup, s, r').0.policies
  {
    if r.lsp.sFlag || r.srp.srpID != 0 || !w.hasTed {
      assert r' == r;
    } else {
      assert r' == r.(ero := Objects.Route(1, CreateEro(w.computed.value)));
    }
  }
}
