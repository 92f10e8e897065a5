/** A session's policy list and what a state report does to it (pkg/server/session.go,
    pkg/table/sr_policy.go). The computed path, the clock and whether the connection takes a
    message are parameters. `SessionObjects` has the objects that are updated in place. */
module Sessions {
  import opened Bytes
  import opened Netip
  import opened Wrappers
  import opened Segments
  import opened Ted
  import opened IntentMachine
  import opened Reports
  import opened Requests
  import opened SrpId
  import Messages
  import Objects
  import Tlv
  import Ero

  datatype PolicyState = Down | Up | Active | Unknown

  datatype Policy = Policy(
    plspID: u32, name: bytes, segs: seq<Segment>, src: Addr, dst: Addr, color: u32, preference: u32,
    lspID: u16, state: PolicyState, polType: PolicyType, metric: MetricType)

  /** What an update changes. */
  datatype Diff = Diff(name: bytes, color: u32, preference: u32, segs: seq<Segment>, lspID: u16, state: PolicyState)

  /** `SRPolicy.Update` with every optional field given, as its only caller does. */
  function Updated(p: Policy, d: Diff): Policy {
    p.(name := d.name, color := d.color, preference := d.preference, segs := d.segs, lspID := d.lspID, state := d.state)
  }

  /** A request as it went out. */
  datatype Sent =
    | Update(srpID: u32, policy: Policy, message: bytes)
    | Initiation(srpID: u32, policy: Policy, lspDelete: bool, message: bytes)

  datatype Session = Session(
    policies: seq<Policy>, intents: map<u32, Intent>, head: u32, synced: bool, sent: seq<Sent>)

  /** What the session was set up with. */
  datatype Setup = Setup(pcc: PccType, pccHasColor: bool, asn: u32)

  /** What the world answers while a report is handled: the path CSPF computes if there is a TED
      (its inner `None` an error), the time, and whether the connection takes the message. */
  datatype World = World(hasTed: bool, computed: Option<seq<Segment>>, now: int, connected: bool)

  // ----- what a report says

  function AssociationColor(tlvs: seq<Tlv.Tlv>): u32 {
    if tlvs == [] then 0
    else
      match tlvs[0]
      case ExtendedAssociationIDJuniper(color, _) => color
      case ExtendedAssociationID(color, _) => color
      case UnknownTLV(typ, _, value) =>
        if typ == Tlv.EXTENDED_ASSOCIATION_ID_JUNIPER && |value| >= 4 then ReadU32(value, 0) else AssociationColor(tlvs[1..])
      case _ => AssociationColor(tlvs[1..])
  }

  function AssociationPreference(tlvs: seq<Tlv.Tlv>): u32 {
    if tlvs == [] then 0
    else
      match tlvs[0]
      case CPathPreferenceJuniper(preference) => preference
      case CPathPreference(preference) => preference
      case UnknownTLV(typ, _, value) =>
        if typ == Tlv.SRPOLICY_CPATH_PREFERENCE_JUNIPER && |value| >= 4 then ReadU32(value, 0)
        else AssociationPreference(tlvs[1..])
      case _ => AssociationPreference(tlvs[1..])
  }

  function AssociationEndpoint(tlvs: seq<Tlv.Tlv>): Addr {
    if tlvs == [] then Invalid
    else
      match tlvs[0]
      case ExtendedAssociationIDJuniper(_, endpoint) => endpoint
      case ExtendedAssociationID(_, endpoint) => endpoint
      case _ => AssociationEndpoint(tlvs[1..])
  }

  function VendorU32(tlvs: seq<Tlv.Tlv>, typ: u16): u32 {
    if tlvs == [] then 0
    else if tlvs[0].UnknownTLV? && tlvs[0].typ == typ then
      if |tlvs[0].value| < 4 then 0 else ReadU32(tlvs[0].value, 0)
    else VendorU32(tlvs[1..], typ)
  }

  function LspColor(tlvs: seq<Tlv.Tlv>): u32 {
    if tlvs == [] then 0 else if tlvs[0].Color? then tlvs[0].color else LspColor(tlvs[1..])
  }

  function ResolveColor(setup: Setup, r: Report): u32 {
    if setup.pcc.CiscoLegacy? then VendorU32(r.vendor.tlvs, CISCO_COLOR)
    else if AssociationColor(r.association.tlvs) != 0 then AssociationColor(r.association.tlvs)
    else if setup.pccHasColor then LspColor(r.lsp.tlvs)
    else 0
  }

  function ResolvePreference(setup: Setup, r: Report): u32 {
    if setup.pcc.CiscoLegacy? then VendorU32(r.vendor.tlvs, CISCO_PREFERENCE) else AssociationPreference(r.association.tlvs)
  }

  function ResolveState(oFlag: byte): PolicyState {
    if oFlag == 0 then Down else if oFlag == 1 then Up else if oFlag == 2 then Active else Unknown
  }

  function SourceOf(r: Report): Addr {
    if r.lsp.src.IsValid() then r.lsp.src else r.association.assocSrc
  }

  function DestinationOf(r: Report): Addr {
    if r.lsp.dst.IsValid() then r.lsp.dst else AssociationEndpoint(r.association.tlvs)
  }

  function DiffOf(setup: Setup, r: Report): Diff {
    Diff(r.lsp.name, ResolveColor(setup, r), ResolvePreference(setup, r), Ero.ToSegmentList(r.ero.hops),
         r.lsp.lspID, ResolveState(r.lsp.oFlag))
  }

  // ----- the list and the intent table

  /** `searchSRPolicyLocked`: the first entry with the PLSP-ID. */
  function Search(ps: seq<Policy>, plspID: u32): (i: Option<nat>)
    ensures i.Some? ==> i.value < |ps| && ps[i.value].plspID == plspID && forall j | 0 <= j < i.value :: ps[j].plspID != plspID
    ensures i.None? ==> forall p | p in ps :: p.plspID != plspID
    decreases |ps|
  {
    if ps == [] then None
    else if ps[0].plspID == plspID then Some(0)
    else (match Search(ps[1..], plspID) case None => None case Some(i) => Some(i + 1))
  }

  /** `takeSRPolicyIntent`: SRP-ID 0 never has one. */
  function IntentOf(intents: map<u32, Intent>, srpID: u32): Option<Intent> {
    if srpID != 0 && srpID in intents then Some(intents[srpID]) else None
  }

  function Without(intents: map<u32, Intent>, srpID: u32): map<u32, Intent> {
    if srpID == 0 then intents else intents - {srpID}
  }

  function WithIntent(p: Policy, i: Option<Intent>): Policy {
    match i case None => p case Some(intent) => p.(polType := intent.polType, metric := intent.metric)
  }

  /** `RegisterSRPolicy`: update the entry if the report is not older, create one if there is none.
      The flag is the absence of an error. */
  function Register(setup: Setup, s: Session, r: Report): (Session, bool) {
    var d := DiffOf(setup, r);
    var intent := IntentOf(s.intents, r.srp.srpID);
    var taken := Without(s.intents, r.srp.srpID);
    if d.segs == [] then (s, false)
    else
      match Search(s.policies, r.lsp.plspID)
      case Some(i) =>
        var p := s.policies[i];
        if p.lspID <= d.lspID then
          (s.(policies := s.policies[i := WithIntent(Updated(p, d), intent)], intents := taken), true)
        else (s, true)
      case None =>
        if !SourceOf(r).IsValid() || !DestinationOf(r).IsValid() then (s, false)
        else
          var p := Policy(r.lsp.plspID, d.name, d.segs, SourceOf(r), DestinationOf(r), d.color, d.preference,
                          d.lspID, d.state, UnknownType, Unspecified);
          (s.(policies := s.policies + [WithIntent(p, intent)], intents := taken), true)
  }

  /** The first entry with the PLSP-ID and an LSP-ID that is not newer. */
  function SearchOld(ps: seq<Policy>, plspID: u32, lspID: u16): (i: Option<nat>)
    ensures i.Some? ==> i.value < |ps| && ps[i.value].plspID == plspID && ps[i.value].lspID <= lspID
                        && forall j | 0 <= j < i.value :: !(ps[j].plspID == plspID && ps[j].lspID <= lspID)
    ensures i.None? ==> forall p | p in ps :: p.plspID == plspID ==> p.lspID > lspID
    decreases |ps|
  {
    if ps == [] then None
    else if ps[0].plspID == plspID && ps[0].lspID <= lspID then Some(0)
    else (match SearchOld(ps[1..], plspID, lspID) case None => None case Some(i) => Some(i + 1))
  }

  /** The last entry takes the place of entry `i`. */
  function SwapDelete<T>(xs: seq<T>, i: nat): seq<T>
    requires i < |xs|
  {
    xs[i := xs[|xs| - 1]][..|xs| - 1]
  }

  /** `DeleteSRPolicy`. */
  function Delete(s: Session, r: Report): Session {
    match SearchOld(s.policies, r.lsp.plspID, r.lsp.lspID)
    case None => s
    case Some(i) => s.(policies := SwapDelete(s.policies, i), intents := Without(s.intents, r.srp.srpID))
  }

  // ----- sending an update

  /** A free SRP-ID: in range and without an outstanding intent. */
  predicate IsFree(s: Session, id: nat) {
    1 <= id < MAX_SRP_ID && id !in s.intents
  }

  /** The first free SRP-ID of the cycle, `k` steps from the head. */
  function FirstFree(s: Session, k: nat): (id: Option<u32>)
    ensures id.Some? ==> IsFree(s, id.value)
    decreases MAX_SRP_ID - k
  {
    if k >= MAX_SRP_ID - 1 then None
    else if CyclicAt(s.head, MAX_SRP_ID, k) !in s.intents then Some(CyclicAt(s.head, MAX_SRP_ID, k))
    else FirstFree(s, k + 1)
  }

  /** The bytes of the update, if it can be built. */
  function UpdateMessage(id: u32, p: Policy): Option<bytes> {
    match NewPCUpd(id, p.name, p.plspID, p.segs)
    case None => None
    case Some(os) => Messages.SerializeMessage(Messages.MESSAGE_UPDATE, os)
  }

  /** An SRP-ID is given out and its intent recorded. */
  function Recorded(s: Session, id: u32, p: Policy, now: int): Session {
    s.(head := ToU32(id + 1), intents := s.intents[id := Intent(p.polType, p.metric, now + INTENT_TTL)])
  }

  /** The request went out, or its intent is forgotten. */
  function Concluded(s: Session, id: u32, request: Option<Sent>): (Session, bool) {
    match request
    case None => (s.(intents := s.intents - {id}), false)
    case Some(u) => (s.(sent := s.sent + [u]), true)
  }

  /** What the peer gets, if the update can be built and the connection takes it. */
  function UpdateRequest(id: u32, p: Policy, w: World): Option<Sent> {
    if !w.connected then None
    else (match UpdateMessage(id, p) case None => None case Some(b) => Some(Update(id, p, b)))
  }

  /** `SendPCUpdate`: allocate an SRP-ID with the policy's intent, send, and forget it on failure. */
  function SendPCUpdate(s: Session, p: Policy, w: World): (Session, bool) {
    match FirstFree(s, 0)
    case None => (s, false)
    case Some(id) =>
      Concluded(Recorded(s, id, p, w.now), id, UpdateRequest(id, p, w))
  }

  /** The bytes of the request to create or delete the policy. */
  function InitiateMessage(setup: Setup, id: u32, p: Policy, lspDelete: bool): Option<bytes> {
    match NewPCInitiate(Initiate(id, p.name, lspDelete, p.plspID, p.segs, p.color, p.preference, p.src, p.dst, setup.pcc, setup.asn))
    case None => None
    case Some(os) => Messages.SerializeMessage(Messages.MESSAGE_LSP_INIT_REQ, os)
  }

  function InitiateRequest(setup: Setup, id: u32, p: Policy, lspDelete: bool, w: World): Option<Sent> {
    if !w.connected then None
    else (match InitiateMessage(setup, id, p, lspDelete) case None => None case Some(b) => Some(Initiation(id, p, lspDelete, b)))
  }

  /** `SendPCInitiate`, for the requests API callers make. */
  function SendPCInitiate(setup: Setup, s: Session, p: Policy, lspDelete: bool, w: World): (Session, bool) {
    match FirstFree(s, 0)
    case None => (s, false)
    case Some(id) =>
      Concluded(Recorded(s, id, p, w.now), id, InitiateRequest(setup, id, p, lspDelete, w))
  }

  /** `createEroFromSegmentList` leaves out what has no subobject. */
  function CreateEro(segs: seq<Segment>): seq<Ero.Subobject> {
    if segs == [] then []
    else (match Ero.NewEroSubobject(segs[0]) case None => [] case Some(o) => [o]) + CreateEro(segs[1..])
  }

  // ----- handling a report

  /** Register what was computed, then ask the PCC for it. */
  function HandleComputed(setup: Setup, s: Session, r: Report, w: World): (Session, bool) {
    var (registered, ok) := Register(setup, s, r);
    if !ok then (s, false)
    else
      match Search(registered.policies, r.lsp.plspID)
      case None => (registered, false)
      case Some(i) => SendPCUpdate(registered, registered.policies[i], w)
  }

  /** `handleSRPolicyWithPLSPID`: a report nobody asked for. */
  function HandleUnsolicited(setup: Setup, s: Session, r: Report, w: World): (Session, bool) {
    if r.lsp.rFlag then (Delete(s, r), true)
    else if !w.hasTed then Register(setup, s, r)
    else
      match w.computed
      case None => (s, false)
      case Some(segs) => HandleComputed(setup, s, r.(ero := Objects.Route(1, CreateEro(segs))), w)
  }

  /** `handleStateReport`. */
  function Handle(setup: Setup, s: Session, r: Report, w: World): (Session, bool) {
    if r.lsp.sFlag then Register(setup, s, r)
    else if r.lsp.plspID == 0 then (s.(synced := true), true)
    else if r.srp.srpID != 0 then
      if r.lsp.rFlag then (Delete(s, r), true) else Register(setup, s, r)
    else HandleUnsolicited(setup, s, r, w)
  }
}
