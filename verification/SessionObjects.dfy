/** The session and its policies as the objects that are updated in place (pkg/server/session.go,
    pkg/table/sr_policy.go); each method does to them what `Sessions` says. */
module SessionObjects {
  import opened Bytes
  import opened Netip
  import opened Wrappers
  import opened Segments
  import opened Ted
  import opened IntentMachine
  import opened Reports
  import opened Requests
  import opened Sessions
  import SessionUpdates
  import SrpId
  import Messages
  import Objects
  import Ero

  /** `PolicyDiff`: what is absent stays. */
  datatype PolicyDiff = PolicyDiff(
    name: Option<bytes>, color: Option<u32>, preference: Option<u32>, segs: Option<seq<Segment>>, lspID: u16, state: PolicyState)

  function Or<T>(o: Option<T>, t: T): T {
    match o case Some(x) => x case None => t
  }

  class SRPolicy {
    const plspID: u32
    const srcAddr: Addr
    const dstAddr: Addr
    var name: bytes
    var segmentList: seq<Segment>
    var color: u32
    var preference: u32
    var lspID: u16
    var state: PolicyState
    var polType: PolicyType
    var metric: MetricType

    /** `NewSRPolicy`; Type and Metric start as the zero values. */
    constructor (plspID: u32, name: bytes, segs: seq<Segment>, src: Addr, dst: Addr, color: u32, preference: u32,
                 lspID: u16, state: PolicyState)
      ensures Value() == Policy(plspID, name, segs, src, dst, color, preference, lspID, state, UnknownType, Unspecified)
    {
      this.plspID, this.name, this.segmentList, this.srcAddr, this.dstAddr := plspID, name, segs, src, dst;
      this.color, this.preference, this.lspID, this.state := color, preference, lspID, state;
      this.polType, this.metric := UnknownType, Unspecified;
    }

    function Value(): Policy
      reads this
    {
      Policy(plspID, name, segmentList, srcAddr, dstAddr, color, preference, lspID, state, polType, metric)
    }

    method Update(df: PolicyDiff)
      modifies this
      ensures var p := old(Value());
              Value() == Updated(p, Diff(Or(df.name, p.name), Or(df.color, p.color), Or(df.preference, p.preference),
                                         Or(df.segs, p.segs), df.lspID, df.state))
    {
      state := df.state;
      lspID := df.lspID;
      if df.name.Some? {
        name := df.name.value;
      }
      if df.color.Some? {
        color := df.color.value;
      }
      if df.preference.Some? {
        preference := df.preference.value;
      }
      if df.segs.Some? {
        segmentList := df.segs.value;
      }
    }

    method SetIntent(intent: Intent)
      modifies this
      ensures Value() == WithIntent(old(Value()), Some(intent))
    {
      polType := intent.polType;
      metric := intent.metric;
    }
  }

  function Values(ps: seq<SRPolicy>): (vs: seq<Policy>)
    reads ps
    ensures |vs| == |ps| && forall i | 0 <= i < |ps| :: vs[i] == ps[i].Value()
  {
    seq(|ps|, i requires 0 <= i < |ps| reads ps => ps[i].Value())
  }

  class SessionObject {
    const setup: Setup
    var srpIDHead: u32
    var srPolicyIntents: map<u32, Intent>
    var srPolicies: seq<SRPolicy>
    var isSynced: bool
    /** The updates the connection took. */
    var sent: seq<Sent>

    /** No object is in the list twice. */
    ghost predicate Valid()
      reads this
    {
      forall i, j | 0 <= i < j < |srPolicies| :: srPolicies[i] != srPolicies[j]
    }

    function Value(): Session
      reads this, srPolicies
    {
      Session(Values(srPolicies), srPolicyIntents, srpIDHead, isSynced, sent)
    }

    constructor (setup: Setup)
      ensures Valid() && this.setup == setup && Value() == Session([], map[], 1, false, [])
    {
      this.setup := setup;
      srpIDHead, srPolicyIntents, srPolicies, isSynced, sent := 1, map[], [], false, [];
    }

    // ----- intents

    method RememberSRPolicyIntent(srpID: u32, polType: PolicyType, metric: MetricType, now: int)
      requires Valid()
      modifies this`srPolicyIntents
      ensures srPolicyIntents == if srpID == 0 then old(srPolicyIntents)
                                 else old(srPolicyIntents)[srpID := Intent(polType, metric, now + INTENT_TTL)]
    {
      if srpID == 0 {
        return;
      }
      srPolicyIntents := srPolicyIntents[srpID := Intent(polType, metric, now + INTENT_TTL)];
    }

    method TakeSRPolicyIntent(srpID: u32) returns (intent: Option<Intent>)
      modifies this`srPolicyIntents
      ensures intent == IntentOf(old(srPolicyIntents), srpID)
      ensures srPolicyIntents == Without(old(srPolicyIntents), srpID)
    {
      if srpID == 0 {
        return None;
      }
      intent := if srpID in srPolicyIntents then Some(srPolicyIntents[srpID]) else None;
      srPolicyIntents := srPolicyIntents - {srpID};
    }

    method ForgetSRPolicyIntent(srpID: u32)
      modifies this`srPolicyIntents
      ensures srPolicyIntents == Without(old(srPolicyIntents), srpID)
    {
      if srpID != 0 {
        srPolicyIntents := srPolicyIntents - {srpID};
      }
    }

    method ClearSRPolicyIntents()
      modifies this`srPolicyIntents
      ensures srPolicyIntents == map[]
    {
      srPolicyIntents := map[];
    }

    /** `sweepExpiredSRPolicyIntents`, in whatever order the map is walked. */
    method SweepExpiredSRPolicyIntents(now: int)
      modifies this`srPolicyIntents
      ensures forall id :: id in srPolicyIntents <==> id in old(srPolicyIntents) && now <= old(srPolicyIntents)[id].expiresAt
      ensures forall id | id in srPolicyIntents :: srPolicyIntents[id] == old(srPolicyIntents)[id]
    {
      var toVisit := srPolicyIntents.Keys;
      while toVisit != {}
        invariant toVisit <= old(srPolicyIntents).Keys
        invariant forall id :: id in srPolicyIntents <==>
            id in old(srPolicyIntents) && (id in toVisit || now <= old(srPolicyIntents)[id].expiresAt)
        invariant forall id | id in srPolicyIntents :: srPolicyIntents[id] == old(srPolicyIntents)[id]
        decreases |toVisit|
      {
        var id :| id in toVisit;
        toVisit := toVisit - {id};
        if now > srPolicyIntents[id].expiresAt {
          srPolicyIntents := srPolicyIntents - {id};
        }
      }
    }

    /** `handlePCErr`: a reported request has no answer to wait for. */
    method HandlePCErr(srpIDs: seq<u32>)
      modifies this`srPolicyIntents
      ensures srPolicyIntents == old(srPolicyIntents) - (set id | id in srpIDs && id != 0)
    {
      for i := 0 to |srpIDs|
        invariant srPolicyIntents == old(srPolicyIntents) - (set id | id in srpIDs[..i] && id != 0)
      {
        ForgetSRPolicyIntent(srpIDs[i]);
        assert srpIDs[..i + 1] == srpIDs[..i] + [srpIDs[i]];
      }
      assert srpIDs[..|srpIDs|] == srpIDs;
    }

    /** `allocateSRPID`. */
    method AllocateSRPID(polType: PolicyType, metric: MetricType, now: int) returns (r: Option<u32>)
      requires Valid()
      modifies this`srpIDHead, this`srPolicyIntents
      ensures r == FirstFree(old(Value()), 0)
      ensures match r
              case None => Value() == old(Value())
              case Some(id) =>
                Value() == old(Value()).(head := id + 1, intents := old(srPolicyIntents)[id := Intent(polType, metric, now + INTENT_TTL)])
    {
      var intents := srPolicyIntents;
      var used := (id: u32) => id in intents;
      var srpID, nextHead := SrpId.NextUnusedSRPID(srpIDHead, MAX_SRP_ID, used);
      forall id: u32 | 1 <= id < MAX_SRP_ID && srpID.None?
        ensures id in intents
      {
        assert used(id);
      }
      SessionUpdates.NextUnusedIsFirstFree(Value(), srpID);
      if srpID.None? {
        return None;
      }
      srpIDHead := nextHead;
      RememberSRPolicyIntent(srpID.value, polType, metric, now);
      return srpID;
    }

    // ----- the policy list

    /** `searchSRPolicyLocked`. */
    method SearchSRPolicyLocked(plspID: u32) returns (r: Option<SRPolicy>)
      ensures r == match Search(Values(srPolicies), plspID) case None => None case Some(k) => Some(srPolicies[k])
    {
      for k := 0 to |srPolicies|
        invariant forall j | 0 <= j < k :: srPolicies[j].plspID != plspID
      {
        if srPolicies[k].plspID == plspID {
          return Some(srPolicies[k]);
        }
      }
      return None;
    }

    /** `RegisterSRPolicy` and `updateOrCreatePolicy`. */
    method RegisterSRPolicy(r: Report) returns (ok: bool)
      requires Valid()
      modifies this`srPolicies, this`srPolicyIntents, srPolicies
      ensures Valid() && (forall p | p in srPolicies :: p in old(srPolicies) || fresh(p))
      ensures (Value(), ok) == Register(setup, old(Value()), r)
    {
      var color, preference := ResolveColor(setup, r), ResolvePreference(setup, r);
      var state := ResolveState(r.lsp.oFlag);
      var segmentList := Ero.ToSegmentList(r.ero.hops);
      if segmentList == [] {
        return false;
      }
      ok := UpdateOrCreatePolicy(r, segmentList, color, preference, state);
    }

    method UpdateOrCreatePolicy(r: Report, segmentList: seq<Segment>, color: u32, preference: u32, state: PolicyState) returns (ok: bool)
      requires Valid()
      requires DiffOf(setup, r) == Diff(r.lsp.name, color, preference, segmentList, r.lsp.lspID, state) && segmentList != []
      modifies this`srPolicies, this`srPolicyIntents, srPolicies
      ensures Valid() && (forall p | p in srPolicies :: p in old(srPolicies) || fresh(p))
      ensures (Value(), ok) == Register(setup, old(Value()), r)
    {
      var found := SearchSRPolicyLocked(r.lsp.plspID);
      if found.Some? {
        ghost var i := Search(Values(srPolicies), r.lsp.plspID).value;
        var p := found.value;
        if p.lspID <= r.lsp.lspID {
          UpdatePolicy(p, i, Diff(r.lsp.name, color, preference, segmentList, r.lsp.lspID, state), r.srp.srpID);
        }
        return true;
      }
      var src := SourceOf(r);
      if !src.IsValid() {
        return false;
      }
      var dst := DestinationOf(r);
      if !dst.IsValid() {
        return false;
      }
      var p := new SRPolicy(r.lsp.plspID, r.lsp.name, segmentList, src, dst, color, preference, r.lsp.lspID, state);
      AppendPolicy(p, r.srp.srpID);
      return true;
    }

    /** The found entry, changed in place. */
    method UpdatePolicy(p: SRPolicy, ghost i: nat, d: Diff, srpID: u32)
      requires Valid() && i < |srPolicies| && srPolicies[i] == p
      modifies this`srPolicyIntents, p
      ensures srPolicyIntents == Without(old(srPolicyIntents), srpID)
      ensures Values(srPolicies) ==
              old(Values(srPolicies))[i := WithIntent(Updated(old(p.Value()), d), IntentOf(old(srPolicyIntents), srpID))]
    {
      p.Update(PolicyDiff(Some(d.name), Some(d.color), Some(d.preference), Some(d.segs), d.lspID, d.state));
      var intent := TakeSRPolicyIntent(srpID);
      if intent.Some? {
        p.SetIntent(intent.value);
      }
    }

    method AppendPolicy(p: SRPolicy, srpID: u32)
      requires Valid() && p !in srPolicies
      modifies this`srPolicies, this`srPolicyIntents, p
      ensures Valid() && srPolicies == old(srPolicies) + [p]
      ensures srPolicyIntents == Without(old(srPolicyIntents), srpID)
      ensures Values(srPolicies) ==
              old(Values(srPolicies)) + [WithIntent(old(p.Value()), IntentOf(old(srPolicyIntents), srpID))]
    {
      var intent := TakeSRPolicyIntent(srpID);
      if intent.Some? {
        p.SetIntent(intent.value);
      }
      srPolicies := srPolicies + [p];
    }

    /** `DeleteSRPolicy`. */
    method DeleteSRPolicy(r: Report)
      requires Valid()
      modifies this`srPolicies, this`srPolicyIntents
      ensures Valid() && (forall p | p in srPolicies :: p in old(srPolicies))
      ensures Value() == Delete(old(Value()), r)
    {
      for i := 0 to |srPolicies|
        invariant srPolicies == old(srPolicies) && srPolicyIntents == old(srPolicyIntents)
        invariant forall j | 0 <= j < i :: !(srPolicies[j].plspID == r.lsp.plspID && srPolicies[j].lspID <= r.lsp.lspID)
      {
        var v := srPolicies[i];
        if v.plspID == r.lsp.plspID && v.lspID <= r.lsp.lspID {
          assert SearchOld(Values(srPolicies), r.lsp.plspID, r.lsp.lspID) == Some(i);
          ForgetSRPolicyIntent(r.srp.srpID);
          RemoveAt(i);
          return;
        }
      }
    }

    /** The last entry takes the place of entry `i`. */
    method RemoveAt(i: nat)
      requires Valid() && i < |srPolicies|
      modifies this`srPolicies
      ensures Valid() && (forall p | p in srPolicies :: p in old(srPolicies))
      ensures Values(srPolicies) == SwapDelete(old(Values(srPolicies)), i)
    {
      srPolicies := srPolicies[i := srPolicies[|srPolicies| - 1]];
      srPolicies := srPolicies[..|srPolicies| - 1];
    }

    // ----- reports

    /** The end of sending a request: it is with the peer, or its intent is forgotten. */
    method Conclude(srpID: u32, request: Option<Sent>) returns (ok: bool)
      requires Valid() && srpID != 0
      modifies this`srPolicyIntents, this`sent
      ensures Valid() && (Value(), ok) == Concluded(old(Value()), srpID, request)
    {
      if request.None? {
        ForgetSRPolicyIntent(srpID);
        return false;
      }
      sent := sent + [request.value];
      return true;
    }

    /** `SendPCUpdate`. */
    method SendPCUpdate(p: SRPolicy, w: World) returns (ok: bool)
      requires Valid()
      modifies this`srpIDHead, this`srPolicyIntents, this`sent
      ensures Valid() && (Value(), ok) == Sessions.SendPCUpdate(old(Value()), p.Value(), w)
    {
      ghost var before, policy := Value(), p.Value();
      var srpID := AllocateSRPID(p.polType, p.metric, w.now);
      if srpID.None? {
        return false;
      }
      SessionUpdates.SendingConcludes(setup, before, policy, false, w, srpID.value);
      ok := Conclude(srpID.value, UpdateRequest(srpID.value, p.Value(), w));
    }

    /** `SendPCInitiate`. */
    method SendPCInitiate(p: SRPolicy, lspDelete: bool, w: World) returns (ok: bool)
      requires Valid()
      modifies this`srpIDHead, this`srPolicyIntents, this`sent
      ensures Valid() && (Value(), ok) == Sessions.SendPCInitiate(setup, old(Value()), p.Value(), lspDelete, w)
    {
      ghost var before, policy := Value(), p.Value();
      var srpID := AllocateSRPID(p.polType, p.metric, w.now);
      if srpID.None? {
        return false;
      }
      SessionUpdates.SendingConcludes(setup, before, policy, lspDelete, w, srpID.value);
      ok := Conclude(srpID.value, InitiateRequest(setup, srpID.value, p.Value(), lspDelete, w));
    }

    /** `createEroFromSegmentList`. */
    method CreateEroFromSegmentList(segs: seq<Segment>) returns (hops: seq<Ero.Subobject>)
      ensures hops == CreateEro(segs)
    {
      hops := [];
      var rest := segs;
      while rest != []
        invariant CreateEro(segs) == hops + CreateEro(rest)
        decreases |rest|
      {
        var o := Ero.NewEroSubobject(rest[0]);
        if o.Some? {
          hops := hops + [o.value];
        }
        rest := rest[1..];
      }
    }

    /** `handleSRPolicyWithPLSPID`. */
    method HandleSRPolicyWithPLSPID(r: Report, w: World) returns (ok: bool)
      requires Valid()
      modifies this, srPolicies
      ensures Valid() && (forall p | p in srPolicies :: p in old(srPolicies) || fresh(p))
      ensures (Value(), ok) == HandleUnsolicited(setup, old(Value()), r, w)
    {
      if r.lsp.rFlag {
        DeleteSRPolicy(r);
        return true;
      }
      if !w.hasTed {
        ok := RegisterSRPolicy(r);
        return;
      }
      if w.computed.None? {
        return false;
      }
      var hops := CreateEroFromSegmentList(w.computed.value);
      ok := RegisterAndUpdate(r.(ero := Objects.Route(1, hops)), w);
    }

    method RegisterAndUpdate(r: Report, w: World) returns (ok: bool)
      requires Valid()
      modifies this, srPolicies
      ensures Valid() && (forall p | p in srPolicies :: p in old(srPolicies) || fresh(p))
      ensures (Value(), ok) == HandleComputed(setup, old(Value()), r, w)
    {
      ok := RegisterSRPolicy(r);
      if !ok {
        return false;
      }
      var policy := SearchSRPolicyLocked(r.lsp.plspID);
      if policy.None? {
        return false;
      }
      ok := SendPCUpdate(policy.value, w);
    }

    /** `handleStateReport`. */
    method HandleStateReport(r: Report, w: World) returns (ok: bool)
      requires Valid()
      modifies this, srPolicies
      ensures Valid() && (forall p | p in srPolicies :: p in old(srPolicies) || fresh(p))
      ensures (Value(), ok) == Handle(setup, old(Value()), r, w)
    {
      if r.lsp.sFlag {
        ok := RegisterSRPolicy(r);
      } else if r.lsp.plspID == 0 {
        isSynced := true;
        ok := true;
      } else if r.srp.srpID != 0 {
        if r.lsp.rFlag {
          DeleteSRPolicy(r);
          ok := true;
        } else {
          ok := RegisterSRPolicy(r);
        }
      } else {
        ok := HandleSRPolicyWithPLSPID(r, w);
      }
    }
  }
}
