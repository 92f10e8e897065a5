/** The update requests that reports trigger, and the reports that answer them
    (pkg/server/session.go). */
module SessionUpdates {
  import opened Bytes
  import opened Netip
  import opened Wrappers
  import opened Segments
  import opened Ted
  import opened IntentMachine
  import opened Reports
  import opened Requests
  import opened Sessions
  import opened SessionRuns
  import SrpId
  import Messages
  import Objects
  import Ero
  import EroRoundTrip

  // ----- allocation

  /** What `NextUnusedSRPID` returns for the session's table: the first free ID in cyclic order
      from the head, none exactly when all are taken. */
  lemma {:induction false} FirstFreeIsFirst(s: Session, k: nat)
    ensures FirstFree(s, k).Some? ==>
              exists j: nat :: k <= j < MAX_SRP_ID - 1 && FirstFree(s, k).value == SrpId.CyclicAt(s.head, MAX_SRP_ID, j)
                               && forall i: nat | k <= i < j :: SrpId.CyclicAt(s.head, MAX_SRP_ID, i) in s.intents
    ensures FirstFree(s, k).None? ==> forall i: nat | k <= i < MAX_SRP_ID - 1 :: SrpId.CyclicAt(s.head, MAX_SRP_ID, i) in s.intents
    decreases MAX_SRP_ID - k
  {
    if k < MAX_SRP_ID - 1 {
      if SrpId.CyclicAt(s.head, MAX_SRP_ID, k) in s.intents {
        FirstFreeIsFirst(s, k + 1);
      } else {
        assert FirstFree(s, k).value == SrpId.CyclicAt(s.head, MAX_SRP_ID, k);
      }
    }
  }

  lemma {:induction false} EarlierAreTaken(s: Session, k: nat, j: nat)
    requires k <= j < MAX_SRP_ID - 1 && IsFree(s, SrpId.CyclicAt(s.head, MAX_SRP_ID, j))
    requires forall i: nat | k <= i < j :: SrpId.CyclicAt(s.head, MAX_SRP_ID, i) in s.intents
    ensures FirstFree(s, k) == Some(SrpId.CyclicAt(s.head, MAX_SRP_ID, j))
    decreases j - k
  {
    if k < j {
      EarlierAreTaken(s, k + 1, j);
    }
  }

  /** The loop's result and the specification agree. */
  lemma {:induction false} NextUnusedIsFirstFree(s: Session, r: Option<u32>)
    requires r.Some? ==>
               exists k: nat :: k < MAX_SRP_ID - 1 && r.value == SrpId.CyclicAt(s.head, MAX_SRP_ID, k) && r.value !in s.intents
                                && forall j: nat | j < k :: SrpId.CyclicAt(s.head, MAX_SRP_ID, j) in s.intents
    requires r.None? ==> forall id: u32 | 1 <= id < MAX_SRP_ID :: id in s.intents
    ensures r == FirstFree(s, 0)
  {
    if r.Some? {
      var k: nat :| k < MAX_SRP_ID - 1 && r.value == SrpId.CyclicAt(s.head, MAX_SRP_ID, k) && r.value !in s.intents
                    && forall j: nat | j < k :: SrpId.CyclicAt(s.head, MAX_SRP_ID, j) in s.intents;
      EarlierAreTaken(s, 0, k);
    }
  }

  /** Sending from the allocation on. */
  lemma {:induction false} SendingConcludes(setup: Setup, s: Session, p: Policy, lspDelete: bool, w: World, id: u32)
    requires FirstFree(s, 0) == Some(id)
    ensures var recorded := s.(head := id + 1, intents := s.intents[id := Intent(p.polType, p.metric, w.now + INTENT_TTL)]);
            && SendPCUpdate(s, p, w) == Concluded(recorded, id, UpdateRequest(id, p, w))
            && SendPCInitiate(setup, s, p, lspDelete, w) == Concluded(recorded, id, InitiateRequest(setup, id, p, lspDelete, w))
  {
  }

  // ----- which reports send

  /** The report asks for nothing and removes nothing, and there is a TED to compute a path from. */
  predicate CallsForUpdate(r: Report, w: World) {
    !r.lsp.sFlag && r.lsp.plspID != 0 && r.srp.srpID == 0 && !r.lsp.rFlag && w.hasTed && w.computed.Some?
  }

  /** An update that is on its way: for the entry under `k`, with an SRP-ID that was free before,
      whose intent repeats the entry's Type and Metric. */
  predicate IsPending(before: Session, s: Session, u: Sent, k: u32) {
    && u.Update? && u.policy.plspID == k && Lookup(s.policies, k) == Some(u.policy)
    && IsFree(before, u.srpID)
    && u.srpID in s.intents && s.intents[u.srpID].polType == u.policy.polType && s.intents[u.srpID].metric == u.policy.metric
  }

  lemma {:induction false} SendingIsOnce(s: Session, p: Policy, w: World)
    requires Lookup(s.policies, p.plspID) == Some(p)
    ensures var (s', ok) := SendPCUpdate(s, p, w);
            && s'.policies == s.policies
            && (ok <==> s'.sent != s.sent)
            && (ok ==> |s'.sent| == |s.sent| + 1 && s'.sent[..|s.sent|] == s.sent && IsPending(s, s', s'.sent[|s.sent|], p.plspID))
            && (!ok ==> s'.intents == s.intents)
  {
    var s' := SendPCUpdate(s, p, w).0;
    if FirstFree(s, 0).Some? {
      assert s'.intents - {FirstFree(s, 0).value} == s.intents - {FirstFree(s, 0).value};
      assert s.intents - {FirstFree(s, 0).value} == s.intents;
    }
  }

  /** A request to create or delete: sent with a free SRP-ID whose intent stays, or nothing is left of it. */
  lemma {:induction false} InitiationIsRecordedOrForgotten(setup: Setup, s: Session, p: Policy, lspDelete: bool, w: World)
    ensures var (s', ok) := SendPCInitiate(setup, s, p, lspDelete, w);
            && s'.policies == s.policies
            && (ok ==> exists id: u32, b: bytes ::
                  && IsFree(s, id) && s'.sent == s.sent + [Initiation(id, p, lspDelete, b)]
                  && s'.intents == s.intents[id := Intent(p.polType, p.metric, w.now + INTENT_TTL)])
            && (!ok ==> s'.intents == s.intents && s'.sent == s.sent)
  {
    if FirstFree(s, 0).Some? {
      var id := FirstFree(s, 0).value;
      var s' := SendPCInitiate(setup, s, p, lspDelete, w).0;
      assert s.intents[id := Intent(p.polType, p.metric, w.now + INTENT_TTL)] - {id} == s.intents;
      if SendPCInitiate(setup, s, p, lspDelete, w).1 {
        assert s'.sent == s.sent + [Initiation(id, p, lspDelete, InitiateMessage(setup, id, p, lspDelete).value)];
      }
    }
  }

  /** A request goes out exactly when an SRP-ID is free, the message can be built and the connection
      takes it. */
  lemma {:induction false} SentExactlyWhen(setup: Setup, s: Session, p: Policy, lspDelete: bool, w: World)
    ensures SendPCUpdate(s, p, w).1 <==> FirstFree(s, 0).Some? && w.connected && UpdateMessage(FirstFree(s, 0).value, p).Some?
    ensures SendPCInitiate(setup, s, p, lspDelete, w).1 <==>
            FirstFree(s, 0).Some? && w.connected && InitiateMessage(setup, FirstFree(s, 0).value, p, lspDelete).Some?
  {
  }

  lemma {:induction false} RegisterSendsNothing(setup: Setup, s: Session, r: Report)
    ensures Register(setup, s, r).0.sent == s.sent
  {
  }

  lemma {:induction false} ComputedSendsOnce(setup: Setup, s: Session, r: Report, w: World)
    requires r.srp.srpID == 0
    ensures var s' := HandleComputed(setup, s, r, w).0;
            s'.sent == s.sent
            || (|s'.sent| == |s.sent| + 1 && s'.sent[..|s.sent|] == s.sent
                && IsPending(s, s', s'.sent[|s.sent|], r.lsp.plspID))
  {
    RegisterSendsNothing(setup, s, r);
    var (registered, ok) := Register(setup, s, r);
    if ok && Search(registered.policies, r.lsp.plspID).Some? {
      var p := registered.policies[Search(registered.policies, r.lsp.plspID).value];
      assert registered.intents == s.intents;
      SendingIsOnce(registered, p, w);
    }
  }

  /** The main result on updates: a report triggers at most one; only an unsolicited one that
      removes nothing does, and only with a computed path; a report with an SRP-ID triggers none. */
  lemma {:induction false} ReportSendsAtMostOnce(setup: Setup, s: Session, r: Report, w: World)
    ensures var s' := Handle(setup, s, r, w).0;
            s'.sent == s.sent
            || (CallsForUpdate(r, w) && |s'.sent| == |s.sent| + 1 && s'.sent[..|s.sent|] == s.sent
                && IsPending(s, s', s'.sent[|s.sent|], r.lsp.plspID))
  {
    RegisterSendsNothing(setup, s, r);
    if CallsForUpdate(r, w) {
      ComputedSendsOnce(setup, s, r.(ero := Objects.Route(1, CreateEro(w.computed.value))), w);
    }
  }

  // ----- what the update carries

  lemma {:induction false} CreateEroKeepsSegments(segs: seq<Segment>)
    requires forall seg | seg in segs :: Ero.NewEroSubobject(seg).Some?
    ensures Ero.ToSegmentList(CreateEro(segs)) == segs
  {
    if segs != [] {
      CreateEroKeepsSegments(segs[1..]);
      var o := Ero.NewEroSubobject(segs[0]).value;
      assert Ero.ToSegment(o) == Some(segs[0]);
      assert CreateEro(segs)[0] == o && CreateEro(segs)[1..] == CreateEro(segs[1..]);
    }
  }

  /** The entry after registering a computed path that is not older than it. */
  lemma {:induction false} RegisteredPath(setup: Setup, s: Session, r: Report, segs: seq<Segment>)
    requires Sound(s.policies) && segs != [] && forall seg | seg in segs :: Ero.NewEroSubobject(seg).Some?
    requires r.ero.hops == CreateEro(segs) && Register(setup, s, r).1
    requires forall p | Lookup(s.policies, r.lsp.plspID) == Some(p) :: p.lspID <= r.lsp.lspID
    ensures Lookup(Register(setup, s, r).0.policies, r.lsp.plspID).Some?
    ensures Lookup(Register(setup, s, r).0.policies, r.lsp.plspID).value.segs == segs
  {
    CreateEroKeepsSegments(segs);
    RegisterLookup(setup, s, r, r.lsp.plspID);
    AsMapIsLookup(s.policies, r.lsp.plspID);
  }

  /** The update for an unsolicited report carries the computed path: the peer finds the LSP and
      every segment as the wire keeps it. */
  lemma {:induction false} UpdateCarriesComputedPath(setup: Setup, s: Session, r: Report, w: World, u: Sent)
    requires Sound(s.policies) && CallsForUpdate(r, w)
    requires Handle(setup, s, r, w).0.sent == s.sent + [u]
    requires forall p | Lookup(s.policies, r.lsp.plspID) == Some(p) :: p.lspID <= r.lsp.lspID
    requires forall seg | seg in w.computed.value :: EroRoundTrip.Sendable(seg) && EroRoundTrip.Framed(seg)
    ensures u.policy.segs == w.computed.value
    ensures NewPCUpd(u.srpID, u.policy.name, r.lsp.plspID, w.computed.value).Some?
    ensures Messages.SerializeMessage(Messages.MESSAGE_UPDATE, NewPCUpd(u.srpID, u.policy.name, r.lsp.plspID, w.computed.value).value)
            == Some(u.message)
  {
    var segs := w.computed.value;
    var r' := r.(ero := Objects.Route(1, CreateEro(segs)));
    forall seg | seg in segs
      ensures Ero.NewEroSubobject(seg).Some?
    {
      EroRoundTrip.OneEncodes(seg);
    }
    var (registered, ok) := Register(setup, s, r');
    RegisterSendsNothing(setup, s, r');
    CreateEroKeepsSegments(segs);
    assert ok;
    RegisteredPath(setup, s, r', segs);
    var p := Lookup(registered.policies, r.lsp.plspID).value;
    assert SendPCUpdate(registered, p, w).0.sent == s.sent + [u];
    assert u == (s.sent + [u])[|s.sent|];
  }

  // ----- the answer

  /** The answer to the update a report triggered leaves the policy's Type and Metric as they were,
      whatever steps lie between, as long as none belongs to another API call on the policy and
      the SRP-ID is not given out again. */
  lemma {:induction false} AnswerChangesNoType(setup: Setup, s: Session, r: Report, w: World, u: Sent, steps: seq<Step>, answer: Report)
    requires Sound(s.policies) && Handle(setup, s, r, w).0.sent == s.sent + [u]
    requires var s1 := Handle(setup, s, r, w).0;
             QuietRun(setup, s1, {u.srpID}, steps, r.lsp.plspID)
    requires forall a | a in steps :: !(a.Recording? && a.id == u.srpID)
    requires answer.lsp.plspID == r.lsp.plspID && answer.srp.srpID == u.srpID
    ensures var s2 := RunSession(setup, Handle(setup, s, r, w).0, steps);
            match Lookup(Register(setup, s2, answer).0.policies, r.lsp.plspID)
            case None => false
            case Some(p) => p.polType == u.policy.polType && p.metric == u.policy.metric
  {
    var s1 := Handle(setup, s, r, w).0;
    var k := r.lsp.plspID;
    ReportSendsAtMostOnce(setup, s, r, w);
    assert s1.sent[|s.sent|] == u;
    HandleKeepsSound(setup, s, r, w);
    AnswersKeepTypeAndMetric(setup, s1, {u.srpID}, steps, k, u.policy.polType, u.policy.metric);
    OwnStays(setup, s1, {u.srpID}, steps, k, u.srpID);
    QuietRegisterKeeps(setup, RunSession(setup, s1, steps), OwnAfter(setup, s1, {u.srpID}, steps, k), answer, k,
                       u.policy.polType, u.policy.metric);
  }

  lemma {:induction false} HandleKeepsSound(setup: Setup, s: Session, r: Report, w: World)
    requires Sound(s.policies)
    ensures Sound(Handle(setup, s, r, w).0.policies)
  {
    HandleIsSteps(setup, s, r, w);
    ListRefinesMap(setup, s, StepsOf(setup, s, r, w));
  }
}
