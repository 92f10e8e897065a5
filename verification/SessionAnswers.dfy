/** Which runs of a session leave the Type and Metric of a policy alone, in terms of what happens to
    it: reports that are handled, requests of API callers, and sweeps (pkg/server/session.go). */
module SessionAnswers {
  import opened Bytes
  import opened IntentMachine
  import opened Reports
  import opened SessionRuns
  import opened Sessions
  import opened SessionUpdates
  import opened Ted
  import opened Wrappers
  import Objects

  /** A report is handled, an API caller allocates an SRP-ID for a request, or intents are forgotten,
      swept or cleared. */
  datatype Event =
    | Handling(r: Report, w: World)
    | Requesting(id: u32, intent: Intent)
    | Forgetting(ids: set<u32>)

  function StepsOfEvent(setup: Setup, s: Session, e: Event): seq<Step> {
    match e
    case Handling(r, w) => StepsOf(setup, s, r, w)
    case Requesting(id, intent) => [Recording(id, intent, None)]
    case Forgetting(ids) => [Dropping(ids)]
  }

  function StepsOfEvents(setup: Setup, s: Session, es: seq<Event>): seq<Step>
    decreases |es|
  {
    if es == [] then []
    else
      var steps := StepsOfEvent(setup, s, es[0]);
      steps + StepsOfEvents(setup, RunSession(setup, s, steps), es[1..])
  }

  /** The report is taken as a removal. */
  predicate Removes(r: Report) {
    !r.lsp.sFlag && r.lsp.plspID != 0 && r.lsp.rFlag
  }

  /** The event does not answer another request on `k`, nor remove it: a report on it has SRP-ID 0,
      one of `own`, or one that nobody waits for, and if it removes it is older than the entry. */
  ghost predicate Leaves(s: Session, own: set<u32>, e: Event, k: u32) {
    e.Handling? && e.r.lsp.plspID == k ==>
      if Removes(e.r) then forall p | Lookup(s.policies, k) == Some(p) :: p.lspID > e.r.lsp.lspID
      else e.r.srp.srpID == 0 || e.r.srp.srpID in own || e.r.srp.srpID !in s.intents
  }

  ghost predicate AllLeave(setup: Setup, s: Session, own: set<u32>, es: seq<Event>, k: u32)
    decreases |es|
  {
    es == [] ||
    (var steps := StepsOfEvent(setup, s, es[0]);
     Leaves(s, own, es[0], k) && AllLeave(setup, RunSession(setup, s, steps), OwnAfter(setup, s, own, steps, k), es[1..], k))
  }

  lemma {:induction false} QuietOne(setup: Setup, s: Session, own: set<u32>, a: Step, k: u32)
    requires Quiet(s, own, a, k)
    ensures QuietRun(setup, s, own, [a], k)
  {
  }

  lemma {:induction false} QuietFirst(setup: Setup, s: Session, own: set<u32>, a: Step, steps: seq<Step>, k: u32)
    requires Quiet(s, own, a, k) && QuietRun(setup, StepSession(setup, s, a), Own(s, own, a, k), steps, k)
    ensures QuietRun(setup, s, own, [a] + steps, k)
  {
    assert ([a] + steps)[1..] == steps;
  }

  lemma {:induction false} QuietConcat(setup: Setup, s: Session, own: set<u32>, xs: seq<Step>, ys: seq<Step>, k: u32)
    requires QuietRun(setup, s, own, xs, k) && QuietRun(setup, RunSession(setup, s, xs), OwnAfter(setup, s, own, xs, k), ys, k)
    ensures QuietRun(setup, s, own, xs + ys, k)
    decreases |xs|
  {
    if xs == [] {
      assert xs + ys == ys;
    } else {
      assert (xs + ys)[1..] == xs[1..] + ys;
      QuietConcat(setup, StepSession(setup, s, xs[0]), Own(s, own, xs[0], k), xs[1..], ys, k);
    }
  }

  /** Registering a report that answers no other request is quiet. */
  lemma {:induction false} RegisteringIsQuiet(s: Session, own: set<u32>, r: Report, k: u32)
    requires Lookup(s.policies, k).Some?
    requires r.lsp.plspID == k ==> r.srp.srpID == 0 || r.srp.srpID in own || r.srp.srpID !in s.intents
    ensures Quiet(s, own, Registering(r), k)
  {
  }

  /** Sending an update of an entry records the entry's own Type and Metric. */
  lemma {:induction false} SendingIsQuiet(setup: Setup, s: Session, own: set<u32>, p: Policy, w: World, k: u32)
    requires Lookup(s.policies, k).Some? && Lookup(s.policies, p.plspID) == Some(p)
    ensures QuietRun(setup, s, own, StepsOfSending(s, p, w), k)
  {
    if FirstFree(s, 0).Some? {
      var id := FirstFree(s, 0).value;
      var recording := Recording(id, Intent(p.polType, p.metric, w.now + INTENT_TTL), Some(p.plspID));
      var s', own' := StepSession(setup, s, recording), Own(s, own, recording, k);
      assert Quiet(s, own, recording, k);
      QuietOne(setup, s', own', Dropping({id}), k);
      QuietFirst(setup, s, own, recording, [], k);
      QuietFirst(setup, s, own, recording, [Dropping({id})], k);
    }
  }

  /** An entry is still there after a report is registered. */
  lemma {:induction false} RegisterKeepsEntry(setup: Setup, s: Session, r: Report, k: u32)
    requires Sound(s.policies) && Lookup(s.policies, k).Some?
    ensures Lookup(Register(setup, s, r).0.policies, k).Some?
  {
    RegisterLookup(setup, s, r, k);
    AsMapIsLookup(s.policies, k);
  }

  lemma {:induction false} ComputedIsQuiet(setup: Setup, s: Session, own: set<u32>, r: Report, w: World, k: u32)
    requires Sound(s.policies) && Lookup(s.policies, k).Some? && r.srp.srpID == 0
    ensures QuietRun(setup, s, own, StepsOfComputed(setup, s, r, w), k)
  {
    var (registered, ok) := Register(setup, s, r);
    RegisteringIsQuiet(s, own, r, k);
    QuietOne(setup, s, own, Registering(r), k);
    if ok && Search(registered.policies, r.lsp.plspID).Some? {
      var p := registered.policies[Search(registered.policies, r.lsp.plspID).value];
      RegisterKeepsEntry(setup, s, r, k);
      SendingIsQuiet(setup, registered, own, p, w, k);
      QuietFirst(setup, s, own, Registering(r), StepsOfSending(registered, p, w), k);
    }
  }

  /** Handling a report that answers no other request on `k` and does not remove it is quiet. */
  lemma {:induction false} HandlingIsQuiet(setup: Setup, s: Session, own: set<u32>, r: Report, w: World, k: u32)
    requires Sound(s.policies) && Lookup(s.policies, k).Some? && Leaves(s, own, Handling(r, w), k)
    ensures QuietRun(setup, s, own, StepsOf(setup, s, r, w), k)
  {
    if Removes(r) {
      QuietOne(setup, s, own, Deleting(r), k);
    } else if !r.lsp.sFlag && r.lsp.plspID == 0 {
      QuietOne(setup, s, own, Syncing, k);
    } else if r.lsp.sFlag || r.srp.srpID != 0 || !w.hasTed {
      RegisteringIsQuiet(s, own, r, k);
      QuietOne(setup, s, own, Registering(r), k);
    } else if w.computed.Some? {
      ComputedIsQuiet(setup, s, own, r.(ero := Objects.Route(1, CreateEro(w.computed.value))), w, k);
    }
  }

  /** So is every event that leaves `k` alone; sweeps and requests of others always do. */
  lemma {:induction false} EventIsQuiet(setup: Setup, s: Session, own: set<u32>, e: Event, k: u32)
    requires Sound(s.policies) && Lookup(s.policies, k).Some? && Leaves(s, own, e, k)
    ensures QuietRun(setup, s, own, StepsOfEvent(setup, s, e), k)
  {
    match e
    case Handling(r, w) => HandlingIsQuiet(setup, s, own, r, w, k);
    case Requesting(id, intent) => QuietOne(setup, s, own, Recording(id, intent, None), k);
    case Forgetting(ids) => QuietOne(setup, s, own, Dropping(ids), k);
  }

  /** And every sequence of them. */
  lemma {:induction false} EventsAreQuiet(setup: Setup, s: Session, own: set<u32>, es: seq<Event>, k: u32, polType: PolicyType, metric: MetricType)
    requires Sound(s.policies) && Keeps(s, own, k, polType, metric) && AllLeave(setup, s, own, es, k)
    ensures QuietRun(setup, s, own, StepsOfEvents(setup, s, es), k)
    decreases |es|
  {
    if es != [] {
      var steps := StepsOfEvent(setup, s, es[0]);
      EventIsQuiet(setup, s, own, es[0], k);
      AnswersKeepTypeAndMetric(setup, s, own, steps, k, polType, metric);
      EventsAreQuiet(setup, RunSession(setup, s, steps), OwnAfter(setup, s, own, steps, k), es[1..], k, polType, metric);
      QuietConcat(setup, s, own, steps, StepsOfEvents(setup, RunSession(setup, s, steps), es[1..]), k);
    }
  }

  /** The main result on answers: whatever reports are handled, requests made and intents swept, a
      policy's Type and Metric stay until a report answers another request on it, or removes it. */
  lemma {:induction false} EventsKeepTypeAndMetric(setup: Setup, s: Session, own: set<u32>, es: seq<Event>, k: u32, polType: PolicyType, metric: MetricType)
    requires Sound(s.policies) && Keeps(s, own, k, polType, metric) && AllLeave(setup, s, own, es, k)
    ensures EntryHas(RunSession(setup, s, StepsOfEvents(setup, s, es)), k, polType, metric)
  {
    EventsAreQuiet(setup, s, own, es, k, polType, metric);
    AnswersKeepTypeAndMetric(setup, s, own, StepsOfEvents(setup, s, es), k, polType, metric);
  }

  /** So after a report has triggered an update, and whatever events lie between, its answer leaves
      Type and Metric as the update carried them, unless its SRP-ID was given out again. */
  lemma {:induction false} AnswerAfterEventsChangesNoType(setup: Setup, s: Session, r: Report, w: World, u: Sent, es: seq<Event>, answer: Report)
    requires Sound(s.policies) && Handle(setup, s, r, w).0.sent == s.sent + [u]
    requires AllLeave(setup, Handle(setup, s, r, w).0, {u.srpID}, es, r.lsp.plspID)
    requires forall a | a in StepsOfEvents(setup, Handle(setup, s, r, w).0, es) :: !(a.Recording? && a.id == u.srpID)
    requires answer.lsp.plspID == r.lsp.plspID && answer.srp.srpID == u.srpID
    ensures var s2 := RunSession(setup, Handle(setup, s, r, w).0, StepsOfEvents(setup, Handle(setup, s, r, w).0, es));
            EntryHas(Register(setup, s2, answer).0, r.lsp.plspID, u.policy.polType, u.policy.metric)
  {
    var s1 := Handle(setup, s, r, w).0;
    ReportSendsAtMostOnce(setup, s, r, w);
    assert s1.sent[|s.sent|] == u;
    HandleKeepsSound(setup, s, r, w);
    EventsAreQuiet(setup, s1, {u.srpID}, es, r.lsp.plspID, u.policy.polType, u.policy.metric);
    AnswerChangesNoType(setup, s, r, w, u, StepsOfEvents(setup, s1, es), answer);
  }
}
