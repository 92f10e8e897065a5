/** The outstanding-intent table under concurrency (pkg/server/session.go). API callers allocate
    SRP-IDs while the receiver consumes and forgets intents, the sweeper drops expired ones and
    the end of the session clears them. Each body that runs under a mutex is one step; steps of
    different threads interleave in any order. `serial` numbers the allocations; it and the sets
    of serials record history only, no step reads them. */
module IntentMachine {
  import opened Bytes
  import opened SrpId
  import opened Ted
  import opened Wrappers

  /** 0 and 0xFFFFFFFF are reserved. */
  const MAX_SRP_ID: u32 := 0xFFFF_FFFF

  datatype PolicyType = UnknownType | Explicit | Dynamic

  datatype Intent = Intent(polType: PolicyType, metric: MetricType, expiresAt: int)

  datatype Entry = Entry(serial: nat, intent: Intent)

  type ThreadId = nat

  /** Where an API caller stands between asking for an SRP-ID and having sent its message. */
  datatype Phase =
    | Idle
    | Scanning(cursor: u32, attempts: nat, polType: PolicyType, metric: MetricType)
    | Found(id: u32, polType: PolicyType, metric: MetricType)
    | Sending(id: u32)

  datatype State = State(
    head: u32, srpIDMu: Option<ThreadId>, intents: map<u32, Entry>, phases: map<ThreadId, Phase>,
    now: int, issued: nat,
    consumed: set<nat>, forgotten: set<nat>, swept: set<nat>, cleared: set<nat>)

  datatype Action =
    | Begin(t: ThreadId, polType: PolicyType, metric: MetricType)
    | Probe(t: ThreadId)
    | GiveUp(t: ThreadId)
    | Record(t: ThreadId)
    | Sent(t: ThreadId)
    | SendFailed(t: ThreadId)
    | Take(id: u32)
    | Forget(id: u32)
    | Tick(elapsed: nat)
    | Sweep(at: int)
    | Clear

  const INTENT_TTL: int := 60

  const INIT: State := State(1, None, map[], map[], 0, 0, {}, {}, {}, {})

  function PhaseOf(s: State, t: ThreadId): Phase {
    if t in s.phases then s.phases[t] else Idle
  }

  predicate Enabled(s: State, a: Action) {
    match a
    case Begin(t, _, _) => PhaseOf(s, t).Idle? && s.srpIDMu.None?
    case Probe(t) => PhaseOf(s, t).Scanning? && PhaseOf(s, t).attempts < MAX_SRP_ID - 1
    case GiveUp(t) => PhaseOf(s, t).Scanning? && PhaseOf(s, t).attempts >= MAX_SRP_ID - 1
    case Record(t) => PhaseOf(s, t).Found?
    case Sent(t) => PhaseOf(s, t).Sending?
    case SendFailed(t) => PhaseOf(s, t).Sending?
    case Take(id) => id != 0 && id in s.intents
    case Forget(id) => id != 0 && id in s.intents
    case Tick(_) => true
    case Sweep(at) => at <= s.now  // the sweeper reads the clock before it takes the mutex
    case Clear => true
  }

  function Expired(s: State, at: int): set<u32> {
    set id | id in s.intents && at > s.intents[id].intent.expiresAt
  }

  function Serials(intents: map<u32, Entry>, ids: set<u32>): set<nat> {
    set id | id in ids && id in intents :: intents[id].serial
  }

  function ForgetId(s: State, id: u32): State {
    s.(intents := s.intents - {id}, forgotten := s.forgotten + Serials(s.intents, {id}))
  }

  /** An action that is not enabled does nothing. */
  function Step(s: State, a: Action): State {
    if !Enabled(s, a) then s
    else
      match a
      case Begin(t, polType, metric) =>
        s.(srpIDMu := Some(t), phases := s.phases[t := Scanning(s.head, 0, polType, metric)])
      case Probe(t) =>
        var p := PhaseOf(s, t);
        var candidate := Normalised(p.cursor, MAX_SRP_ID);
        var p' := if candidate in s.intents then Scanning(candidate + 1, p.attempts + 1, p.polType, p.metric)
                  else Found(candidate, p.polType, p.metric);
        s.(phases := s.phases[t := p'])
      case GiveUp(t) => s.(srpIDMu := None, phases := s.phases[t := Idle])
      case Record(t) =>
        var p := PhaseOf(s, t);
        s.(head := ToU32(p.id + 1), srpIDMu := None, phases := s.phases[t := Sending(p.id)], issued := s.issued + 1,
           intents := s.intents[p.id := Entry(s.issued, Intent(p.polType, p.metric, s.now + INTENT_TTL))])
      case Sent(t) => s.(phases := s.phases[t := Idle])
      case SendFailed(t) => ForgetId(s, PhaseOf(s, t).id).(phases := s.phases[t := Idle])
      case Take(id) => s.(intents := s.intents - {id}, consumed := s.consumed + {s.intents[id].serial})
      case Forget(id) => ForgetId(s, id)
      case Tick(elapsed) => s.(now := s.now + elapsed)
      case Sweep(at) =>
        s.(intents := s.intents - Expired(s, at), swept := s.swept + Serials(s.intents, Expired(s, at)))
      case Clear => s.(intents := map[], cleared := s.cleared + Serials(s.intents, s.intents.Keys))
  }

  function Run(actions: seq<Action>): State {
    if actions == [] then INIT else Step(Run(actions[..|actions| - 1]), actions[|actions| - 1])
  }

  // ----- what every reachable state satisfies

  /** Only the holder of the allocation mutex is between probing and recording, an ID it found
      unused has stayed unused, and its probes go around the cycle from the head. */
  ghost predicate AllocatorInv(s: State) {
    forall t | t in s.phases :: PhaseInv(s, t, s.phases[t])
  }

  predicate PhaseInv(s: State, t: ThreadId, p: Phase) {
    match p
    case Idle => true
    case Scanning(cursor, attempts, _, _) =>
      && s.srpIDMu == Some(t) && attempts <= MAX_SRP_ID - 1
      && (attempts < MAX_SRP_ID - 1 ==>
            Normalised(cursor, MAX_SRP_ID) == CyclicAt(s.head, MAX_SRP_ID, attempts))
    case Found(id, _, _) => s.srpIDMu == Some(t) && 1 <= id < MAX_SRP_ID && id !in s.intents
    case Sending(id) => 1 <= id < MAX_SRP_ID
  }

  ghost predicate TableInv(s: State) {
    && (forall id | id in s.intents :: 1 <= id < MAX_SRP_ID && s.intents[id].serial < s.issued)
    && (forall i, j | i in s.intents && j in s.intents && i != j :: s.intents[i].serial != s.intents[j].serial)
  }

  function Outstanding(s: State): set<nat> {
    Serials(s.intents, s.intents.Keys)
  }

  function Count(yes: bool): nat { if yes then 1 else 0 }

  /** In how many of the five places an allocation is. */
  ghost function Fates(s: State, n: nat): nat {
    Count(n in s.consumed) + Count(n in s.forgotten) + Count(n in s.swept) + Count(n in s.cleared)
    + Count(n in Outstanding(s))
  }

  /** Each allocation has had exactly one fate so far. */
  ghost predicate FatesInv(s: State) {
    forall n: nat :: Fates(s, n) == Count(n < s.issued)
  }

  ghost predicate Inv(s: State) {
    AllocatorInv(s) && TableInv(s) && FatesInv(s)
  }

  lemma AllocatorStep(s: State, a: Action)
    requires Inv(s)
    ensures AllocatorInv(Step(s, a))
  {
  }

  lemma TableStep(s: State, a: Action)
    requires Inv(s)
    ensures TableInv(Step(s, a))
  {
    if a.Record? && Enabled(s, a) {
      assert PhaseInv(s, a.t, s.phases[a.t]);
    }
  }

  lemma RemovalSplitsOutstanding(s: State, ids: set<u32>)
    requires TableInv(s)
    ensures Outstanding(s) == Serials(s.intents, ids) + Serials(s.intents - ids, (s.intents - ids).Keys)
    ensures Serials(s.intents, ids) !! Serials(s.intents - ids, (s.intents - ids).Keys)
  {
    var rest := s.intents - ids;
    forall n | n in Outstanding(s) ensures n in Serials(s.intents, ids) + Serials(rest, rest.Keys) {
      var id :| id in s.intents && s.intents[id].serial == n;
      assert id in ids || (id in rest && rest[id] == s.intents[id]);
    }
  }

  lemma RecordAddsSerial(s: State, id: u32, e: Entry)
    requires id !in s.intents
    ensures Serials(s.intents[id := e], s.intents[id := e].Keys) == Outstanding(s) + {e.serial}
  {
    var after := s.intents[id := e];
    forall n | n in Outstanding(s) + {e.serial} ensures n in Serials(after, after.Keys) {
      if n in Outstanding(s) {
        var k :| k in s.intents && s.intents[k].serial == n;
        assert k in after && after[k] == s.intents[k];
      } else {
        assert id in after && after[id] == e;
      }
    }
  }

  lemma FatesStep(s: State, a: Action)
    requires Inv(s)
    ensures FatesInv(Step(s, a))
  {
    var s' := Step(s, a);
    if Enabled(s, a) {
      match a
      case Record(t) =>
        var p := s.phases[t];
        assert PhaseInv(s, t, p);
        RecordAddsSerial(s, p.id, Entry(s.issued, Intent(p.polType, p.metric, s.now + INTENT_TTL)));
        assert Outstanding(s') == Outstanding(s) + {s.issued};
      case SendFailed(t) => RemovalSplitsOutstanding(s, {PhaseOf(s, t).id});
      case Take(id) =>
        RemovalSplitsOutstanding(s, {id});
        assert Serials(s.intents, {id}) == {s.intents[id].serial};
      case Forget(id) => RemovalSplitsOutstanding(s, {id});
      case Sweep(at) => RemovalSplitsOutstanding(s, Expired(s, at));
      case Clear => assert Outstanding(s') == {};
      case _ => assert Outstanding(s') == Outstanding(s);
    }
    forall n: nat ensures Fates(s', n) == Count(n < s'.issued) {
      assert Fates(s, n) == Count(n < s.issued);
    }
  }

  lemma {:induction false} RunKeepsInv(actions: seq<Action>)
    ensures Inv(Run(actions))
  {
    if actions != [] {
      var init, a := actions[..|actions| - 1], actions[|actions| - 1];
      RunKeepsInv(init);
      AllocatorStep(Run(init), a);
      TableStep(Run(init), a);
      FatesStep(Run(init), a);
    }
  }

  // ----- the properties

  /** An SRP-ID is recorded only while no intent is outstanding for it, so none is overwritten:
      an intent that is in the table before and after a step is the same intent. */
  lemma {:induction false} NoIntentIsOverwritten(actions: seq<Action>, a: Action, id: u32)
    requires id in Run(actions).intents && id in Step(Run(actions), a).intents
    ensures Step(Run(actions), a).intents[id] == Run(actions).intents[id]
    ensures a.Record? && Enabled(Run(actions), a) ==> PhaseOf(Run(actions), a.t).id != id
  {
    RunKeepsInv(actions);
    var s := Run(actions);
    if a.Record? && Enabled(s, a) {
      assert PhaseInv(s, a.t, s.phases[a.t]);
    }
  }

  /** Two callers are never both between probing and recording. */
  lemma {:induction false} AllocationIsExclusive(actions: seq<Action>, t: ThreadId, u: ThreadId)
    requires var s := Run(actions); (PhaseOf(s, t).Scanning? || PhaseOf(s, t).Found?)
                                    && (PhaseOf(s, u).Scanning? || PhaseOf(s, u).Found?)
    ensures t == u
  {
    RunKeepsInv(actions);
    var s := Run(actions);
    assert PhaseInv(s, t, s.phases[t]) && PhaseInv(s, u, s.phases[u]);
  }

  /** A message is only ever sent with an ID that is not reserved. */
  lemma SentIdsAreNotReserved(actions: seq<Action>, t: ThreadId)
    requires PhaseOf(Run(actions), t).Sending?
    ensures 1 <= PhaseOf(Run(actions), t).id < MAX_SRP_ID
  {
    RunKeepsInv(actions);
    assert PhaseInv(Run(actions), t, Run(actions).phases[t]);
  }

  /** What is consumed was outstanding, and had not been consumed, forgotten, swept or cleared. */
  lemma {:induction false} ConsumedAtMostOnce(actions: seq<Action>, id: u32)
    requires Enabled(Run(actions), Take(id))
    ensures var s, serial := Run(actions), Run(actions).intents[id].serial;
            && serial < s.issued && serial !in s.consumed + s.forgotten + s.swept + s.cleared
            && Step(s, Take(id)).consumed == s.consumed + {serial}
            && serial !in Outstanding(Step(s, Take(id)))
  {
    RunKeepsInv(actions);
    var s := Run(actions);
    FatesStep(s, Take(id));
    var serial := s.intents[id].serial;
    assert serial in Outstanding(s) && Fates(s, serial) == 1;
    assert Fates(Step(s, Take(id)), serial) == 1;
  }

  ghost function UpTo(n: nat): (r: set<nat>)
    ensures |r| == n && forall k: nat :: k in r <==> k < n
  {
    if n == 0 then {} else UpTo(n - 1) + {n - 1}
  }

  lemma {:induction false} SerialsSize(intents: map<u32, Entry>)
    requires forall i, j | i in intents && j in intents && i != j :: intents[i].serial != intents[j].serial
    ensures |Serials(intents, intents.Keys)| == |intents|
    decreases |intents|
  {
    if intents != map[] {
      var id :| id in intents;
      var rest := intents - {id};
      assert |rest.Keys| == |intents.Keys| - 1;
      SerialsSize(rest);
      assert rest[id := intents[id]] == intents;
      var n := intents[id].serial;
      forall k | k in Serials(intents, intents.Keys) ensures k in Serials(rest, rest.Keys) + {n} {
        var j :| j in intents && intents[j].serial == k;
        assert j == id || (j in rest && rest[j] == intents[j]);
      }
      assert Serials(intents, intents.Keys) == Serials(rest, rest.Keys) + {n};
      assert n !in Serials(rest, rest.Keys);
    }
  }

  lemma FatesAreDisjoint(s: State)
    requires FatesInv(s)
    ensures s.consumed !! s.forgotten !! s.swept !! s.cleared !! Outstanding(s)
    ensures UpTo(s.issued) == s.consumed + s.forgotten + s.swept + s.cleared + Outstanding(s)
  {
    forall n: nat
      ensures n in s.consumed ==> n !in s.forgotten && n !in s.swept && n !in s.cleared && n !in Outstanding(s)
      ensures n in s.forgotten ==> n !in s.swept && n !in s.cleared && n !in Outstanding(s)
      ensures n in s.swept ==> n !in s.cleared && n !in Outstanding(s)
      ensures n in s.cleared ==> n !in Outstanding(s)
      ensures n in UpTo(s.issued) <==> n in s.consumed + s.forgotten + s.swept + s.cleared + Outstanding(s)
    {
      assert Fates(s, n) == Count(n < s.issued);
    }
  }

  lemma DisjointSum(a: set<nat>, b: set<nat>, c: set<nat>, d: set<nat>, e: set<nat>)
    requires a !! b !! c !! d !! e
    ensures |a + b + c + d + e| == |a| + |b| + |c| + |d| + |e|
  {
  }

  /** Conservation: allocated = consumed + forgotten + swept + cleared + outstanding. */
  lemma {:induction false} IntentsAreConserved(actions: seq<Action>)
    ensures var s := Run(actions);
            s.issued == |s.consumed| + |s.forgotten| + |s.swept| + |s.cleared| + |s.intents|
  {
    RunKeepsInv(actions);
    var s := Run(actions);
    SerialsSize(s.intents);
    FatesAreDisjoint(s);
    DisjointSum(s.consumed, s.forgotten, s.swept, s.cleared, Outstanding(s));
  }

  /** Probes without a table change in between look at the IDs in cyclic order from the head, so
      what they find is what `NextUnusedSRPID` returns; one that finds nothing has seen every ID. */
  lemma {:induction false} ProbesFollowTheCycle(actions: seq<Action>, t: ThreadId)
    requires Enabled(Run(actions), Probe(t))
    ensures var s := Run(actions); var p := PhaseOf(s, t);
            var candidate := CyclicAt(s.head, MAX_SRP_ID, p.attempts);
            PhaseOf(Step(s, Probe(t)), t) ==
            if candidate in s.intents then Scanning(candidate + 1, p.attempts + 1, p.polType, p.metric)
            else Found(candidate, p.polType, p.metric)
  {
    RunKeepsInv(actions);
    assert PhaseInv(Run(actions), t, Run(actions).phases[t]);
  }

  /** An intent outlives a sweep exactly when it was recorded no more than sixty seconds before. */
  lemma {:induction false} IntentsLiveAMinute(s: State, t: ThreadId, elapsed: nat)
    requires Enabled(s, Record(t))
    ensures var id, later := PhaseOf(s, t).id, Step(Step(s, Record(t)), Tick(elapsed));
            id in later.intents && (id in Step(later, Sweep(later.now)).intents <==> elapsed <= 60)
  {
  }
}
