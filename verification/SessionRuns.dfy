/** What holds over every run of a session. The bodies under a mutex are the steps, and those of
    the receiver, of API callers and of the sweeper interleave in any order. */
module SessionRuns {
  import opened Bytes
  import opened Netip
  import opened Wrappers
  import opened Segments
  import opened Ted
  import opened IntentMachine
  import opened Reports
  import opened Sessions
  import Objects

  /** A step of some thread: the receiver registers, deletes or ends the synchronization; someone
      allocates an SRP-ID, for the PCUpd that follows an unsolicited report on `update` if that is
      what it is for; intents are forgotten, swept or cleared. */
  datatype Step =
    | Registering(r: Report)
    | Deleting(r: Report)
    | Syncing
    | Recording(id: u32, intent: Intent, update: Option<u32>)
    | Dropping(ids: set<u32>)

  function StepSession(setup: Setup, s: Session, a: Step): Session {
    match a
    case Registering(r) => Register(setup, s, r).0
    case Deleting(r) => Delete(s, r)
    case Syncing => s.(synced := true)
    case Recording(id, intent, _) =>
      if IsFree(s, id) then s.(head := ToU32(id + 1), intents := s.intents[id := intent]) else s
    case Dropping(ids) => s.(intents := s.intents - ids)
  }

  function RunSession(setup: Setup, s: Session, steps: seq<Step>): Session
    decreases |steps|
  {
    if steps == [] then s else RunSession(setup, StepSession(setup, s, steps[0]), steps[1..])
  }

  const START := Session([], map[], 1, false, [])

  // ----- the list as a map

  ghost predicate Distinct(ps: seq<Policy>) {
    forall i, j | 0 <= i < j < |ps| :: ps[i].plspID != ps[j].plspID
  }

  ghost predicate Sound(ps: seq<Policy>) {
    && Distinct(ps)
    && forall p | p in ps :: p.segs != [] && p.src.IsValid() && p.dst.IsValid()
  }

  function Lookup(ps: seq<Policy>, k: u32): Option<Policy> {
    match Search(ps, k) case None => None case Some(i) => Some(ps[i])
  }

  ghost function AsMap(ps: seq<Policy>): map<u32, Policy> {
    map p | p in ps :: p.plspID := Lookup(ps, p.plspID).value
  }

  lemma {:induction false} LookupIsTheEntry(ps: seq<Policy>, i: nat)
    requires Distinct(ps) && i < |ps|
    ensures Lookup(ps, ps[i].plspID) == Some(ps[i])
  {
    assert ps[i] in ps;
    assert Search(ps, ps[i].plspID).value == i;
  }

  lemma {:induction false} AsMapIsLookup(ps: seq<Policy>, k: u32)
    ensures k in AsMap(ps) <==> Lookup(ps, k).Some?
    ensures k in AsMap(ps) ==> Lookup(ps, k) == Some(AsMap(ps)[k]) && AsMap(ps)[k] in ps && AsMap(ps)[k].plspID == k
  {
  }

  /** What the map has under a key. */
  function At(m: map<u32, Policy>, k: u32): Option<Policy> {
    if k in m then Some(m[k]) else None
  }

  lemma {:induction false} SameEntries(m: map<u32, Policy>, n: map<u32, Policy>)
    requires forall k: u32 :: At(m, k) == At(n, k)
    ensures m == n
  {
    assert forall k | k in m :: At(m, k) == Some(m[k]);
    assert forall k | k in n :: At(n, k) == Some(n[k]);
  }

  lemma {:induction false} SameLookups(ps: seq<Policy>, m: map<u32, Policy>)
    requires forall k: u32 :: Lookup(ps, k) == At(m, k)
    ensures AsMap(ps) == m
  {
    forall k: u32
      ensures At(AsMap(ps), k) == At(m, k)
    {
      AsMapIsLookup(ps, k);
    }
    SameEntries(AsMap(ps), m);
  }

  // ----- the steps on the map

  function RegisterInMap(setup: Setup, m: map<u32, Policy>, intent: Option<Intent>, r: Report): map<u32, Policy> {
    var k, d := r.lsp.plspID, DiffOf(setup, r);
    if d.segs == [] then m
    else if k in m then
      if m[k].lspID <= d.lspID then m[k := WithIntent(Updated(m[k], d), intent)] else m
    else if SourceOf(r).IsValid() && DestinationOf(r).IsValid() then
      m[k := WithIntent(Policy(k, d.name, d.segs, SourceOf(r), DestinationOf(r), d.color, d.preference,
                               d.lspID, d.state, UnknownType, Unspecified), intent)]
    else m
  }

  function DeleteInMap(m: map<u32, Policy>, r: Report): map<u32, Policy> {
    if r.lsp.plspID in m && m[r.lsp.plspID].lspID <= r.lsp.lspID then m - {r.lsp.plspID} else m
  }

  lemma {:induction false} ReplacedLookup(ps: seq<Policy>, i: nat, p: Policy, k: u32)
    requires Distinct(ps) && i < |ps| && p.plspID == ps[i].plspID
    ensures Lookup(ps[i := p], k) == if k == p.plspID then Some(p) else Lookup(ps, k)
  {
    var ps' := ps[i := p];
    if Lookup(ps, k).Some? {
      var j := Search(ps, k).value;
      assert k == p.plspID ==> j == i;
      LookupIsTheEntry(ps', j);
    } else {
      assert ps[i] in ps;
      assert forall q | q in ps' :: q.plspID != k;
    }
  }

  lemma {:induction false} AppendedLookup(ps: seq<Policy>, p: Policy, k: u32)
    requires Distinct(ps + [p])
    ensures Lookup(ps + [p], k) == if k == p.plspID then Some(p) else Lookup(ps, k)
  {
    var ps' := ps + [p];
    if k == p.plspID {
      LookupIsTheEntry(ps', |ps|);
      assert ps'[|ps|] == p;
    } else if Lookup(ps, k).Some? {
      var j := Search(ps, k).value;
      assert ps'[j] == ps[j];
      LookupIsTheEntry(ps', j);
    } else {
      assert forall q | q in ps' :: q.plspID != k;
    }
  }

  /** Swapping the last entry into the gap takes out entry `i` and no other. */
  lemma {:induction false} SwapDeletedLookup(ps: seq<Policy>, i: nat, k: u32)
    requires Distinct(ps) && i < |ps|
    ensures Distinct(SwapDelete(ps, i))
    ensures Lookup(SwapDelete(ps, i), k) == if k == ps[i].plspID then None else Lookup(ps, k)
  {
    var ps', last := SwapDelete(ps, i), |ps| - 1;
    assert forall j | 0 <= j < last :: ps'[j] == if j == i then ps[last] else ps[j];
    if k != ps[i].plspID && Lookup(ps, k).Some? {
      var j := Search(ps, k).value;
      LookupIsTheEntry(ps', if j == last then i else j);
    } else {
      assert k != ps[i].plspID ==> forall q | q in ps :: q.plspID != k;
      assert forall q | q in ps' :: q.plspID != k;
    }
  }

  lemma {:induction false} RegisterKeepsDistinct(setup: Setup, s: Session, r: Report)
    requires Distinct(s.policies)
    ensures Distinct(Register(setup, s, r).0.policies)
  {
  }

  lemma {:induction false} RegisterFoundLookup(setup: Setup, s: Session, r: Report, k: u32)
    requires Distinct(s.policies) && r.lsp.plspID in AsMap(s.policies)
    ensures Lookup(Register(setup, s, r).0.policies, k)
            == At(RegisterInMap(setup, AsMap(s.policies), IntentOf(s.intents, r.srp.srpID), r), k)
  {
    var ps := s.policies;
    AsMapIsLookup(ps, k);
    AsMapIsLookup(ps, r.lsp.plspID);
    var i, ps' := Search(ps, r.lsp.plspID).value, Register(setup, s, r).0.policies;
    if ps' != ps {
      assert ps' == ps[i := ps'[i]];
      ReplacedLookup(ps, i, ps'[i], k);
    }
  }

  lemma {:induction false} RegisterAbsentLookup(setup: Setup, s: Session, r: Report, k: u32)
    requires Distinct(s.policies) && r.lsp.plspID !in AsMap(s.policies)
    ensures Lookup(Register(setup, s, r).0.policies, k)
            == At(RegisterInMap(setup, AsMap(s.policies), IntentOf(s.intents, r.srp.srpID), r), k)
  {
    var ps := s.policies;
    AsMapIsLookup(ps, k);
    AsMapIsLookup(ps, r.lsp.plspID);
    RegisterKeepsDistinct(setup, s, r);
    var ps' := Register(setup, s, r).0.policies;
    if ps' != ps {
      AppendedLookup(ps, ps'[|ps|], k);
    }
  }

  lemma {:induction false} RegisterLookup(setup: Setup, s: Session, r: Report, k: u32)
    requires Distinct(s.policies)
    ensures Lookup(Register(setup, s, r).0.policies, k)
            == At(RegisterInMap(setup, AsMap(s.policies), IntentOf(s.intents, r.srp.srpID), r), k)
  {
    if r.lsp.plspID in AsMap(s.policies) {
      RegisterFoundLookup(setup, s, r, k);
    } else {
      RegisterAbsentLookup(setup, s, r, k);
    }
  }

  lemma {:induction false} RegisterRefines(setup: Setup, s: Session, r: Report)
    requires Distinct(s.policies)
    ensures AsMap(Register(setup, s, r).0.policies) == RegisterInMap(setup, AsMap(s.policies), IntentOf(s.intents, r.srp.srpID), r)
  {
    var m' := RegisterInMap(setup, AsMap(s.policies), IntentOf(s.intents, r.srp.srpID), r);
    forall k: u32
      ensures Lookup(Register(setup, s, r).0.policies, k) == At(m', k)
    {
      RegisterLookup(setup, s, r, k);
    }
    SameLookups(Register(setup, s, r).0.policies, m');
  }

  /** An entry is old for the deletion exactly when the one under the PLSP-ID is. */
  lemma {:induction false} SearchOldIsLookup(ps: seq<Policy>, plspID: u32, lspID: u16)
    requires Distinct(ps)
    ensures SearchOld(ps, plspID, lspID).Some? <==> Lookup(ps, plspID).Some? && Lookup(ps, plspID).value.lspID <= lspID
    ensures SearchOld(ps, plspID, lspID).Some? ==> Lookup(ps, plspID) == Some(ps[SearchOld(ps, plspID, lspID).value])
  {
    match SearchOld(ps, plspID, lspID)
    case Some(i) => LookupIsTheEntry(ps, i);
    case None => assert Lookup(ps, plspID).Some? ==> Lookup(ps, plspID).value in ps;
  }

  lemma {:induction false} DeleteFoundLookup(s: Session, r: Report, i: nat, k: u32)
    requires Distinct(s.policies) && SearchOld(s.policies, r.lsp.plspID, r.lsp.lspID) == Some(i)
    ensures Lookup(Delete(s, r).policies, k) == if k == r.lsp.plspID then None else Lookup(s.policies, k)
  {
    SwapDeletedLookup(s.policies, i, k);
  }

  lemma {:induction false} DeleteLookup(s: Session, r: Report, k: u32)
    requires Distinct(s.policies)
    ensures Lookup(Delete(s, r).policies, k) == At(DeleteInMap(AsMap(s.policies), r), k)
  {
    AsMapIsLookup(s.policies, k);
    AsMapIsLookup(s.policies, r.lsp.plspID);
    SearchOldIsLookup(s.policies, r.lsp.plspID, r.lsp.lspID);
    var found := SearchOld(s.policies, r.lsp.plspID, r.lsp.lspID);
    if found.Some? {
      DeleteFoundLookup(s, r, found.value, k);
    }
  }

  lemma {:induction false} DeleteRefines(s: Session, r: Report)
    requires Distinct(s.policies)
    ensures Distinct(Delete(s, r).policies) && AsMap(Delete(s, r).policies) == DeleteInMap(AsMap(s.policies), r)
  {
    forall k: u32
      ensures Lookup(Delete(s, r).policies, k) == At(DeleteInMap(AsMap(s.policies), r), k)
    {
      DeleteLookup(s, r, k);
    }
    SameLookups(Delete(s, r).policies, DeleteInMap(AsMap(s.policies), r));
    match SearchOld(s.policies, r.lsp.plspID, r.lsp.lspID)
    case Some(i) => SwapDeletedLookup(s.policies, i, 0);
    case None =>
  }

  /** The session with its list replaced by a map. */
  datatype MapState = MapState(policies: map<u32, Policy>, intents: map<u32, Intent>)

  function ApplyToMap(setup: Setup, s: MapState, a: Step): MapState {
    match a
    case Registering(r) =>
      var m' := RegisterInMap(setup, s.policies, IntentOf(s.intents, r.srp.srpID), r);
      MapState(m', if Accepts(setup, s.policies, r) then Without(s.intents, r.srp.srpID) else s.intents)
    case Deleting(r) =>
      var hit := r.lsp.plspID in s.policies && s.policies[r.lsp.plspID].lspID <= r.lsp.lspID;
      MapState(DeleteInMap(s.policies, r), if hit then Without(s.intents, r.srp.srpID) else s.intents)
    case Syncing => s
    case Recording(id, intent, _) =>
      if 1 <= id < MAX_SRP_ID && id !in s.intents then s.(intents := s.intents[id := intent]) else s
    case Dropping(ids) => s.(intents := s.intents - ids)
  }

  /** The report changes an entry or makes one. */
  predicate Accepts(setup: Setup, m: map<u32, Policy>, r: Report) {
    && DiffOf(setup, r).segs != []
    && if r.lsp.plspID in m then m[r.lsp.plspID].lspID <= r.lsp.lspID else SourceOf(r).IsValid() && DestinationOf(r).IsValid()
  }

  function RunOnMap(setup: Setup, s: MapState, steps: seq<Step>): MapState
    decreases |steps|
  {
    if steps == [] then s else RunOnMap(setup, ApplyToMap(setup, s, steps[0]), steps[1..])
  }

  ghost function Abstract(s: Session): MapState {
    MapState(AsMap(s.policies), s.intents)
  }

  /** Which reports register or delete, seen in the list and in the map. */
  lemma {:induction false} IntentsRefine(setup: Setup, s: Session, r: Report)
    requires Distinct(s.policies)
    ensures Register(setup, s, r).0.intents ==
            if Accepts(setup, AsMap(s.policies), r) then Without(s.intents, r.srp.srpID) else s.intents
    ensures Delete(s, r).intents ==
            if r.lsp.plspID in AsMap(s.policies) && AsMap(s.policies)[r.lsp.plspID].lspID <= r.lsp.lspID
            then Without(s.intents, r.srp.srpID) else s.intents
  {
    AsMapIsLookup(s.policies, r.lsp.plspID);
    SearchOldIsLookup(s.policies, r.lsp.plspID, r.lsp.lspID);
  }

  lemma {:induction false} StepKeepsSound(setup: Setup, s: Session, a: Step)
    requires Sound(s.policies)
    ensures Sound(StepSession(setup, s, a).policies)
  {
    match a
    case Registering(r) => RegisterKeepsDistinct(setup, s, r);
    case Deleting(r) =>
      DeleteRefines(s, r);
      assert forall p | p in Delete(s, r).policies :: p in s.policies;
    case _ =>
  }

  lemma {:induction false} StepRefines(setup: Setup, s: Session, a: Step)
    requires Sound(s.policies)
    ensures Abstract(StepSession(setup, s, a)) == ApplyToMap(setup, Abstract(s), a)
  {
    match a
    case Registering(r) =>
      RegisterRefines(setup, s, r);
      IntentsRefine(setup, s, r);
    case Deleting(r) =>
      DeleteRefines(s, r);
      IntentsRefine(setup, s, r);
    case _ =>
  }

  /** The main result: over every run the list is a map from PLSP-IDs to policies, whatever order
      updates in place, appends and swap-deletes leave it in; its keys are unique, no policy is
      without segments, and every endpoint is an address. */
  lemma {:induction false} ListRefinesMap(setup: Setup, s: Session, steps: seq<Step>)
    requires Sound(s.policies)
    ensures Sound(RunSession(setup, s, steps).policies)
    ensures Abstract(RunSession(setup, s, steps)) == RunOnMap(setup, Abstract(s), steps)
    decreases |steps|
  {
    if steps != [] {
      StepKeepsSound(setup, s, steps[0]);
      StepRefines(setup, s, steps[0]);
      ListRefinesMap(setup, StepSession(setup, s, steps[0]), steps[1..]);
    }
  }

  /** From an empty session on. */
  lemma {:induction false} RunsFromStart(setup: Setup, steps: seq<Step>)
    ensures Sound(RunSession(setup, START, steps).policies)
    ensures Abstract(RunSession(setup, START, steps)) == RunOnMap(setup, MapState(map[], map[]), steps)
  {
    ListRefinesMap(setup, START, steps);
  }

  /** The entry of `k` is there before the run and after each of its steps. */
  ghost predicate Lives(setup: Setup, s: Session, steps: seq<Step>, k: u32)
    decreases |steps|
  {
    k in AsMap(s.policies) && (steps == [] || Lives(setup, StepSession(setup, s, steps[0]), steps[1..], k))
  }

  lemma {:induction false} LiveEntryStep(setup: Setup, s: Session, a: Step, k: u32)
    requires Sound(s.policies) && k in AsMap(s.policies) && k in AsMap(StepSession(setup, s, a).policies)
    ensures var m, m' := AsMap(s.policies), AsMap(StepSession(setup, s, a).policies);
            && m[k].plspID == k && m'[k].plspID == k
            && m[k].lspID <= m'[k].lspID && m'[k].src == m[k].src && m'[k].dst == m[k].dst
  {
    StepRefines(setup, s, a);
    AsMapIsLookup(s.policies, k);
  }

  /** While an entry lives its LSP-ID does not decrease and its endpoints stay, also through
      deletions that are too old to remove it. */
  lemma {:induction false} LiveEntry(setup: Setup, s: Session, steps: seq<Step>, k: u32)
    requires Sound(s.policies) && Lives(setup, s, steps, k)
    ensures k in AsMap(RunSession(setup, s, steps).policies)
    ensures var before, after := AsMap(s.policies)[k], AsMap(RunSession(setup, s, steps).policies)[k];
            before.lspID <= after.lspID && after.src == before.src && after.dst == before.dst
    decreases |steps|
  {
    if steps != [] {
      var s' := StepSession(setup, s, steps[0]);
      assert Lives(setup, s', steps[1..], k);
      LiveEntryStep(setup, s, steps[0], k);
      StepKeepsSound(setup, s, steps[0]);
      LiveEntry(setup, s', steps[1..], k);
    }
  }

  /** What ends an entry's life: a deletion that names it and is not older, and nothing else. */
  lemma {:induction false} EntryEndsExactlyWhen(setup: Setup, s: Session, a: Step, k: u32)
    requires Sound(s.policies) && k in AsMap(s.policies)
    ensures k !in AsMap(StepSession(setup, s, a).policies)
            <==> a.Deleting? && a.r.lsp.plspID == k && AsMap(s.policies)[k].lspID <= a.r.lsp.lspID
  {
    StepRefines(setup, s, a);
  }

  /** A deletion takes out at most the named entry, and that only if it is not newer. */
  lemma {:induction false} DeletionIsLocal(s: Session, r: Report, k: u32)
    requires Sound(s.policies)
    ensures var before, after := AsMap(s.policies), AsMap(Delete(s, r).policies);
            && (k in after <==> k in before && !(k == r.lsp.plspID && before[k].lspID <= r.lsp.lspID))
            && (k in after ==> after[k] == before[k])
  {
    DeleteRefines(s, r);
  }

  // ----- the answer to an update

  /** The SRP-IDs whose outstanding intents were recorded for updates of `k`. */
  function Own(s: Session, own: set<u32>, a: Step, k: u32): set<u32> {
    if a.Recording? && IsFree(s, a.id) then
      if a.update == Some(k) then own + {a.id} else own - {a.id}
    else own
  }

  /** The step is not the doing of another API call on `k`: a report on it takes no intent but its
      own, or is stale; it is not deleted; and what is recorded for an update of it is its own Type and Metric. */
  ghost predicate Quiet(s: Session, own: set<u32>, a: Step, k: u32) {
    match Lookup(s.policies, k)
    case None => false
    case Some(p) =>
      match a
      case Registering(r) =>
        r.lsp.plspID == k && p.lspID <= r.lsp.lspID ==> r.srp.srpID in own || IntentOf(s.intents, r.srp.srpID).None?
      case Deleting(r) => r.lsp.plspID == k ==> p.lspID > r.lsp.lspID
      case Recording(_, intent, update) => update == Some(k) ==> intent.polType == p.polType && intent.metric == p.metric
      case _ => true
  }

  ghost predicate QuietRun(setup: Setup, s: Session, own: set<u32>, steps: seq<Step>, k: u32)
    decreases |steps|
  {
    steps == [] ||
    (Quiet(s, own, steps[0], k) && QuietRun(setup, StepSession(setup, s, steps[0]), Own(s, own, steps[0], k), steps[1..], k))
  }

  ghost predicate EntryHas(s: Session, k: u32, polType: PolicyType, metric: MetricType) {
    match Lookup(s.policies, k) case None => false case Some(p) => p.polType == polType && p.metric == metric
  }

  /** The entry has this Type and Metric, and so have the outstanding intents for its updates. */
  ghost predicate Keeps(s: Session, own: set<u32>, k: u32, polType: PolicyType, metric: MetricType) {
    && EntryHas(s, k, polType, metric)
    && forall id | id in own && id in s.intents :: s.intents[id].polType == polType && s.intents[id].metric == metric
  }

  lemma {:induction false} QuietRegisterKeepsEntry(setup: Setup, s: Session, own: set<u32>, r: Report, k: u32, polType: PolicyType, metric: MetricType)
    requires Distinct(s.policies) && Quiet(s, own, Registering(r), k) && Keeps(s, own, k, polType, metric)
    ensures EntryHas(Register(setup, s, r).0, k, polType, metric)
  {
    RegisterLookup(setup, s, r, k);
    AsMapIsLookup(s.policies, k);
  }

  lemma {:induction false} QuietRegisterKeeps(setup: Setup, s: Session, own: set<u32>, r: Report, k: u32, polType: PolicyType, metric: MetricType)
    requires Distinct(s.policies) && Quiet(s, own, Registering(r), k) && Keeps(s, own, k, polType, metric)
    ensures Keeps(Register(setup, s, r).0, own, k, polType, metric)
  {
    QuietRegisterKeepsEntry(setup, s, own, r, k, polType, metric);
  }

  lemma {:induction false} QuietDeleteKeeps(s: Session, own: set<u32>, r: Report, k: u32, polType: PolicyType, metric: MetricType)
    requires Distinct(s.policies) && Quiet(s, own, Deleting(r), k) && Keeps(s, own, k, polType, metric)
    ensures Keeps(Delete(s, r), own, k, polType, metric)
  {
    SearchOldIsLookup(s.policies, r.lsp.plspID, r.lsp.lspID);
    match SearchOld(s.policies, r.lsp.plspID, r.lsp.lspID)
    case Some(i) => SwapDeletedLookup(s.policies, i, k);
    case None =>
  }

  lemma {:induction false} QuietStepKeeps(setup: Setup, s: Session, own: set<u32>, a: Step, k: u32, polType: PolicyType, metric: MetricType)
    requires Distinct(s.policies) && Quiet(s, own, a, k) && Keeps(s, own, k, polType, metric)
    ensures Keeps(StepSession(setup, s, a), Own(s, own, a, k), k, polType, metric)
  {
    match a
    case Registering(r) => QuietRegisterKeeps(setup, s, own, r, k, polType, metric);
    case Deleting(r) => QuietDeleteKeeps(s, own, r, k, polType, metric);
    case _ =>
  }

  /** The SRP-IDs that are `k`'s own after the run. */
  function OwnAfter(setup: Setup, s: Session, own: set<u32>, steps: seq<Step>, k: u32): set<u32>
    decreases |steps|
  {
    if steps == [] then own else OwnAfter(setup, StepSession(setup, s, steps[0]), Own(s, own, steps[0], k), steps[1..], k)
  }

  lemma {:induction false} OwnStays(setup: Setup, s: Session, own: set<u32>, steps: seq<Step>, k: u32, id: u32)
    requires QuietRun(setup, s, own, steps, k) && id in own
    requires forall a | a in steps :: !(a.Recording? && a.id == id)
    ensures id in OwnAfter(setup, s, own, steps, k)
    decreases |steps|
  {
    if steps != [] {
      assert steps[0] in steps;
      OwnStays(setup, StepSession(setup, s, steps[0]), Own(s, own, steps[0], k), steps[1..], k, id);
    }
  }

  /** Answers to updates of a policy never change its Type and Metric, however many updates are
      under way and whatever happens to their intents, until another API call on it is answered. */
  lemma {:induction false} AnswersKeepTypeAndMetric(setup: Setup, s: Session, own: set<u32>, steps: seq<Step>, k: u32, polType: PolicyType, metric: MetricType)
    requires Sound(s.policies) && QuietRun(setup, s, own, steps, k) && Keeps(s, own, k, polType, metric)
    ensures Sound(RunSession(setup, s, steps).policies)
    ensures Keeps(RunSession(setup, s, steps), OwnAfter(setup, s, own, steps, k), k, polType, metric)
    decreases |steps|
  {
    if steps != [] {
      QuietStepKeeps(setup, s, own, steps[0], k, polType, metric);
      StepKeepsSound(setup, s, steps[0]);
      AnswersKeepTypeAndMetric(setup, StepSession(setup, s, steps[0]), Own(s, own, steps[0], k), steps[1..], k, polType, metric);
    }
  }

  // ----- a handled report as steps

  /** Sending an update: record the intent, and drop it again when the update was not sent. */
  function StepsOfSending(s: Session, p: Policy, w: World): seq<Step> {
    match FirstFree(s, 0)
    case None => []
    case Some(id) =>
      [Recording(id, Intent(p.polType, p.metric, w.now + INTENT_TTL), Some(p.plspID))]
      + if SendPCUpdate(s, p, w).1 then [] else [Dropping({id})]
  }

  /** What an unsolicited report does with a computed path. */
  function StepsOfComputed(setup: Setup, s: Session, r: Report, w: World): seq<Step> {
    var (registered, ok) := Register(setup, s, r);
    if !ok then [Registering(r)]
    else
      match Search(registered.policies, r.lsp.plspID)
      case None => [Registering(r)]
      case Some(i) => [Registering(r)] + StepsOfSending(registered, registered.policies[i], w)
  }

  /** What a report does, as the steps under a mutex it consists of. */
  function StepsOf(setup: Setup, s: Session, r: Report, w: World): seq<Step> {
    if r.lsp.sFlag then [Registering(r)]
    else if r.lsp.plspID == 0 then [Syncing]
    else if r.lsp.rFlag then [Deleting(r)]
    else if r.srp.srpID != 0 || !w.hasTed then [Registering(r)]
    else if w.computed.None? then []
    else StepsOfComputed(setup, s, r.(ero := Objects.Route(1, CreateEro(w.computed.value))), w)
  }

  lemma {:induction false} RunOne(setup: Setup, s: Session, a: Step)
    ensures RunSession(setup, s, [a]) == StepSession(setup, s, a)
  {
  }

  lemma {:induction false} RunFirst(setup: Setup, s: Session, a: Step, steps: seq<Step>)
    ensures RunSession(setup, s, [a] + steps) == RunSession(setup, StepSession(setup, s, a), steps)
  {
    assert ([a] + steps)[1..] == steps;
  }

  lemma {:induction false} SendingRecords(s: Session, p: Policy, w: World, id: u32)
    requires FirstFree(s, 0) == Some(id)
    ensures var recorded := s.(head := id + 1, intents := s.intents[id := Intent(p.polType, p.metric, w.now + INTENT_TTL)]);
            SendPCUpdate(s, p, w).0.(sent := s.sent) ==
            if SendPCUpdate(s, p, w).1 then recorded else recorded.(intents := recorded.intents - {id})
  {
  }

  lemma {:induction false} RecordingRuns(setup: Setup, s: Session, id: u32, intent: Intent, k: u32, sent: bool)
    requires IsFree(s, id)
    ensures var recorded := s.(head := id + 1, intents := s.intents[id := intent]);
            RunSession(setup, s, [Recording(id, intent, Some(k))] + if sent then [] else [Dropping({id})]) ==
            if sent then recorded else recorded.(intents := recorded.intents - {id})
  {
    var recording := Recording(id, intent, Some(k));
    RunFirst(setup, s, recording, []);
    RunFirst(setup, s, recording, [Dropping({id})]);
    RunOne(setup, StepSession(setup, s, recording), Dropping({id}));
  }

  lemma {:induction false} SendingIsSteps(setup: Setup, s: Session, p: Policy, w: World)
    ensures RunSession(setup, s, StepsOfSending(s, p, w)) == SendPCUpdate(s, p, w).0.(sent := s.sent)
  {
    if FirstFree(s, 0).Some? {
      var id := FirstFree(s, 0).value;
      SendingRecords(s, p, w, id);
      RecordingRuns(setup, s, id, Intent(p.polType, p.metric, w.now + INTENT_TTL), p.plspID, SendPCUpdate(s, p, w).1);
    }
  }

  lemma {:induction false} ComputedIsSteps(setup: Setup, s: Session, r: Report, w: World)
    ensures RunSession(setup, s, StepsOfComputed(setup, s, r, w)) == HandleComputed(setup, s, r, w).0.(sent := s.sent)
  {
    var (registered, ok) := Register(setup, s, r);
    RunOne(setup, s, Registering(r));
    if ok && Search(registered.policies, r.lsp.plspID).Some? {
      var p := registered.policies[Search(registered.policies, r.lsp.plspID).value];
      RunFirst(setup, s, Registering(r), StepsOfSending(registered, p, w));
      SendingIsSteps(setup, registered, p, w);
    }
  }

  /** Handling a report is running its steps, so what holds over every interleaving of steps holds
      of reports handled among the steps of other threads. */
  lemma {:induction false} HandleIsSteps(setup: Setup, s: Session, r: Report, w: World)
    ensures RunSession(setup, s, StepsOf(setup, s, r, w)) == Handle(setup, s, r, w).0.(sent := s.sent)
  {
    if r.lsp.sFlag {
      RunOne(setup, s, Registering(r));
    } else if r.lsp.plspID == 0 {
      RunOne(setup, s, Syncing);
    } else if r.lsp.rFlag {
      RunOne(setup, s, Deleting(r));
    } else if r.srp.srpID != 0 || !w.hasTed {
      RunOne(setup, s, Registering(r));
    } else if w.computed.Some? {
      ComputedIsSteps(setup, s, r.(ero := Objects.Route(1, CreateEro(w.computed.value))), w);
    }
  }
}
