/** The intent table of the concurrent machine is that of the session: whatever its threads
    interleave is a run of session steps (pkg/server/session.go). */
module SessionIntents {
  import opened Bytes
  import opened Wrappers
  import opened Sessions
  import opened SessionRuns
  import M = IntentMachine

  /** The table without the numbering of allocations. */
  function TableOf(intents: map<u32, M.Entry>): map<u32, M.Intent> {
    map id | id in intents :: intents[id].intent
  }

  /** The session step that an action of the machine is: probing, sending and the clock leave the
      table alone, recording allocates, and everything else drops. */
  function StepsOfAction(s: M.State, a: M.Action): seq<Step> {
    if !M.Enabled(s, a) then []
    else
      match a
      case Record(t) =>
        var p := M.PhaseOf(s, t);
        [Recording(p.id, M.Intent(p.polType, p.metric, s.now + M.INTENT_TTL), None)]
      case SendFailed(t) => [Dropping({M.PhaseOf(s, t).id})]
      case Take(id) => [Dropping({id})]
      case Forget(id) => [Dropping({id})]
      case Sweep(at) => [Dropping(M.Expired(s, at))]
      case Clear => [Dropping(s.intents.Keys)]
      case _ => []
  }

  function StepsOfActions(actions: seq<M.Action>): seq<Step> {
    if actions == [] then []
    else
      var init, a := actions[..|actions| - 1], actions[|actions| - 1];
      StepsOfActions(init) + StepsOfAction(M.Run(init), a)
  }

  predicate Agrees(s: M.State, session: Session) {
    session.intents == TableOf(s.intents) && session.head == s.head
  }

  lemma {:induction false} DroppingAgrees(intents: map<u32, M.Entry>, ids: set<u32>)
    ensures TableOf(intents - ids) == TableOf(intents) - ids
  {
  }

  lemma {:induction false} RecordingAgrees(intents: map<u32, M.Entry>, id: u32, e: M.Entry)
    ensures TableOf(intents[id := e]) == TableOf(intents)[id := e.intent]
  {
  }

  lemma {:induction false} RecordIsStep(setup: Setup, s: M.State, t: M.ThreadId, session: Session)
    requires M.Inv(s) && Agrees(s, session) && M.Enabled(s, M.Record(t))
    ensures var a := M.Record(t); Agrees(M.Step(s, a), StepSession(setup, session, StepsOfAction(s, a)[0]))
  {
    var p := M.PhaseOf(s, t);
    assert M.PhaseInv(s, t, p);
    RecordingAgrees(s.intents, p.id, M.Entry(s.issued, M.Intent(p.polType, p.metric, s.now + M.INTENT_TTL)));
  }

  lemma {:induction false} DropIsStep(setup: Setup, s: M.State, a: M.Action, session: Session)
    requires Agrees(s, session) && M.Enabled(s, a) && (a.SendFailed? || a.Take? || a.Forget? || a.Sweep? || a.Clear?)
    ensures Agrees(M.Step(s, a), StepSession(setup, session, StepsOfAction(s, a)[0]))
  {
    match a
    case SendFailed(t) => DroppingAgrees(s.intents, {M.PhaseOf(s, t).id});
    case Take(id) => DroppingAgrees(s.intents, {id});
    case Forget(id) => DroppingAgrees(s.intents, {id});
    case Sweep(at) => DroppingAgrees(s.intents, M.Expired(s, at));
    case Clear => DroppingAgrees(s.intents, s.intents.Keys);
  }

  /** What was found unused while probing is still free when it is recorded, whatever other threads
      did in between: the machine's step is the session's. */
  lemma {:induction false} ActionIsSteps(setup: Setup, s: M.State, a: M.Action, session: Session)
    requires M.Inv(s) && Agrees(s, session)
    ensures Agrees(M.Step(s, a), RunSession(setup, session, StepsOfAction(s, a)))
  {
    if StepsOfAction(s, a) != [] {
      RunOne(setup, session, StepsOfAction(s, a)[0]);
      assert StepsOfAction(s, a) == [StepsOfAction(s, a)[0]];
      if a.Record? { RecordIsStep(setup, s, a.t, session); } else { DropIsStep(setup, s, a, session); }
    }
  }

  lemma {:induction false} RunConcat(setup: Setup, s: Session, xs: seq<Step>, ys: seq<Step>)
    ensures RunSession(setup, s, xs + ys) == RunSession(setup, RunSession(setup, s, xs), ys)
    decreases |xs|
  {
    if xs == [] {
      assert xs + ys == ys;
    } else {
      assert (xs + ys)[1..] == xs[1..] + ys;
      RunConcat(setup, StepSession(setup, s, xs[0]), xs[1..], ys);
    }
  }

  /** Over every interleaving of allocators, receiver and sweeper the machine's table and head are
      those of the session after the corresponding steps. */
  lemma {:induction false} InterleavingsAreRuns(setup: Setup, actions: seq<M.Action>)
    ensures Agrees(M.Run(actions), RunSession(setup, START, StepsOfActions(actions)))
  {
    if actions == [] {
      assert TableOf(map[]) == map[];
    } else {
      var init, a := actions[..|actions| - 1], actions[|actions| - 1];
      InterleavingsAreRuns(setup, init);
      M.RunKeepsInv(init);
      var session := RunSession(setup, START, StepsOfActions(init));
      ActionIsSteps(setup, M.Run(init), a, session);
      RunConcat(setup, START, StepsOfActions(init), StepsOfAction(M.Run(init), a));
    }
  }
}
