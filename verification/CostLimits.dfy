/** How far the invariant of the path computation depends on `uint32` sums, and bounds a caller
    can check (pkg/cspf/cspf.go). */
module CostLimits {
  import opened Bytes
  import opened FoundPaths
  import opened LooseRouting
  import opened Rounds
  import opened ShortestPath
  import opened Ted
  import opened Walks
  import opened Wrappers

  // ----- one round

  /** A cost below that of the expanded node, written while expanding it. */
  predicate Undercuts(s: Table, u: RouterId, src: RouterId, cost: nat, v: RouterId) {
    v in s && v != src && s[v].prev == u && s[v].cost < cost
  }

  /** While `u`, whose cost was `cost`, is expanded: its own cost changes only by being undercut. */
  predicate UnderExpansion(s: Table, u: RouterId, src: RouterId, cost: nat) {
    && src in s && s[src].cost == 0 && u in s && s[u].cost <= cost
    && (s[u].cost < cost ==> Undercuts(s, u, src, cost, u))
  }

  lemma {:induction false} UndercutStays(net: Network, t: MetricType, s: Table, u: RouterId, src: RouterId, cost: nat, l: LsLink)
    requires UnderExpansion(s, u, src, cost) && l.remote in net && RelaxLink(net, s, u, l, t).Ok?
    ensures var s' := RelaxLink(net, s, u, l, t).value;
            && UnderExpansion(s', u, src, cost)
            && forall v | Undercuts(s, u, src, cost, v) :: Undercuts(s', u, src, cost, v)
  {
  }

  /** A wrapped sum is smaller than the cost it was made from. */
  lemma {:induction false} WrappedSumUndercuts(net: Network, t: MetricType, s: Table, u: RouterId, src: RouterId, cost: nat, l: LsLink)
    requires UnderExpansion(s, u, src, cost) && l.remote in net && RelaxLink(net, s, u, l, t).Ok?
    requires StoresWrapped(s, u, l, t)
    ensures Undercuts(RelaxLink(net, s, u, l, t).value, u, src, cost, l.remote)
  {
    var m := LinkMetric(l, t).value;
    assert Add32(s[u].cost, m) == s[u].cost + m - 0x1_0000_0000;
  }

  lemma {:induction false} UndercutsStay(net: Network, t: MetricType, s: Table, u: RouterId, src: RouterId, cost: nat, ls: seq<LsLink>)
    requires UnderExpansion(s, u, src, cost) && forall l | l in ls :: l.remote in net
    requires RelaxLinks(net, s, u, ls, t).Ok?
    ensures var s' := RelaxLinks(net, s, u, ls, t).value;
            && UnderExpansion(s', u, src, cost)
            && forall v | Undercuts(s, u, src, cost, v) :: Undercuts(s', u, src, cost, v)
    decreases |ls|
  {
    if ls != [] {
      UndercutStays(net, t, s, u, src, cost, ls[0]);
      UndercutsStay(net, t, RelaxLink(net, s, u, ls[0], t).value, u, src, cost, ls[1..]);
    }
  }

  lemma {:induction false} WrittenWrapUndercuts(net: Network, t: MetricType, s: Table, u: RouterId, src: RouterId, cost: nat, ls: seq<LsLink>)
      returns (v: RouterId)
    requires UnderExpansion(s, u, src, cost) && forall l | l in ls :: l.remote in net
    requires RelaxLinks(net, s, u, ls, t).Ok? && !KeepsSums(net, s, u, ls, t)
    ensures Undercuts(RelaxLinks(net, s, u, ls, t).value, u, src, cost, v)
    decreases |ls|
  {
    var s' := RelaxLink(net, s, u, ls[0], t).value;
    UndercutStays(net, t, s, u, src, cost, ls[0]);
    if StoresWrapped(s, u, ls[0], t) {
      v := ls[0].remote;
      WrappedSumUndercuts(net, t, s, u, src, cost, ls[0]);
      UndercutsStay(net, t, s', u, src, cost, ls[1..]);
    } else {
      v := WrittenWrapUndercuts(net, t, s', u, src, cost, ls[1..]);
    }
  }

  /** No link explains a cost that undercuts the node its back-pointer names. */
  lemma {:induction false} UndercutHasNoBack(net: Network, t: MetricType, s: Table, u: RouterId, src: RouterId, cost: nat, x: RouterId, order: seq<RouterId>)
    requires UnderExpansion(s, u, src, cost) && Undercuts(s, u, src, cost, x) && (s[u].cost < cost ==> x == u)
    ensures !Back(net, t, Settle(s, u), order, x)
  {
  }

  lemma {:induction false} UndercutIsUnsound(net: Network, t: MetricType, s: Table, u: RouterId, src: RouterId, cost: nat, v: RouterId)
    requires UnderExpansion(s, u, src, cost) && Undercuts(s, u, src, cost, v)
    ensures forall order :: !Inv(net, t, src, Settle(s, u), order)
  {
    var x := if s[u].cost < cost then u else v;
    forall order
      ensures !Inv(net, t, src, Settle(s, u), order)
    {
      UndercutHasNoBack(net, t, s, u, src, cost, x, order);
    }
  }

  /** Some order of settling explains the table. */
  ghost predicate HasOrder(net: Network, t: MetricType, src: RouterId, s: Table) {
    exists order :: Inv(net, t, src, s, order)
  }

  /** One round keeps the invariant, for any order of settling, exactly when no relaxation of it
      writes a sum that wrapped. */
  lemma {:induction false} RoundIsSoundExactlyWhenNoWrapIsWritten(net: Network, t: MetricType, src: RouterId, s: Table, order: seq<RouterId>, u: RouterId)
    requires LinksClosed(net) && u in net && Inv(net, t, src, s, order) && IsNext(s, u)
    requires RelaxLinks(net, s, u, net[u].links, t).Ok?
    ensures u in RelaxLinks(net, s, u, net[u].links, t).value
    ensures HasOrder(net, t, src, Settle(RelaxLinks(net, s, u, net[u].links, t).value, u))
            <==> KeepsSums(net, s, u, net[u].links, t)
  {
    var s' := RelaxLinks(net, s, u, net[u].links, t).value;
    UndercutsStay(net, t, s, u, src, s[u].cost, net[u].links);
    if KeepsSums(net, s, u, net[u].links, t) {
      ExpandKeepsInv(net, t, src, s, order, u);
    } else {
      var v := WrittenWrapUndercuts(net, t, s, u, src, s[u].cost, net[u].links);
      UndercutIsUnsound(net, t, s', u, src, s[u].cost, v);
    }
  }

  // ----- whole runs

  /** The table that any run reaches has one. */
  ghost predicate RunsAreSound(net: Network, t: MetricType, src: RouterId, dst: RouterId)
    requires LinksClosed(net)
  {
    forall order, s | IsRun(net, t, src, dst, order, s) :: HasOrder(net, t, src, s)
  }

  lemma {:induction false} SoundRoundKeepsSums(net: Network, t: MetricType, src: RouterId, dst: RouterId, order: seq<RouterId>, s: Table, u: RouterId, s': Table)
    requires LinksClosed(net) && Inv(net, t, src, s, order) && IsRound(net, t, dst, s, u, s') && HasOrder(net, t, src, s')
    ensures KeepsSums(net, s, u, net[u].links, t)
  {
    RoundIsSoundExactlyWhenNoWrapIsWritten(net, t, src, s, order, u);
  }

  lemma {:induction false} NextHasOrder(net: Network, t: MetricType, src: RouterId, dst: RouterId, order: seq<RouterId>, s: Table, u: RouterId, s': Table)
    requires LinksClosed(net) && RunsAreSound(net, t, src, dst) && IsRun(net, t, src, dst, order, s) && IsRound(net, t, dst, s, u, s')
    ensures HasOrder(net, t, src, s')
  {
    OneMoreRound(net, t, src, dst, order, s, u, s');
  }

  lemma {:induction false} SoundRunsNeverWrap(net: Network, t: MetricType, src: RouterId, dst: RouterId)
    requires LinksClosed(net) && RunsAreSound(net, t, src, dst)
    ensures NeverWraps(net, t, src, dst)
  {
    forall order, s, u, s' | IsRun(net, t, src, dst, order, s) && Good(net, t, src, dst, s, order) && IsRound(net, t, dst, s, u, s')
      ensures KeepsSums(net, s, u, net[u].links, t)
    {
      NextHasOrder(net, t, src, dst, order, s, u, s');
      SoundRoundKeepsSums(net, t, src, dst, order, s, u, s');
    }
  }

  lemma {:induction false} SettlingLeads(net: Network, t: MetricType, src: RouterId, dst: RouterId, u: RouterId, p: seq<LsLink>)
    requires Settles(net, t, src, dst, u, p)
    ensures Leads(net, t, src, dst, u, p) && u != dst
  {
    EndIsAvoided(net, src, dst, p, u);
    forall l | l in p
      ensures l.local != dst
    {
      var i :| 0 <= i < |p| && p[i] == l;
      WalkLink(net, src, p, u, i);
      assert i > 0 ==> p[i - 1] in p;
    }
  }

  lemma {:induction false} NextCost(net: Network, t: MetricType, src: RouterId, s: Table, order: seq<RouterId>, u: RouterId, p: seq<LsLink>)
    requires LinksClosed(net) && Inv(net, t, src, s, order) && IsNext(s, u) && IsShortest(net, t, src, u, p)
    ensures s[u].cost == Cost(p, t)
  {
    var q := NextIsShortest(net, t, src, s, order, u);
  }

  /** Some run expands every router that may be, so its sums must fit. */
  lemma {:induction false} SettledSumsFit(net: Network, t: MetricType, src: RouterId, dst: RouterId, u: RouterId, p: seq<LsLink>)
    requires LinksClosed(net) && NeverWraps(net, t, src, dst) && Settles(net, t, src, dst, u, p)
    ensures SumsFit(net, t, src, u, Cost(p, t))
  {
    SettlingLeads(net, t, src, dst, u, p);
    PathIsRun(net, t, src, dst, u, p);
    var order, s :| IsRun(net, t, src, dst, order, s) && EndsOnTrack(net, t, src, u, p, s);
    RunsAreGood(net, t, src, dst, order);
    var s' := ExpandableMakesRound(net, t, dst, s, u);
    NextCost(net, t, src, s, order, u, p);
    KeepsSumsExactlyWhenTheyFit(net, t, src, s, order, u);
  }

  /** Over every run towards `dst` no wrapped sum is written exactly when the costs fit: whoever may
      be expanded has sums of 32 bits, or walks to where they would be written that cost no more than
      what is left of them. */
  lemma {:induction false} NeverWrapsExactlyWhenCostsFit(net: Network, t: MetricType, src: RouterId, dst: RouterId)
    requires LinksClosed(net)
    ensures NeverWraps(net, t, src, dst) <==> CostsFit(net, t, src, dst)
  {
    if CostsFit(net, t, src, dst) {
      FittingCostsNeverWrap(net, t, src, dst);
    }
    if NeverWraps(net, t, src, dst) {
      forall u, p | Settles(net, t, src, dst, u, p)
        ensures SumsFit(net, t, src, u, Cost(p, t))
      {
        SettledSumsFit(net, t, src, dst, u, p);
      }
    }
  }

  lemma {:induction false} UnwrappedRunsAreSound(net: Network, t: MetricType, src: RouterId, dst: RouterId)
    requires LinksClosed(net) && NeverWraps(net, t, src, dst)
    ensures RunsAreSound(net, t, src, dst)
  {
    forall order, s | IsRun(net, t, src, dst, order, s)
      ensures HasOrder(net, t, src, s)
    {
      RunsAreGood(net, t, src, dst, order);
    }
  }

  /** And exactly then do all runs keep to the invariant. */
  lemma {:induction false} RunsAreSoundExactlyWhenCostsFit(net: Network, t: MetricType, src: RouterId, dst: RouterId)
    requires LinksClosed(net)
    ensures RunsAreSound(net, t, src, dst) <==> CostsFit(net, t, src, dst)
  {
    NeverWrapsExactlyWhenCostsFit(net, t, src, dst);
    if RunsAreSound(net, t, src, dst) {
      SoundRunsNeverWrap(net, t, src, dst);
    } else if CostsFit(net, t, src, dst) {
      UnwrappedRunsAreSound(net, t, src, dst);
    }
  }

  // ----- a bound that is cheap to check

  /** No metric exceeds `maxMetric`, and a path through all nodes still fits 32 bits. */
  ghost predicate NoWrap(net: Network, t: MetricType, maxMetric: nat) {
    && (forall u, l | u in net && l in net[u].links :: LinkCost(l, t) <= maxMetric)
    && |net| * maxMetric < 0x1_0000_0000
  }

  lemma {:induction false} Scale(a: nat, b: nat, m: nat)
    requires a <= b
    ensures a * m <= b * m
  {
  }

  lemma {:induction false} OneMore(n: nat, m: nat)
    ensures (n + 1) * m == n * m + m
  {
  }

  /** A walk costs at most its length times the largest metric. */
  lemma {:induction false} WalkCost(net: Network, t: MetricType, src: RouterId, p: seq<LsLink>, x: RouterId, maxMetric: nat)
    requires IsWalk(net, src, p, x) && NoWrap(net, t, maxMetric)
    ensures Cost(p, t) <= |p| * maxMetric
  {
    if p != [] {
      var init := p[..|p| - 1];
      WalkCost(net, t, src, init, p[|p| - 1].local, maxMetric);
      OneMore(|init|, maxMetric);
    }
  }

  lemma {:induction false} Entered(net: Network, src: RouterId, p: seq<LsLink>, x: RouterId)
    requires LinksClosed(net) && IsWalk(net, src, p, x)
    ensures forall l | l in p :: l.remote in net
  {
    if p != [] {
      Entered(net, src, p[..|p| - 1], p[|p| - 1].local);
      assert forall l | l in p :: l in p[..|p| - 1] || l == p[|p| - 1];
    }
  }

  /** A proper path enters fewer routers than there are. */
  lemma {:induction false} EntersFewer(p: seq<LsLink>, ids: set<RouterId>)
    requires forall l | l in p :: l.remote in ids
    requires forall i, j | 0 <= i < j < |p| :: p[i].remote != p[j].remote
    ensures |p| <= |ids|
  {
    if p != [] {
      var last := p[|p| - 1];
      EntersFewer(p[..|p| - 1], ids - {last.remote});
    }
  }

  lemma {:induction false} ProperPathIsShort(net: Network, t: MetricType, src: RouterId, p: seq<LsLink>, x: RouterId)
    requires LinksClosed(net) && src in net && IsWalk(net, src, p, x) && IsProperPath(p, src, t)
    ensures |p| + 1 <= |net|
  {
    Entered(net, src, p, x);
    EntersFewer(p, net.Keys - {src});
    assert |net.Keys| == |net|;
  }

  /** Number of routers times largest metric below 2^32: then the costs fit for every query. */
  lemma {:induction false} BoundedMetricsFit(net: Network, t: MetricType, maxMetric: nat, src: RouterId, dst: RouterId)
    requires LinksClosed(net) && NoWrap(net, t, maxMetric)
    ensures CostsFit(net, t, src, dst)
  {
    forall u, p | Settles(net, t, src, dst, u, p)
      ensures SumsFit(net, t, src, u, Cost(p, t))
    {
      WalkCost(net, t, src, p, u, maxMetric);
      ProperPathIsShort(net, t, src, p, u);
      Scale(|p| + 1, |net|, maxMetric);
      OneMore(|p|, maxMetric);
    }
  }

  /** And so do those of every leg of a loose route. */
  lemma {:induction false} BoundedMetricsFitLegs(net: Network, t: MetricType, maxMetric: nat, src: RouterId, wps: seq<Waypoint>)
    requires LinksClosed(net) && NoWrap(net, t, maxMetric)
    ensures LegsFit(net, t, src, wps)
  {
    forall i | 0 <= i < |wps|
      ensures CostsFit(net, t, LegSource(src, wps, i), wps[i].routerId)
    {
      BoundedMetricsFit(net, t, maxMetric, LegSource(src, wps, i), wps[i].routerId);
    }
  }
}
