/** The rounds of the path computation: which tables it can reach, what holds of each of them, and
    that the rounds come to an end (pkg/cspf/cspf.go). */
module Rounds {
  import opened Bytes
  import opened Segments
  import opened ShortestPath
  import opened Ted
  import opened Walks
  import opened Wrappers

  // ----- the order of settling decides between equal ways

  /** Cheaper nodes were settled earlier. */
  ghost predicate Sorted(s: Table, order: seq<RouterId>) {
    forall a, b | a in order && b in order && a in s && b in s && s[a].cost < s[b].cost :: Rank(order, a) < Rank(order, b)
  }

  /** No link from a node settled before the one `v` points back to reaches `v` at its cost. */
  ghost predicate PointsToFirst(net: Network, t: MetricType, s: Table, order: seq<RouterId>, v: RouterId)
    requires v in s
  {
    forall w, l | w in order && w in s && w in net && l in net[w].links && l.remote == v && Rank(order, w) < Rank(order, s[v].prev) ::
      s[v].cost < s[w].cost + LinkCost(l, t)
  }

  ghost predicate PointToFirst(net: Network, t: MetricType, src: RouterId, s: Table, order: seq<RouterId>) {
    forall v | v in s && v != src :: PointsToFirst(net, t, s, order, v)
  }

  /** Everything that holds of a table whose nodes were settled in this order. */
  ghost predicate Good(net: Network, t: MetricType, src: RouterId, dst: RouterId, s: Table, order: seq<RouterId>) {
    Inv(net, t, src, s, order) && Sorted(s, order) && PointToFirst(net, t, src, s, order) && dst !in order
  }

  // ----- what a round writes

  /** The entry of `v` is as it was, or points back to `u` now, and was not settled. */
  predicate Entry(s: Table, s': Table, u: RouterId, v: RouterId)
    requires v in s'
  {
    || (v in s && s'[v] == s[v])
    || (v != u && s'[v].prev == u && !s'[v].calculated && (v in s ==> !s[v].calculated && s'[v].cost < s[v].cost))
  }

  predicate Rewrites(s: Table, s': Table, u: RouterId) {
    s.Keys <= s'.Keys && forall v | v in s' :: Entry(s, s', u, v)
  }

  lemma {:induction false} RewritesTwice(s: Table, s1: Table, s2: Table, u: RouterId)
    requires Rewrites(s, s1, u) && Rewrites(s1, s2, u)
    ensures Rewrites(s, s2, u)
  {
    forall v | v in s2
      ensures Entry(s, s2, u, v)
    {
      assert Entry(s1, s2, u, v);
      assert v in s1 ==> Entry(s, s1, u, v);
    }
  }

  lemma {:induction false} RelaxationRewrites(net: Network, t: MetricType, src: RouterId, s: Table, s': Table, order: seq<RouterId>, u: RouterId, l: LsLink)
    requires u in s && Relaxation(net, t, s, s', order, u, l) && Shape(net, src, s, order)
    ensures Rewrites(s, s', u)
  {
  }

  lemma {:induction false} RelaxLinksRewrites(net: Network, t: MetricType, src: RouterId, s: Table, order: seq<RouterId>,
                                              u: RouterId, done: seq<LsLink>, ls: seq<LsLink>)
    requires u in net && Expanding(net, t, src, s, order, u, done)
    requires forall l | l in ls :: l in net[u].links && l.remote in net
    requires KeepsSums(net, s, u, ls, t) && RelaxLinks(net, s, u, ls, t).Ok?
    ensures Rewrites(s, RelaxLinks(net, s, u, ls, t).value, u)
    decreases |ls|
  {
    if ls != [] {
      var l, s1 := ls[0], RelaxLink(net, s, u, ls[0], t).value;
      RelaxLinkRelaxes(net, t, src, s, s1, order, u, l);
      RelaxationRewrites(net, t, src, s, s1, order, u, l);
      RelaxationKeepsExpanding(net, t, src, s, s1, order, u, done, l);
      RelaxLinksRewrites(net, t, src, s1, order, u, done + [l], ls[1..]);
      RewritesTwice(s, s1, RelaxLinks(net, s, u, ls, t).value, u);
    }
  }

  // ----- one round

  /** One round: relax the links of a cheapest node other than the destination, and mark it. */
  ghost predicate IsRound(net: Network, t: MetricType, dst: RouterId, s: Table, u: RouterId, s': Table)
    requires LinksClosed(net)
  {
    IsNext(s, u) && u != dst && u in net && Expanded(net, t, s, u, s', None)
  }

  /** What one round of the loop of `spf` does to the table `s`. */
  ghost predicate Expanded(net: Network, t: MetricType, s: Table, u: RouterId, s': Table, err: Option<SpfError>)
    requires u in s && u in net && LinksClosed(net)
  {
    match RelaxLinks(net, s, u, net[u].links, t)
    case Ok(relaxed) => err.None? && u in relaxed && s' == Settle(relaxed, u)
    case Err(e) => err == Some(e)
  }

  /** Settled nodes keep their entries; others keep theirs or now point to `u`. */
  lemma {:induction false} RoundWrites(net: Network, t: MetricType, src: RouterId, dst: RouterId, s: Table, order: seq<RouterId>, u: RouterId, s': Table)
    requires LinksClosed(net) && Good(net, t, src, dst, s, order) && IsRound(net, t, dst, s, u, s') && KeepsSums(net, s, u, net[u].links, t)
    ensures s.Keys <= s'.Keys && s'[u] == s[u].(calculated := true)
    ensures forall v | v in s' && v != u :: Entry(s, s', u, v)
    ensures forall w | w in order :: w in s && w in s' && s'[w] == s[w]
  {
    StartExpanding(net, t, src, s, order, u);
    RelaxLinksRewrites(net, t, src, s, order, u, [], net[u].links);
    var relaxed := RelaxLinks(net, s, u, net[u].links, t).value;
    assert Entry(s, relaxed, u, u);
    forall v | v in s' && v != u
      ensures Entry(s, s', u, v)
    {
      assert Entry(s, relaxed, u, v);
    }
  }

  lemma {:induction false} RoundStaysSorted(s: Table, order: seq<RouterId>, u: RouterId, s': Table)
    requires Sorted(s, order) && IsNext(s, u) && u !in order && SettledFirst(s, order)
    requires u in s' && s'[u].cost == s[u].cost && forall w | w in order :: w in s && w in s' && s'[w] == s[w]
    ensures Sorted(s', order + [u])
  {
    forall a, b | a in order + [u] && b in order + [u] && a in s' && b in s' && s'[a].cost < s'[b].cost
      ensures Rank(order + [u], a) < Rank(order + [u], b)
    {
      RankSnoc(order, u, a);
      RankSnoc(order, u, b);
    }
  }

  lemma {:induction false} KeptEntryPointsToFirst(net: Network, t: MetricType, s: Table, order: seq<RouterId>, u: RouterId, s': Table, v: RouterId)
    requires v in s && PointsToFirst(net, t, s, order, v) && s[v].prev in order && u !in order
    requires v in s' && s'[v].prev == s[v].prev && s'[v].cost == s[v].cost
    requires forall w | w in order :: w in s && w in s' && s'[w] == s[w]
    ensures PointsToFirst(net, t, s', order + [u], v)
  {
    RankSnoc(order, u, s[v].prev);
    forall w, l | w in order + [u] && w in s' && w in net && l in net[w].links && l.remote == v && Rank(order + [u], w) < Rank(order + [u], s'[v].prev)
      ensures s'[v].cost < s'[w].cost + LinkCost(l, t)
    {
      RankSnoc(order, u, w);
    }
  }

  lemma {:induction false} NewEntryPointsToFirst(net: Network, t: MetricType, s: Table, order: seq<RouterId>, u: RouterId, s': Table, v: RouterId)
    requires SettledRelaxed(net, t, s, order) && u !in order
    requires v in s' && s'[v].prev == u && (v in s ==> s'[v].cost < s[v].cost)
    requires forall w | w in order :: w in s && w in s' && s'[w] == s[w]
    ensures PointsToFirst(net, t, s', order + [u], v)
  {
    RankSnoc(order, u, u);
    forall w, l | w in order + [u] && w in s' && w in net && l in net[w].links && l.remote == v && Rank(order + [u], w) < Rank(order + [u], u)
      ensures s'[v].cost < s'[w].cost + LinkCost(l, t)
    {
      RankSnoc(order, u, w);
      assert Relaxed(l, t, s, w);
    }
  }

  lemma {:induction false} RoundStaysFirst(net: Network, t: MetricType, src: RouterId, s: Table, order: seq<RouterId>, u: RouterId, s': Table)
    requires Inv(net, t, src, s, order) && PointToFirst(net, t, src, s, order) && u in s && u !in order
    requires u in s' && s'[u] == s[u].(calculated := true) && forall v | v in s' && v != u :: Entry(s, s', u, v)
    requires forall w | w in order :: w in s && w in s' && s'[w] == s[w]
    ensures PointToFirst(net, t, src, s', order + [u])
  {
    forall v | v in s' && v != src
      ensures PointsToFirst(net, t, s', order + [u], v)
    {
      if v in s && s'[v].prev == s[v].prev && s'[v].cost == s[v].cost {
        assert Back(net, t, s, order, v);
        assert PointsToFirst(net, t, s, order, v);
        KeptEntryPointsToFirst(net, t, s, order, u, s', v);
      } else {
        assert Entry(s, s', u, v);
        NewEntryPointsToFirst(net, t, s, order, u, s', v);
      }
    }
  }

  /** A round that writes no wrapped sum keeps all of it. */
  lemma {:induction false} RoundKeepsGood(net: Network, t: MetricType, src: RouterId, dst: RouterId, s: Table, order: seq<RouterId>, u: RouterId, s': Table)
    requires LinksClosed(net) && Good(net, t, src, dst, s, order) && IsRound(net, t, dst, s, u, s') && KeepsSums(net, s, u, net[u].links, t)
    ensures Good(net, t, src, dst, s', order + [u])
  {
    RoundWrites(net, t, src, dst, s, order, u, s');
    ExpandKeepsInv(net, t, src, s, order, u);
    RoundStaysSorted(s, order, u, s');
    RoundStaysFirst(net, t, src, s, order, u, s');
  }

  // ----- which routers are settled, and when the sums of a round fit

  lemma {:induction false} SettledAreExpandable(net: Network, t: MetricType, src: RouterId, s: Table, order: seq<RouterId>)
    requires Inv(net, t, src, s, order)
    ensures forall w | w in order :: Expandable(net, t, w)
  {
    forall w, l | w in order && l in net[w].links
      ensures LinkMetric(l, t).Some? && l.remote in net && NodeSegment(net[l.remote]).Ok?
    {
      assert Relaxed(l, t, s, w);
    }
  }

  /** Routers nearer than the next one are settled. */
  lemma {:induction false} NearerIsSettled(net: Network, t: MetricType, src: RouterId, s: Table, order: seq<RouterId>, u: RouterId,
                                           q: seq<LsLink>, x: RouterId)
    requires Inv(net, t, src, s, order) && IsNext(s, u) && IsWalk(net, src, q, x) && Cost(q, t) < s[u].cost
    ensures x in order && x in s && s[x].cost <= Cost(q, t)
  {
    WalksAreBounded(net, t, src, s, order, q, x);
  }

  /** The back-pointers of a node come from settled ones. */
  lemma {:induction false} FollowsSettled(net: Network, t: MetricType, src: RouterId, s: Table, order: seq<RouterId>, p: seq<LsLink>, v: RouterId)
    requires Backs(net, t, src, s, order) && Follows(src, s, p, v)
    ensures forall i: nat | i < |p| :: p[i].local in order
  {
    forall i: nat | i < |p|
      ensures p[i].local in order
    {
      assert FollowsAt(src, s, p, i);
      assert Back(net, t, s, order, p[i].remote);
    }
  }

  lemma {:induction false} NextExpands(net: Network, t: MetricType, src: RouterId, s: Table, order: seq<RouterId>, u: RouterId, p: seq<LsLink>)
    requires Inv(net, t, src, s, order) && IsNext(s, u) && Follows(src, s, p, u) && Cost(p, t) == s[u].cost
    ensures Expands(net, t, src, p)
  {
    SettledAreExpandable(net, t, src, s, order);
    FollowsSettled(net, t, src, s, order, p, u);
    forall q, x | IsWalk(net, src, q, x) && Cost(q, t) < Cost(p, t)
      ensures Expandable(net, t, x)
    {
      NearerIsSettled(net, t, src, s, order, u, q, x);
    }
  }

  lemma {:induction false} NextAvoids(net: Network, t: MetricType, src: RouterId, s: Table, order: seq<RouterId>, u: RouterId, p: seq<LsLink>, dst: RouterId)
    requires Backs(net, t, src, s, order) && Follows(src, s, p, u) && dst !in order && u != dst
    ensures Avoids(src, dst, p)
  {
    FollowsSettled(net, t, src, s, order, p, u);
    assert |p| > 0 ==> FollowsAt(src, s, p, 0);
    forall l | l in p
      ensures l.remote != dst
    {
      var i: nat :| i < |p| && p[i] == l;
      assert i + 1 < |p| ==> FollowsAt(src, s, p, i + 1);
    }
  }

  /** The next node has its shortest path in the back-pointers, along routers that are expanded; it
      is not farther than `dst`, and unless it is `dst` itself, not behind it. */
  lemma {:induction false} NextSettles(net: Network, t: MetricType, src: RouterId, dst: RouterId, s: Table, order: seq<RouterId>, u: RouterId)
      returns (p: seq<LsLink>)
    requires LinksClosed(net) && Good(net, t, src, dst, s, order) && IsNext(s, u)
    ensures IsShortest(net, t, src, u, p) && Follows(src, s, p, u) && Cost(p, t) == s[u].cost
    ensures Expands(net, t, src, p) && NotBeyond(net, t, src, dst, p)
    ensures u != dst ==> Avoids(src, dst, p)
  {
    p := NextIsShortest(net, t, src, s, order, u);
    NextExpands(net, t, src, s, order, u, p);
    if u != dst {
      NextAvoids(net, t, src, s, order, u, p, dst);
    }
    forall q | IsWalk(net, src, q, dst)
      ensures Cost(p, t) <= Cost(q, t)
    {
      if Cost(q, t) < s[u].cost {
        NearerIsSettled(net, t, src, s, order, u, q, dst);
      }
    }
  }

  /** A wrapped sum is covered by a walk to the far end, which is settled then. */
  lemma {:induction false} FittingSumIsCovered(net: Network, t: MetricType, src: RouterId, s: Table, order: seq<RouterId>, u: RouterId, l: LsLink)
    requires Inv(net, t, src, s, order) && IsNext(s, u) && SumFits(net, t, src, s[u].cost, l)
    ensures Covered(s, u, l, t)
  {
    var sum := s[u].cost + LinkCost(l, t);
    if sum >= 0x1_0000_0000 {
      var q :| IsWalk(net, src, q, l.remote) && Cost(q, t) + 0x1_0000_0000 <= sum;
      MetricIs32Bit(l, t);
      NearerIsSettled(net, t, src, s, order, u, q, l.remote);
    }
  }

  lemma {:induction false} MetricIs32Bit(l: LsLink, t: MetricType)
    ensures LinkCost(l, t) < 0x1_0000_0000
  {
  }

  lemma {:induction false} CoveredSumFits(net: Network, t: MetricType, src: RouterId, s: Table, order: seq<RouterId>, u: RouterId, l: LsLink)
    requires LinksClosed(net) && Inv(net, t, src, s, order) && u in s && Covered(s, u, l, t)
    ensures SumFits(net, t, src, s[u].cost, l)
  {
    if l.remote in s {
      var q := BackWalk(net, t, src, s, order, l.remote);
    }
  }

  /** Where the sums fit, the round writes none that wrapped. */
  lemma {:induction false} FittingSumsAreKept(net: Network, t: MetricType, src: RouterId, s: Table, order: seq<RouterId>, u: RouterId)
    requires LinksClosed(net) && Inv(net, t, src, s, order) && IsNext(s, u) && u in net && SumsFit(net, t, src, u, s[u].cost)
    ensures KeepsSums(net, s, u, net[u].links, t)
  {
    forall l | l in net[u].links
      ensures Covered(s, u, l, t)
    {
      FittingSumIsCovered(net, t, src, s, order, u, l);
    }
    CoveredKeepsSums(net, t, s, u, net[u].links);
  }

  lemma {:induction false} KeptSumsFit(net: Network, t: MetricType, src: RouterId, s: Table, order: seq<RouterId>, u: RouterId, s': Table)
    requires LinksClosed(net) && Inv(net, t, src, s, order) && IsNext(s, u) && u in net
    requires RelaxLinks(net, s, u, net[u].links, t) == Ok(s') && KeepsSums(net, s, u, net[u].links, t)
    ensures SumsFit(net, t, src, u, s[u].cost)
  {
    KeptSumsAreCovered(net, t, s, u, net[u].links);
    ExpandKeepsInv(net, t, src, s, order, u);
    forall l | l in net[u].links
      ensures SumFits(net, t, src, s[u].cost, l)
    {
      assert Covered(s', u, l, t);
      CoveredSumFits(net, t, src, Settle(s', u), order + [u], u, l);
    }
  }

  /** A round of a router writes no wrapped sum exactly when its sums fit: a condition on the TED
      and the router's distance, in which the table no longer occurs. */
  lemma {:induction false} KeepsSumsExactlyWhenTheyFit(net: Network, t: MetricType, src: RouterId, s: Table, order: seq<RouterId>, u: RouterId)
    requires LinksClosed(net) && Inv(net, t, src, s, order) && IsNext(s, u) && u in net
    requires RelaxLinks(net, s, u, net[u].links, t).Ok?
    ensures KeepsSums(net, s, u, net[u].links, t) <==> SumsFit(net, t, src, u, s[u].cost)
  {
    if KeepsSums(net, s, u, net[u].links, t) {
      KeptSumsFit(net, t, src, s, order, u, RelaxLinks(net, s, u, net[u].links, t).value);
    } else if SumsFit(net, t, src, u, s[u].cost) {
      FittingSumsAreKept(net, t, src, s, order, u);
    }
  }

  // ----- runs

  function Start(net: Network, src: RouterId): Table
    requires src in net && NodeSegment(net[src]).Ok?
  {
    map[src := NodeState(false, 0, "", NodeSegment(net[src]).value)]
  }

  /** The table `s` is reached by rounds that settle these nodes, whichever of several cheapest ones
      the map yields. */
  ghost predicate IsRun(net: Network, t: MetricType, src: RouterId, dst: RouterId, order: seq<RouterId>, s: Table)
    requires LinksClosed(net)
  {
    if order == [] then
      src in net && NodeSegment(net[src]).Ok? && s == Start(net, src)
    else
      var u, init := order[|order| - 1], order[..|order| - 1];
      exists s0 :: IsRound(net, t, dst, s0, u, s) && IsRun(net, t, src, dst, init, s0)
  }

  lemma {:induction false} OneMoreRound(net: Network, t: MetricType, src: RouterId, dst: RouterId, order: seq<RouterId>, s: Table, u: RouterId, s': Table)
    requires LinksClosed(net) && IsRun(net, t, src, dst, order, s) && IsRound(net, t, dst, s, u, s')
    ensures IsRun(net, t, src, dst, order + [u], s')
  {
    assert (order + [u])[..|order + [u]| - 1] == order;
  }

  lemma StartIsGood(net: Network, t: MetricType, src: RouterId, dst: RouterId)
    requires src in net && NodeSegment(net[src]).Ok?
    ensures Good(net, t, src, dst, Start(net, src), [])
  {
    InitialTable(net, t, src, NodeSegment(net[src]).value);
  }

  /** A round that succeeds expands a router that can be expanded. */
  lemma {:induction false} RoundExpands(net: Network, t: MetricType, src: RouterId, dst: RouterId, s: Table, order: seq<RouterId>, u: RouterId, s': Table)
    requires LinksClosed(net) && Good(net, t, src, dst, s, order) && IsRound(net, t, dst, s, u, s')
    ensures Expandable(net, t, u)
  {
    RelaxedAreUsable(net, t, s, u, net[u].links);
    forall l | l in net[u].links
      ensures NodeSegment(net[l.remote]).Ok?
    {
    }
  }

  lemma {:induction false} RelaxedAreUsable(net: Network, t: MetricType, s: Table, u: RouterId, ls: seq<LsLink>)
    requires HasSegments(net, s) && u in s && forall l | l in ls :: l.remote in net
    requires RelaxLinks(net, s, u, ls, t).Ok?
    ensures forall l | l in ls :: LinkMetric(l, t).Some? && NodeSegment(net[l.remote]).Ok?
    decreases |ls|
  {
    if ls != [] {
      RelaxedAreUsable(net, t, RelaxLink(net, s, u, ls[0], t).value, u, ls[1..]);
      assert forall l | l in ls :: l == ls[0] || l in ls[1..];
    }
  }

  /** And whoever can be expanded makes a round. */
  lemma {:induction false} UsableAreRelaxed(net: Network, t: MetricType, s: Table, u: RouterId, ls: seq<LsLink>)
    requires u in s && forall l | l in ls :: l.remote in net && LinkMetric(l, t).Some? && NodeSegment(net[l.remote]).Ok?
    ensures RelaxLinks(net, s, u, ls, t).Ok? && u in RelaxLinks(net, s, u, ls, t).value
    decreases |ls|
  {
    if ls != [] {
      assert ls[0] in ls;
      UsableAreRelaxed(net, t, RelaxLink(net, s, u, ls[0], t).value, u, ls[1..]);
    }
  }

  lemma {:induction false} ExpandableMakesRound(net: Network, t: MetricType, dst: RouterId, s: Table, u: RouterId) returns (s': Table)
    requires LinksClosed(net) && IsNext(s, u) && u != dst && Expandable(net, t, u)
    ensures IsRound(net, t, dst, s, u, s')
  {
    UsableAreRelaxed(net, t, s, u, net[u].links);
    s' := Settle(RelaxLinks(net, s, u, net[u].links, t).value, u);
  }

  /** No round of any run writes a wrapped sum. */
  ghost predicate NeverWraps(net: Network, t: MetricType, src: RouterId, dst: RouterId)
    requires LinksClosed(net)
  {
    forall order, s, u, s' | IsRun(net, t, src, dst, order, s) && Good(net, t, src, dst, s, order) && IsRound(net, t, dst, s, u, s') ::
      KeepsSums(net, s, u, net[u].links, t)
  }

  lemma {:induction false} RoundFits(net: Network, t: MetricType, src: RouterId, dst: RouterId, s: Table, order: seq<RouterId>, u: RouterId, s': Table)
    requires LinksClosed(net) && CostsFit(net, t, src, dst) && Good(net, t, src, dst, s, order) && IsRound(net, t, dst, s, u, s')
    ensures KeepsSums(net, s, u, net[u].links, t)
  {
    var p := NextSettles(net, t, src, dst, s, order, u);
    RoundExpands(net, t, src, dst, s, order, u, s');
    assert Settles(net, t, src, dst, u, p);
    FittingSumsAreKept(net, t, src, s, order, u);
  }

  /** Where the costs fit, none does. */
  lemma {:induction false} FittingCostsNeverWrap(net: Network, t: MetricType, src: RouterId, dst: RouterId)
    requires LinksClosed(net) && CostsFit(net, t, src, dst)
    ensures NeverWraps(net, t, src, dst)
  {
    forall order, s, u, s' | IsRun(net, t, src, dst, order, s) && Good(net, t, src, dst, s, order) && IsRound(net, t, dst, s, u, s')
      ensures KeepsSums(net, s, u, net[u].links, t)
    {
      RoundFits(net, t, src, dst, s, order, u, s');
    }
  }

  lemma {:induction false} RunsOneMoreAreGood(net: Network, t: MetricType, src: RouterId, dst: RouterId, init: seq<RouterId>, u: RouterId, s: Table)
    requires LinksClosed(net) && NeverWraps(net, t, src, dst) && IsRun(net, t, src, dst, init + [u], s)
    requires forall s0 | IsRun(net, t, src, dst, init, s0) :: Good(net, t, src, dst, s0, init)
    ensures Good(net, t, src, dst, s, init + [u])
  {
    assert (init + [u])[..|init + [u]| - 1] == init;
    var s0 :| IsRound(net, t, dst, s0, u, s) && IsRun(net, t, src, dst, init, s0);
    RoundKeepsGood(net, t, src, dst, s0, init, u, s);
  }

  /** Every table that the rounds reach is a good one. */
  lemma {:induction false} RunsAreGood(net: Network, t: MetricType, src: RouterId, dst: RouterId, order: seq<RouterId>)
    requires LinksClosed(net) && NeverWraps(net, t, src, dst)
    ensures forall s | IsRun(net, t, src, dst, order, s) :: Good(net, t, src, dst, s, order)
  {
    if order != [] {
      var init, u := order[..|order| - 1], order[|order| - 1];
      assert order == init + [u];
      RunsAreGood(net, t, src, dst, init);
    }
    forall s | IsRun(net, t, src, dst, order, s)
      ensures Good(net, t, src, dst, s, order)
    {
      if order == [] {
        StartIsGood(net, t, src, dst);
      } else {
        RunsOneMoreAreGood(net, t, src, dst, order[..|order| - 1], order[|order| - 1], s);
      }
    }
  }

  // ----- the loop: what is left to do, and how it can end

  /** How many nodes of the TED are still to be settled. */
  ghost function Remaining(net: Network, s: Table): nat {
    |net.Keys - (set v | v in s && s[v].calculated)|
  }

  lemma {:induction false} ProperSubsetIsSmaller(a: set<RouterId>, b: set<RouterId>)
    requires a < b
    ensures |a| < |b|
  {
    var x :| x in b && x !in a;
    assert a <= b - {x};
    SubsetIsNoLarger(a, b - {x});
  }

  lemma {:induction false} SubsetIsNoLarger(a: set<RouterId>, b: set<RouterId>)
    requires a <= b
    ensures |a| <= |b|
  {
    if a != {} {
      var x :| x in a;
      SubsetIsNoLarger(a - {x}, b - {x});
    }
  }

  lemma ExpandSettles(net: Network, s: Table, s': Table, u: RouterId)
    requires s.Keys <= net.Keys && u in s && !s[u].calculated && s.Keys <= s'.Keys
    requires forall v | v in s :: s'[v].calculated == s[v].calculated
    ensures Remaining(net, Settle(s', u)) < Remaining(net, s)
  {
    var before := net.Keys - (set v | v in s && s[v].calculated);
    var s2 := Settle(s', u);
    var after := net.Keys - (set v | v in s2 && s2[v].calculated);
    assert u in before && u !in after;
    assert after <= before;
    ProperSubsetIsSmaller(after, before);
  }

  /** Some run leads to the table. */
  ghost predicate Reached(net: Network, t: MetricType, src: RouterId, dst: RouterId, s: Table)
    requires LinksClosed(net)
  {
    exists order :: IsRun(net, t, src, dst, order, s)
  }

  lemma StartIsReached(net: Network, t: MetricType, src: RouterId, dst: RouterId)
    requires LinksClosed(net) && src in net && NodeSegment(net[src]).Ok?
    ensures Reached(net, t, src, dst, Start(net, src))
  {
    assert IsRun(net, t, src, dst, [], Start(net, src));
  }

  lemma ReachedTable(net: Network, t: MetricType, src: RouterId, dst: RouterId, s: Table)
    requires LinksClosed(net) && NeverWraps(net, t, src, dst) && Reached(net, t, src, dst, s)
    ensures s.Keys <= net.Keys && src in s
  {
    var order :| IsRun(net, t, src, dst, order, s);
    RunsAreGood(net, t, src, dst, order);
  }

  lemma {:induction false} ErrorIsExplained(net: Network, t: MetricType, src: RouterId, dst: RouterId, s: Table, u: RouterId, e: SpfError)
    requires LinksClosed(net) && NeverWraps(net, t, src, dst) && Reached(net, t, src, dst, s) && u in s && u in net
    requires RelaxLinks(net, s, u, net[u].links, t) == Err(e)
    ensures SpfSpec(net, t, src, dst, Err(e))
  {
    var order :| IsRun(net, t, src, dst, order, s);
    RunsAreGood(net, t, src, dst, order);
    TableIsReachable(net, t, src, s, order, u);
    ExpansionError(net, t, src, dst, s, u, e);
  }

  lemma {:induction false} RoundIsReached(net: Network, t: MetricType, src: RouterId, dst: RouterId, s: Table, u: RouterId, s': Table)
    requires LinksClosed(net) && NeverWraps(net, t, src, dst) && Reached(net, t, src, dst, s) && IsRound(net, t, dst, s, u, s')
    ensures Reached(net, t, src, dst, s') && Remaining(net, s') < Remaining(net, s)
  {
    var order :| IsRun(net, t, src, dst, order, s);
    OneMoreRound(net, t, src, dst, order, s, u, s');
    ReachedTable(net, t, src, dst, s);
    RelaxingSettlesNothing(net, s, u, net[u].links, t);
    ExpandSettles(net, s, RelaxLinks(net, s, u, net[u].links, t).value, u);
  }

  /** One pass of the loop: a reached table with one node more settled, or an error the caller may
      conclude from. */
  lemma {:induction false} PassIsSound(net: Network, t: MetricType, src: RouterId, dst: RouterId, s: Table, u: RouterId,
                                       s': Table, err: Option<SpfError>)
    requires LinksClosed(net) && NeverWraps(net, t, src, dst)
    requires Reached(net, t, src, dst, s) && IsNext(s, u) && u != dst && u in net
    requires Expanded(net, t, s, u, s', err)
    ensures err.None? ==> Reached(net, t, src, dst, s') && Remaining(net, s') < Remaining(net, s)
    ensures err.Some? ==> SpfSpec(net, t, src, dst, Err(err.value))
  {
    if err.None? {
      RoundIsReached(net, t, src, dst, s, u, s');
    } else {
      ErrorIsExplained(net, t, src, dst, s, u, err.value);
    }
  }

  lemma ExhaustedIsUnreachable(net: Network, t: MetricType, src: RouterId, dst: RouterId, s: Table)
    requires LinksClosed(net) && NeverWraps(net, t, src, dst) && Reached(net, t, src, dst, s) && forall v | v in s :: s[v].calculated
    ensures SpfSpec(net, t, src, dst, Err(NextNodeNotFound))
  {
    var order :| IsRun(net, t, src, dst, order, s);
    RunsAreGood(net, t, src, dst, order);
    AllSettledMeansUnreachable(net, t, src, s, order, dst);
  }
}
