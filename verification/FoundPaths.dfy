/** Which shortest paths the computation returns: exactly those in which every router is entered from
    the first of its best predecessors to be settled (pkg/cspf/cspf.go). */
module FoundPaths {
  import opened Bytes
  import opened Rounds
  import opened ShortestPath
  import opened Ted
  import opened Walks
  import opened Wrappers

  /** Some run ends with `dst` next and with back-pointers along `p`. */
  ghost predicate IsReturned(net: Network, t: MetricType, src: RouterId, dst: RouterId, p: seq<LsLink>)
    requires LinksClosed(net)
  {
    exists order, s :: IsRun(net, t, src, dst, order, s) && IsNext(s, dst) && Follows(src, s, p, dst)
  }

  // ----- what is returned is found

  lemma {:induction false} RanksRise(net: Network, t: MetricType, src: RouterId, s: Table, order: seq<RouterId>, p: seq<LsLink>, v: RouterId, j: nat, i: nat)
    requires Backs(net, t, src, s, order) && Follows(src, s, p, v) && j < i < |p|
    ensures Rank(order, p[j].local) < Rank(order, p[i].local)
  {
    var k := i - 1;
    assert FollowsAt(src, s, p, k) && FollowsAt(src, s, p, i);
    assert Back(net, t, s, order, p[k].remote);
    if j < k {
      RanksRise(net, t, src, s, order, p, v, j, k);
    }
  }

  /** A node of the table costs what some walk does. */
  lemma {:induction false} CostsNoLess(net: Network, t: MetricType, src: RouterId, s: Table, order: seq<RouterId>, p: seq<LsLink>, x: RouterId)
    requires LinksClosed(net) && Inv(net, t, src, s, order) && x in s && IsShortest(net, t, src, x, p)
    ensures Cost(p, t) <= s[x].cost
  {
    var q := BackWalk(net, t, src, s, order, x);
  }

  /** The first router to settle among those that reach a node at its cost is the one it points to. */
  lemma {:induction false} NoneIsEarlier(net: Network, t: MetricType, src: RouterId, s: Table, order: seq<RouterId>, w: RouterId, l: LsLink, v: RouterId)
    requires PointToFirst(net, t, src, s, order) && v in s && v != src
    requires w in order && w in s && w in net && l in net[w].links && l.remote == v && s[w].cost + LinkCost(l, t) <= s[v].cost
    ensures Rank(order, s[v].prev) <= Rank(order, w)
  {
    assert PointsToFirst(net, t, s, order, v);
  }

  /** A table in which `dst` is next and points back along the shortest path `p`. */
  ghost predicate Returns(net: Network, t: MetricType, src: RouterId, dst: RouterId, s: Table, order: seq<RouterId>, p: seq<LsLink>)
  {
    Good(net, t, src, dst, s, order) && IsNext(s, dst) && IsShortest(net, t, src, dst, p) && Follows(src, s, p, dst)
  }

  lemma {:induction false} ReturnedCosts(net: Network, t: MetricType, src: RouterId, dst: RouterId, s: Table, order: seq<RouterId>, p: seq<LsLink>, i: nat)
    requires LinksClosed(net) && Returns(net, t, src, dst, s, order, p) && i < |p|
    ensures p[i].remote in s && p[i].remote != src && s[p[i].remote].prev == p[i].local && p[i].local in order && p[i].local in s
    ensures Cost(p[..i + 1], t) <= s[p[i].remote].cost && Cost(p[..i], t) <= s[p[i].local].cost
  {
    FollowsSettled(net, t, src, s, order, p, dst);
    assert FollowsAt(src, s, p, i);
    WalkLink(net, src, p, dst, i);
    PrefixIsShortest(net, t, src, dst, p, i);
    PrefixIsShortest(net, t, src, dst, p, i + 1);
    CostsNoLess(net, t, src, s, order, p[..i], p[i].local);
    CostsNoLess(net, t, src, s, order, p[..i + 1], p[i].remote);
  }

  /** A router that enters too is not settled before. */
  lemma {:induction false} EnteringIsNotEarlier(net: Network, t: MetricType, src: RouterId, dst: RouterId, s: Table, order: seq<RouterId>,
                                                p: seq<LsLink>, i: nat, q: seq<LsLink>, l: LsLink)
    requires LinksClosed(net) && Returns(net, t, src, dst, s, order, p) && i < |p| && EntersToo(net, t, src, p, i, q, l)
    requires l.local in order
    ensures Rank(order, p[i].local) <= Rank(order, l.local)
  {
    ReturnedCosts(net, t, src, dst, s, order, p, i);
    WalksAreBounded(net, t, src, s, order, q, l.local);
    NoneIsEarlier(net, t, src, s, order, l.local, l, p[i].remote);
  }

  lemma {:induction false} DestinationCost(net: Network, t: MetricType, src: RouterId, dst: RouterId, s: Table, order: seq<RouterId>, p: seq<LsLink>)
    requires LinksClosed(net) && Good(net, t, src, dst, s, order) && IsNext(s, dst) && IsShortest(net, t, src, dst, p)
    ensures Cost(p, t) == s[dst].cost
  {
    var q := NextIsShortest(net, t, src, s, order, dst);
  }

  lemma {:induction false} EnteringIsNotNearer(net: Network, t: MetricType, src: RouterId, dst: RouterId, s: Table, order: seq<RouterId>,
                                               p: seq<LsLink>, i: nat, q: seq<LsLink>, l: LsLink)
    requires LinksClosed(net) && Returns(net, t, src, dst, s, order, p) && i < |p| && EntersToo(net, t, src, p, i, q, l)
    ensures Cost(p[..i], t) <= Cost(q, t)
  {
    if Cost(q, t) < Cost(p[..i], t) {
      PrefixCosts(p, i, i, t);
      DestinationCost(net, t, src, dst, s, order, p);
      NearerIsSettled(net, t, src, s, order, dst, q, l.local);
      ReturnedCosts(net, t, src, dst, s, order, p, i);
      EnteringIsNotEarlier(net, t, src, dst, s, order, p, i, q, l);
    }
  }

  lemma {:induction false} EnteringIsNotBefore(net: Network, t: MetricType, src: RouterId, dst: RouterId, s: Table, order: seq<RouterId>,
                                               p: seq<LsLink>, i: nat, q: seq<LsLink>, l: LsLink, j: nat)
    requires LinksClosed(net) && Returns(net, t, src, dst, s, order, p) && j < i < |p| && EntersToo(net, t, src, p, i, q, l)
    ensures l.local != p[j].local
  {
    if l.local == p[j].local {
      ReturnedCosts(net, t, src, dst, s, order, p, j);
      EnteringIsNotEarlier(net, t, src, dst, s, order, p, i, q, l);
      RanksRise(net, t, src, s, order, p, dst, j, i);
    }
  }

  lemma {:induction false} ReturnedEntersFirst(net: Network, t: MetricType, src: RouterId, dst: RouterId, s: Table, order: seq<RouterId>, p: seq<LsLink>, i: nat)
    requires LinksClosed(net) && Returns(net, t, src, dst, s, order, p) && i < |p|
    ensures EntersFirst(net, t, src, p, i)
  {
    forall q, l | EntersToo(net, t, src, p, i, q, l)
      ensures Cost(p[..i], t) <= Cost(q, t) && forall j | 0 <= j < i :: l.local != p[j].local
    {
      EnteringIsNotNearer(net, t, src, dst, s, order, p, i, q, l);
      forall j | 0 <= j < i
        ensures l.local != p[j].local
      {
        EnteringIsNotBefore(net, t, src, dst, s, order, p, i, q, l, j);
      }
    }
  }

  /** What the back-pointers spell when the destination is next is a path that can be found. */
  lemma {:induction false} ReturnedIsFound(net: Network, t: MetricType, src: RouterId, dst: RouterId, s: Table, order: seq<RouterId>, p: seq<LsLink>)
    requires LinksClosed(net) && Returns(net, t, src, dst, s, order, p)
    ensures Finds(net, t, src, dst, p)
  {
    DestinationCost(net, t, src, dst, s, order, p);
    NextExpands(net, t, src, s, order, dst, p);
    forall i | 0 <= i < |p|
      ensures EntersFirst(net, t, src, p, i)
    {
      ReturnedEntersFirst(net, t, src, dst, s, order, p, i);
    }
  }

  // ----- what can be found is returned by some run

  /** A shortest path from which the computation can be kept going, up to the next router. */
  ghost predicate Leads(net: Network, t: MetricType, src: RouterId, dst: RouterId, x: RouterId, p: seq<LsLink>) {
    && IsShortest(net, t, src, x, p) && Expands(net, t, src, p) && NotBeyond(net, t, src, dst, p)
    && forall l | l in p :: l.local != dst
  }

  /** One of the first `k` routers of `p`. */
  predicate IsPassed(p: seq<LsLink>, k: nat, w: RouterId)
    requires k <= |p|
  {
    exists i | 0 <= i < k :: p[i].local == w
  }

  /** The first `k` routers of `p` are settled, and the rest are not. */
  ghost predicate SettledSoFar(src: RouterId, p: seq<LsLink>, order: seq<RouterId>, k: nat)
    requires k <= |p|
  {
    && (forall i | 0 <= i < k :: p[i].local in order)
    && (forall i: nat | k <= i <= |p| :: StartOf(src, p, i) !in order)
  }

  /** All others that are settled are nearer than the next one of `p`. */
  ghost predicate OthersAreNearer(p: seq<LsLink>, t: MetricType, order: seq<RouterId>, s: Table, k: nat)
    requires k <= |p|
  {
    forall w | w in order :: w in s && (s[w].cost < Cost(p[..k], t) || IsPassed(p, k, w))
  }

  /** The router after link `i` has been entered over it, if that enters first. */
  ghost predicate Entered(net: Network, t: MetricType, src: RouterId, p: seq<LsLink>, s: Table, i: nat)
    requires i < |p|
  {
    p[i].remote in s && (EntersFirst(net, t, src, p, i) ==> s[p[i].remote].prev == p[i].local)
  }

  /** How far the computation has come along `p`. */
  ghost predicate OnTrack(net: Network, t: MetricType, src: RouterId, p: seq<LsLink>, order: seq<RouterId>, s: Table, k: nat) {
    && k <= |p| && SettledSoFar(src, p, order, k) && OthersAreNearer(p, t, order, s, k)
    && StartOf(src, p, k) in s && s[StartOf(src, p, k)].cost == Cost(p[..k], t)
    && (forall i | 0 <= i < k :: Entered(net, t, src, p, s, i))
  }

  /** What happens in a round that can be made. */
  ghost predicate IsStep(net: Network, t: MetricType, src: RouterId, dst: RouterId, order: seq<RouterId>, s: Table, u: RouterId, s': Table)
    requires LinksClosed(net)
  {
    && IsRun(net, t, src, dst, order + [u], s') && Good(net, t, src, dst, s', order + [u])
    && u in s && u in s' && u !in order && s'[u] == s[u].(calculated := true)
    && (forall v | v in s :: v in s') && (forall v | v in s' && v != u :: Entry(s, s', u, v))
    && (forall w | w in order :: w in s && w in s' && s'[w] == s[w])
  }

  lemma {:induction false} MakeStep(net: Network, t: MetricType, src: RouterId, dst: RouterId, order: seq<RouterId>, s: Table, u: RouterId)
      returns (s': Table)
    requires LinksClosed(net) && NeverWraps(net, t, src, dst) && IsRun(net, t, src, dst, order, s)
    requires IsNext(s, u) && u != dst && Expandable(net, t, u)
    ensures IsRound(net, t, dst, s, u, s') && IsStep(net, t, src, dst, order, s, u, s')
  {
    RunsAreGood(net, t, src, dst, order);
    s' := ExpandableMakesRound(net, t, dst, s, u);
    RoundWrites(net, t, src, dst, s, order, u, s');
    RoundKeepsGood(net, t, src, dst, s, order, u, s');
    OneMoreRound(net, t, src, dst, order, s, u, s');
  }

  /** A router that is nearer than the next one of `p` can be expanded, and is not on the rest of it. */
  lemma {:induction false} NearerIsAside(net: Network, t: MetricType, src: RouterId, dst: RouterId, x: RouterId, p: seq<LsLink>, k: nat,
                                         s: Table, order: seq<RouterId>, u: RouterId)
    requires LinksClosed(net) && Leads(net, t, src, dst, x, p) && k <= |p| && Inv(net, t, src, s, order) && u in s
    requires s[u].cost < Cost(p[..k], t)
    ensures u != dst && Expandable(net, t, u) && forall i: nat | k <= i <= |p| :: StartOf(src, p, i) != u
  {
    var q := BackWalk(net, t, src, s, order, u);
    PrefixCosts(p, k, k, t);
    forall i: nat | k <= i <= |p|
      ensures StartOf(src, p, i) != u
    {
      PrefixCosts(p, k, i, t);
      PrefixIsShortest(net, t, src, x, p, i);
    }
  }

  /** The entry of the router that is next on `p` is final. */
  lemma {:induction false} NextOnTrackStays(net: Network, t: MetricType, src: RouterId, dst: RouterId, x: RouterId, p: seq<LsLink>, k: nat,
                                            order: seq<RouterId>, s: Table, u: RouterId, s': Table)
    requires LinksClosed(net) && IsShortest(net, t, src, x, p) && OnTrack(net, t, src, p, order, s, k)
    requires IsStep(net, t, src, dst, order, s, u, s') && u != StartOf(src, p, k)
    ensures StartOf(src, p, k) in s' && s'[StartOf(src, p, k)] == s[StartOf(src, p, k)]
  {
    var v := StartOf(src, p, k);
    PrefixIsShortest(net, t, src, x, p, k);
    CostsNoLess(net, t, src, s', order + [u], p[..k], v);
    assert Entry(s, s', u, v);
  }

  lemma {:induction false} StaysEntered(net: Network, t: MetricType, src: RouterId, p: seq<LsLink>, i: nat, s: Table, s': Table)
    requires i < |p| && Entered(net, t, src, p, s, i) && p[i].remote in s' && s'[p[i].remote].prev == s[p[i].remote].prev
    ensures Entered(net, t, src, p, s', i)
  {
  }

  lemma {:induction false} PassedStayEntered(net: Network, t: MetricType, src: RouterId, x: RouterId, p: seq<LsLink>, k: nat,
                                             order: seq<RouterId>, s: Table, s': Table)
    requires IsShortest(net, t, src, x, p) && k <= |p| && SettledSoFar(src, p, order, k)
    requires forall w | w in order :: w in s && w in s' && s'[w] == s[w]
    requires StartOf(src, p, k) in s && StartOf(src, p, k) in s' && s'[StartOf(src, p, k)].prev == s[StartOf(src, p, k)].prev
    requires forall i | 0 <= i < k :: Entered(net, t, src, p, s, i)
    ensures forall i | 0 <= i < k :: Entered(net, t, src, p, s', i)
  {
    forall i | 0 <= i < k
      ensures Entered(net, t, src, p, s', i)
    {
      PathLinks(net, t, src, x, p, i);
      assert i + 1 < k ==> p[i + 1].local in order;
      StaysEntered(net, t, src, p, i, s, s');
    }
  }

  lemma {:induction false} OthersStayNearer(p: seq<LsLink>, t: MetricType, order: seq<RouterId>, s: Table, k: nat, u: RouterId, s': Table)
    requires k <= |p| && OthersAreNearer(p, t, order, s, k)
    requires forall w | w in order :: w in s' && s'[w].cost == s[w].cost
    requires u in s' && s'[u].cost < Cost(p[..k], t)
    ensures OthersAreNearer(p, t, order + [u], s', k)
  {
  }

  /** While a nearer router is expanded the computation stays on track. */
  lemma {:induction false} NearerStaysOnTrack(net: Network, t: MetricType, src: RouterId, dst: RouterId, x: RouterId, p: seq<LsLink>, k: nat,
                                              order: seq<RouterId>, s: Table, u: RouterId, s': Table)
    requires LinksClosed(net) && IsShortest(net, t, src, x, p) && OnTrack(net, t, src, p, order, s, k)
    requires IsStep(net, t, src, dst, order, s, u, s') && s[u].cost < Cost(p[..k], t)
    requires forall i: nat | k <= i <= |p| :: StartOf(src, p, i) != u
    ensures OnTrack(net, t, src, p, order + [u], s', k)
  {
    NextOnTrackStays(net, t, src, dst, x, p, k, order, s, u, s');
    PassedStayEntered(net, t, src, x, p, k, order, s, s');
    OthersStayNearer(p, t, order, s, k, u, s');
  }

  lemma {:induction false} PathLinks(net: Network, t: MetricType, src: RouterId, x: RouterId, p: seq<LsLink>, i: nat)
    requires IsShortest(net, t, src, x, p) && i < |p|
    ensures p[i].local == StartOf(src, p, i) && p[i].remote == StartOf(src, p, i + 1)
    ensures p[i].local in net && p[i] in net[p[i].local].links && LinkMetric(p[i], t).Some?
    ensures i + 1 < |p| ==> p[i + 1].local == p[i].remote
    ensures forall j: nat | i < j <= |p| :: StartOf(src, p, j) != p[i].local
  {
    WalkLink(net, src, p, x, i);
    assert p[i] in p;
    if i + 1 < |p| {
      WalkLink(net, src, p, x, i + 1);
    }
    forall j: nat | i < j <= |p|
      ensures StartOf(src, p, j) != p[i].local
    {
      assert p[j - 1] in p;
    }
  }

  /** A router that a node already points to at this cost would enter first instead. */
  lemma {:induction false} NotEnteredBefore(net: Network, t: MetricType, src: RouterId, x: RouterId, p: seq<LsLink>, k: nat,
                                            order: seq<RouterId>, s: Table)
    requires LinksClosed(net) && IsShortest(net, t, src, x, p) && k < |p| && Inv(net, t, src, s, order)
    requires OthersAreNearer(p, t, order, s, k) && EntersFirst(net, t, src, p, k)
    ensures p[k].remote in s ==> s[p[k].remote].cost != Cost(p[..k + 1], t)
  {
    var v := p[k].remote;
    if v in s && s[v].cost == Cost(p[..k + 1], t) {
      assert p[k] in p;
      assert Back(net, t, s, order, v);
      var w := s[v].prev;
      var l :| l in net[w].links && Joins(l, t, s, w, v);
      var q := BackWalk(net, t, src, s, order, w);
      assert EntersToo(net, t, src, p, k, q, l);
    }
  }

  lemma {:induction false} EnteredNow(net: Network, t: MetricType, src: RouterId, dst: RouterId, x: RouterId, p: seq<LsLink>, k: nat,
                                      order: seq<RouterId>, s: Table, s': Table)
    requires LinksClosed(net) && IsShortest(net, t, src, x, p) && k < |p| && Inv(net, t, src, s, order)
    requires OthersAreNearer(p, t, order, s, k)
    requires p[k].remote in s' && s'[p[k].remote].cost == Cost(p[..k + 1], t) && Entry(s, s', p[k].local, p[k].remote)
    ensures Entered(net, t, src, p, s', k)
  {
    if EntersFirst(net, t, src, p, k) {
      NotEnteredBefore(net, t, src, x, p, k, order, s);
    }
  }

  /** Once a router of `p` is expanded, the next one has its cost. */
  lemma {:induction false} NextIsEntered(net: Network, t: MetricType, src: RouterId, x: RouterId, p: seq<LsLink>, k: nat,
                                         order: seq<RouterId>, s: Table)
    requires LinksClosed(net) && IsShortest(net, t, src, x, p) && k < |p| && Inv(net, t, src, s, order)
    requires p[k].local in order && p[k].local in s && s[p[k].local].cost == Cost(p[..k], t)
    ensures p[k].remote in s && s[p[k].remote].cost == Cost(p[..k + 1], t)
  {
    PathLinks(net, t, src, x, p, k);
    CostOfOneMore(p, k, t);
    assert Relaxed(p[k], t, s, p[k].local);
    PrefixCostsNoLess(net, t, src, x, p, k + 1, order, s);
  }

  lemma {:induction false} PrefixCostsNoLess(net: Network, t: MetricType, src: RouterId, x: RouterId, p: seq<LsLink>, k: nat,
                                             order: seq<RouterId>, s: Table)
    requires LinksClosed(net) && IsShortest(net, t, src, x, p) && k <= |p| && Inv(net, t, src, s, order) && StartOf(src, p, k) in s
    ensures Cost(p[..k], t) <= s[StartOf(src, p, k)].cost
  {
    PrefixIsShortest(net, t, src, x, p, k);
    CostsNoLess(net, t, src, s, order, p[..k], StartOf(src, p, k));
  }

  lemma {:induction false} PassedIsNext(p: seq<LsLink>, t: MetricType, order: seq<RouterId>, s: Table, k: nat, s': Table)
    requires k < |p| && OthersAreNearer(p, t, order, s, k) && p[k].local in s' && forall w | w in order :: w in s' && s'[w].cost == s[w].cost
    ensures OthersAreNearer(p, t, order + [p[k].local], s', k + 1)
  {
    PrefixCosts(p, k, k + 1, t);
    forall w | w in order + [p[k].local]
      ensures w in s' && (s'[w].cost < Cost(p[..k + 1], t) || IsPassed(p, k + 1, w))
    {
      if w in order && s[w].cost >= Cost(p[..k], t) {
        var i :| 0 <= i < k && p[i].local == w;
      } else if w !in order {
        assert p[k].local == w;
      }
    }
  }

  lemma {:induction false} OneMoreSettled(net: Network, t: MetricType, src: RouterId, x: RouterId, p: seq<LsLink>, order: seq<RouterId>, k: nat)
    requires IsShortest(net, t, src, x, p) && k < |p| && SettledSoFar(src, p, order, k)
    ensures SettledSoFar(src, p, order + [p[k].local], k + 1)
  {
    PathLinks(net, t, src, x, p, k);
  }

  lemma {:induction false} PathStaysEntered(net: Network, t: MetricType, src: RouterId, x: RouterId, p: seq<LsLink>, k: nat,
                                            order: seq<RouterId>, s: Table, s': Table)
    requires IsShortest(net, t, src, x, p) && k < |p| && SettledSoFar(src, p, order, k)
    requires forall w | w in order :: w in s && w in s' && s'[w] == s[w]
    requires p[k].local in s && p[k].local in s' && s'[p[k].local].prev == s[p[k].local].prev
    requires forall i | 0 <= i < k :: Entered(net, t, src, p, s, i)
    requires Entered(net, t, src, p, s', k)
    ensures forall i | 0 <= i < k + 1 :: Entered(net, t, src, p, s', i)
  {
    PathLinks(net, t, src, x, p, k);
    PassedStayEntered(net, t, src, x, p, k, order, s, s');
  }

  /** When the next router of `p` is expanded, the one after it becomes the next. */
  lemma {:induction false} PathStaysOnTrack(net: Network, t: MetricType, src: RouterId, dst: RouterId, x: RouterId, p: seq<LsLink>, k: nat,
                                            order: seq<RouterId>, s: Table, s': Table)
    requires LinksClosed(net) && IsShortest(net, t, src, x, p) && k < |p| && OnTrack(net, t, src, p, order, s, k)
    requires Inv(net, t, src, s, order) && p[k].local == StartOf(src, p, k) && IsStep(net, t, src, dst, order, s, p[k].local, s')
    ensures OnTrack(net, t, src, p, order + [p[k].local], s', k + 1)
  {
    OneMoreSettled(net, t, src, x, p, order, k);
    PassedIsNext(p, t, order, s, k, s');
    NextIsEntered(net, t, src, x, p, k, order + [p[k].local], s');
    EnteredNow(net, t, src, dst, x, p, k, order, s, s');
    PathStaysEntered(net, t, src, x, p, k, order, s, s');
  }

  // ----- runs along a path

  lemma {:induction false} SomeNext(s: Table, y: RouterId) returns (u: RouterId)
    requires y in s && !s[y].calculated
    ensures IsNext(s, u) && s[u].cost <= s[y].cost
    decreases s[y].cost
  {
    if IsNext(s, y) {
      u := y;
    } else {
      var z :| z in s && !s[z].calculated && s[z].cost < s[y].cost;
      u := SomeNext(s, z);
    }
  }

  lemma {:induction false} StartIsOnTrack(net: Network, t: MetricType, src: RouterId, dst: RouterId, x: RouterId, p: seq<LsLink>)
    requires Leads(net, t, src, dst, x, p)
    ensures OnTrack(net, t, src, p, [], Start(net, src), 0)
  {
  }

  /** Some run is on track, with fewer than `n` routers left to settle. */
  ghost predicate GoesOn(net: Network, t: MetricType, src: RouterId, dst: RouterId, p: seq<LsLink>, n: nat)
    requires LinksClosed(net)
  {
    exists order, s, k :: IsRun(net, t, src, dst, order, s) && OnTrack(net, t, src, p, order, s, k) && Remaining(net, s) < n
  }

  ghost predicate EndsOnTrack(net: Network, t: MetricType, src: RouterId, x: RouterId, p: seq<LsLink>, s: Table) {
    IsNext(s, x) && forall i | 0 <= i < |p| :: Entered(net, t, src, p, s, i)
  }

  /** Some run comes to the end of `p`, with its routers entered over it where that enters first. */
  ghost predicate RunsTo(net: Network, t: MetricType, src: RouterId, dst: RouterId, x: RouterId, p: seq<LsLink>)
    requires LinksClosed(net)
  {
    exists order, s :: IsRun(net, t, src, dst, order, s) && EndsOnTrack(net, t, src, x, p, s)
  }

  /** A round on the way along `p`, of a nearer router. */
  lemma {:induction false} StepAside(net: Network, t: MetricType, src: RouterId, dst: RouterId, x: RouterId, p: seq<LsLink>, k: nat,
                                     order: seq<RouterId>, s: Table, u: RouterId) returns (s': Table)
    requires LinksClosed(net) && NeverWraps(net, t, src, dst) && Leads(net, t, src, dst, x, p)
    requires IsRun(net, t, src, dst, order, s) && OnTrack(net, t, src, p, order, s, k)
    requires IsNext(s, u) && s[u].cost < Cost(p[..k], t)
    ensures IsRun(net, t, src, dst, order + [u], s') && OnTrack(net, t, src, p, order + [u], s', k)
    ensures Remaining(net, s') < Remaining(net, s)
  {
    RunsAreGood(net, t, src, dst, order);
    NearerIsAside(net, t, src, dst, x, p, k, s, order, u);
    s' := MakeStep(net, t, src, dst, order, s, u);
    NearerStaysOnTrack(net, t, src, dst, x, p, k, order, s, u, s');
    RoundIsReached(net, t, src, dst, s, u, s');
  }

  /** And of a router of `p`. */
  lemma {:induction false} StepAlong(net: Network, t: MetricType, src: RouterId, dst: RouterId, x: RouterId, p: seq<LsLink>, k: nat,
                                     order: seq<RouterId>, s: Table) returns (s': Table)
    requires LinksClosed(net) && NeverWraps(net, t, src, dst) && Leads(net, t, src, dst, x, p)
    requires IsRun(net, t, src, dst, order, s) && OnTrack(net, t, src, p, order, s, k)
    requires k < |p| && p[k].local == StartOf(src, p, k) && IsNext(s, p[k].local)
    ensures IsRun(net, t, src, dst, order + [p[k].local], s') && OnTrack(net, t, src, p, order + [p[k].local], s', k + 1)
    ensures Remaining(net, s') < Remaining(net, s)
  {
    RunsAreGood(net, t, src, dst, order);
    assert p[k] in p;
    s' := MakeStep(net, t, src, dst, order, s, p[k].local);
    PathStaysOnTrack(net, t, src, dst, x, p, k, order, s, s');
    RoundIsReached(net, t, src, dst, s, p[k].local, s');
  }

  /** The next router of `p`, or one that is nearer, is next. */
  lemma {:induction false} NextOnTrack(net: Network, t: MetricType, src: RouterId, p: seq<LsLink>, k: nat, order: seq<RouterId>, s: Table) returns (u: RouterId)
    requires Shape(net, src, s, order) && OnTrack(net, t, src, p, order, s, k)
    ensures IsNext(s, u) && (u == StartOf(src, p, k) || s[u].cost < Cost(p[..k], t))
  {
    u := SomeNext(s, StartOf(src, p, k));
    if s[u].cost == Cost(p[..k], t) {
      u := StartOf(src, p, k);
    }
  }

  /** What is left to do after finding out who is next. */
  lemma {:induction false} StepOn(net: Network, t: MetricType, src: RouterId, dst: RouterId, x: RouterId, p: seq<LsLink>, k: nat,
                                  order: seq<RouterId>, s: Table, u: RouterId) returns (order': seq<RouterId>, s': Table, k': nat)
    requires LinksClosed(net) && NeverWraps(net, t, src, dst) && Leads(net, t, src, dst, x, p)
    requires IsRun(net, t, src, dst, order, s) && OnTrack(net, t, src, p, order, s, k)
    requires IsNext(s, u) && (s[u].cost < Cost(p[..k], t) || (k < |p| && u == StartOf(src, p, k)))
    ensures IsRun(net, t, src, dst, order', s') && OnTrack(net, t, src, p, order', s', k') && Remaining(net, s') < Remaining(net, s)
  {
    if s[u].cost < Cost(p[..k], t) {
      order', k' := order + [u], k;
      s' := StepAside(net, t, src, dst, x, p, k, order, s, u);
    } else {
      PathLinks(net, t, src, x, p, k);
      order', k' := order + [u], k + 1;
      s' := StepAlong(net, t, src, dst, x, p, k, order, s);
    }
  }

  lemma {:induction false} EndIsReached(net: Network, t: MetricType, src: RouterId, dst: RouterId, x: RouterId, p: seq<LsLink>,
                                        order: seq<RouterId>, s: Table)
    requires LinksClosed(net) && IsWalk(net, src, p, x)
    requires IsRun(net, t, src, dst, order, s) && OnTrack(net, t, src, p, order, s, |p|) && IsNext(s, StartOf(src, p, |p|))
    ensures RunsTo(net, t, src, dst, x, p)
  {
    EndOfPath(net, src, p, x);
    assert EndsOnTrack(net, t, src, x, p, s);
  }

  lemma {:induction false} StepOrEnd(net: Network, t: MetricType, src: RouterId, dst: RouterId, x: RouterId, p: seq<LsLink>, k: nat,
                                     order: seq<RouterId>, s: Table)
    requires LinksClosed(net) && NeverWraps(net, t, src, dst) && Leads(net, t, src, dst, x, p)
    requires IsRun(net, t, src, dst, order, s) && OnTrack(net, t, src, p, order, s, k)
    ensures RunsTo(net, t, src, dst, x, p) || GoesOn(net, t, src, dst, p, Remaining(net, s))
  {
    RunsAreGood(net, t, src, dst, order);
    var u := NextOnTrack(net, t, src, p, k, order, s);
    if s[u].cost < Cost(p[..k], t) || k < |p| {
      var order', s', k' := StepOn(net, t, src, dst, x, p, k, order, s, u);
    } else {
      EndIsReached(net, t, src, dst, x, p, order, s);
    }
  }

  /** Choosing the routers of `p` among equals, the computation comes to the end of `p`. */
  lemma {:induction false} RunAlong(net: Network, t: MetricType, src: RouterId, dst: RouterId, x: RouterId, p: seq<LsLink>, n: nat)
    requires LinksClosed(net) && NeverWraps(net, t, src, dst) && Leads(net, t, src, dst, x, p) && GoesOn(net, t, src, dst, p, n)
    ensures RunsTo(net, t, src, dst, x, p)
    decreases n
  {
    var order, s, k :| IsRun(net, t, src, dst, order, s) && OnTrack(net, t, src, p, order, s, k) && Remaining(net, s) < n;
    StepOrEnd(net, t, src, dst, x, p, k, order, s);
    if !RunsTo(net, t, src, dst, x, p) {
      RunAlong(net, t, src, dst, x, p, Remaining(net, s));
    }
  }

  lemma {:induction false} PathIsRun(net: Network, t: MetricType, src: RouterId, dst: RouterId, x: RouterId, p: seq<LsLink>)
    requires LinksClosed(net) && NeverWraps(net, t, src, dst) && Leads(net, t, src, dst, x, p)
    ensures RunsTo(net, t, src, dst, x, p)
  {
    StartIsOnTrack(net, t, src, dst, x, p);
    assert IsRun(net, t, src, dst, [], Start(net, src));
    RunAlong(net, t, src, dst, x, p, Remaining(net, Start(net, src)) + 1);
  }

  lemma EndOfPath(net: Network, src: RouterId, p: seq<LsLink>, x: RouterId)
    requires IsWalk(net, src, p, x)
    ensures StartOf(src, p, |p|) == x
  {
  }

  lemma {:induction false} EnteredIsFollowed(net: Network, t: MetricType, src: RouterId, x: RouterId, p: seq<LsLink>, s: Table)
    requires IsShortest(net, t, src, x, p)
    requires forall i | 0 <= i < |p| :: EntersFirst(net, t, src, p, i) && Entered(net, t, src, p, s, i)
    ensures Follows(src, s, p, x)
  {
    EndOfPath(net, src, p, x);
    forall i: nat | i < |p|
      ensures FollowsAt(src, s, p, i)
    {
      PathLinks(net, t, src, x, p, i);
      assert EntersFirst(net, t, src, p, i) && Entered(net, t, src, p, s, i);
      assert p[i] in p;
    }
  }

  lemma {:induction false} ShortestLeads(net: Network, t: MetricType, src: RouterId, dst: RouterId, p: seq<LsLink>)
    requires IsShortest(net, t, src, dst, p) && Expands(net, t, src, p)
    ensures Leads(net, t, src, dst, dst, p)
  {
    forall l | l in p
      ensures l.local != dst
    {
      var i :| 0 <= i < |p| && p[i] == l;
      PathLinks(net, t, src, dst, p, i);
      EndOfPath(net, src, p, dst);
    }
  }

  lemma {:induction false} FoundIsReturned(net: Network, t: MetricType, src: RouterId, dst: RouterId, p: seq<LsLink>)
    requires LinksClosed(net) && NeverWraps(net, t, src, dst) && Finds(net, t, src, dst, p)
    ensures IsReturned(net, t, src, dst, p)
  {
    ShortestLeads(net, t, src, dst, p);
    PathIsRun(net, t, src, dst, dst, p);
    var order, s :| IsRun(net, t, src, dst, order, s) && EndsOnTrack(net, t, src, dst, p, s);
    EnteredIsFollowed(net, t, src, dst, p, s);
  }

  /** The main result: of the shortest paths the computation can return exactly those in which each
      router is entered first, whatever order the map is read in. */
  lemma {:induction false} ReturnedExactlyWhenFound(net: Network, t: MetricType, src: RouterId, dst: RouterId, p: seq<LsLink>)
    requires LinksClosed(net) && CostsFit(net, t, src, dst)
    ensures IsShortest(net, t, src, dst, p) && IsReturned(net, t, src, dst, p) <==> Finds(net, t, src, dst, p)
  {
    FittingCostsNeverWrap(net, t, src, dst);
    if Finds(net, t, src, dst, p) {
      FoundIsReturned(net, t, src, dst, p);
    } else if IsShortest(net, t, src, dst, p) && IsReturned(net, t, src, dst, p) {
      var order, s :| IsRun(net, t, src, dst, order, s) && IsNext(s, dst) && Follows(src, s, p, dst);
      RunsAreGood(net, t, src, dst, order);
      ReturnedIsFound(net, t, src, dst, s, order, p);
    }
  }

  /** When `dst` is next, its back-pointers follow a path that can be found, and the segments kept
      in the table are those of that path. */
  lemma {:induction false} NextIsDestination(net: Network, t: MetricType, src: RouterId, dst: RouterId, s: Table) returns (p: seq<LsLink>)
    requires LinksClosed(net) && NeverWraps(net, t, src, dst) && Reached(net, t, src, dst, s) && IsNext(s, dst)
    ensures Finds(net, t, src, dst, p) && Follows(src, s, p, dst) && HasSegments(net, s) && src in s
  {
    var order :| IsRun(net, t, src, dst, order, s);
    RunsAreGood(net, t, src, dst, order);
    p := NextIsShortest(net, t, src, s, order, dst);
    ReturnedIsFound(net, t, src, dst, s, order, p);
  }
}
