/** Walks through the TED, their cost, and what the path computation of pkg/cspf/cspf.go is for. */
module Walks {
  import opened Bytes
  import opened Segments
  import opened Ted
  import opened Wrappers

  datatype SpfError = NextNodeNotFound | MetricUndefined | NoSegment(sidError: SidError)

  // ----- walks

  /** `p` leads from `src` to `dst` along links of the TED. */
  ghost predicate IsWalk(net: Network, src: RouterId, p: seq<LsLink>, dst: RouterId) {
    if p == [] then src == dst
    else
      var l := p[|p| - 1];
      && l.local in net && l in net[l.local].links && l.remote == dst
      && IsWalk(net, src, p[..|p| - 1], l.local)
  }

  ghost predicate Reachable(net: Network, src: RouterId, dst: RouterId) {
    exists p :: IsWalk(net, src, p, dst)
  }

  /** A link without the metric counts nothing, so the minimum is over all walks whatsoever. */
  function LinkCost(l: LsLink, t: MetricType): nat {
    match LinkMetric(l, t)
    case None => 0
    case Some(m) => m
  }

  function Cost(p: seq<LsLink>, t: MetricType): nat {
    if p == [] then 0 else Cost(p[..|p| - 1], t) + LinkCost(p[|p| - 1], t)
  }

  /** Every link has the metric, and no node is visited twice. */
  ghost predicate IsProperPath(p: seq<LsLink>, src: RouterId, t: MetricType) {
    && (forall l | l in p :: LinkMetric(l, t).Some? && l.remote != src)
    && (forall i, j | 0 <= i < j < |p| :: p[i].remote != p[j].remote)
  }

  /** The segments of the nodes a walk enters: the source is left out, the end comes last. */
  ghost predicate AreSegmentsOf(net: Network, p: seq<LsLink>, segs: seq<Segment>) {
    |segs| == |p| && forall i | 0 <= i < |p| :: p[i].remote in net && NodeSegment(net[p[i].remote]) == Ok(segs[i])
  }

  /** `p` is a proper path that no walk undercuts. */
  ghost predicate IsShortest(net: Network, t: MetricType, src: RouterId, dst: RouterId, p: seq<LsLink>) {
    && IsWalk(net, src, p, dst) && IsProperPath(p, src, t)
    && forall q | IsWalk(net, src, q, dst) :: Cost(p, t) <= Cost(q, t)
  }

  ghost predicate ShortestSegments(net: Network, t: MetricType, src: RouterId, dst: RouterId, segs: seq<Segment>) {
    exists p :: IsShortest(net, t, src, dst, p) && AreSegmentsOf(net, p, segs)
  }

  // ----- which of the shortest paths

  /** Every link out of `u` has the metric and leads to a router with a segment. */
  ghost predicate Expandable(net: Network, t: MetricType, u: RouterId) {
    && u in net
    && forall l | l in net[u].links :: LinkMetric(l, t).Some? && l.remote in net && NodeSegment(net[l.remote]).Ok?
  }

  /** So can be every router nearer than the end of `p`, and every one that `p` leaves. */
  ghost predicate Expands(net: Network, t: MetricType, src: RouterId, p: seq<LsLink>) {
    && src in net && NodeSegment(net[src]).Ok?
    && (forall q, u | IsWalk(net, src, q, u) && Cost(q, t) < Cost(p, t) :: Expandable(net, t, u))
    && (forall l | l in p :: Expandable(net, t, l.local))
  }

  /** `l` enters the end of link `i` of `p` behind the walk `q`, and no dearer than `p` does. */
  ghost predicate EntersToo(net: Network, t: MetricType, src: RouterId, p: seq<LsLink>, i: nat, q: seq<LsLink>, l: LsLink)
    requires i < |p|
  {
    && IsWalk(net, src, q, l.local) && l.local in net && l in net[l.local].links && l.remote == p[i].remote
    && Cost(q, t) + LinkCost(l, t) <= Cost(p[..i + 1], t)
  }

  /** Of the routers from which a shortest walk enters the end of link `i`, none is nearer than the
      one that `p` comes from, and none is met on `p` before it. */
  ghost predicate EntersFirst(net: Network, t: MetricType, src: RouterId, p: seq<LsLink>, i: nat)
    requires i < |p|
  {
    forall q, l | EntersToo(net, t, src, p, i, q, l) ::
      Cost(p[..i], t) <= Cost(q, t) && forall j | 0 <= j < i :: l.local != p[j].local
  }

  /** The shortest paths that the computation can return: ties are won by whoever is settled first. */
  ghost predicate Finds(net: Network, t: MetricType, src: RouterId, dst: RouterId, p: seq<LsLink>) {
    && IsShortest(net, t, src, dst, p) && Expands(net, t, src, p)
    && forall i | 0 <= i < |p| :: EntersFirst(net, t, src, p, i)
  }

  ghost predicate FoundSegments(net: Network, t: MetricType, src: RouterId, dst: RouterId, segs: seq<Segment>) {
    exists p :: Finds(net, t, src, dst, p) && AreSegmentsOf(net, p, segs)
  }

  lemma FoundIsShortest(net: Network, t: MetricType, src: RouterId, dst: RouterId, segs: seq<Segment>)
    requires FoundSegments(net, t, src, dst, segs)
    ensures ShortestSegments(net, t, src, dst, segs)
  {
  }

  /** What a caller may conclude from either result of a path computation. */
  ghost predicate SpfSpec(net: Network, t: MetricType, src: RouterId, dst: RouterId,
                          r: Result<seq<Segment>, SpfError>) {
    match r
    case Ok(segs) => FoundSegments(net, t, src, dst, segs)
    case Err(NextNodeNotFound) => !Reachable(net, src, dst)
    case Err(MetricUndefined) =>
      exists u, l :: Reachable(net, src, u) && u in net && l in net[u].links && LinkMetric(l, t).None?
    case Err(NoSegment(e)) => exists u :: Reachable(net, src, u) && u in net && NodeSegment(net[u]) == Err(e)
  }

  /** With all metrics and node SIDs present, failure means exactly that there is no way. */
  lemma {:induction false} FailsExactlyWhenUnreachable(net: Network, t: MetricType, src: RouterId, dst: RouterId,
                                    r: Result<seq<Segment>, SpfError>)
    requires SpfSpec(net, t, src, dst, r)
    requires forall u, l | u in net && l in net[u].links :: LinkMetric(l, t).Some?
    requires forall u | u in net :: NodeSegment(net[u]).Ok?
    ensures r.Err? <==> !Reachable(net, src, dst)
  {
    if r.Ok? {
      var p :| Finds(net, t, src, dst, p) && AreSegmentsOf(net, p, r.value);
      assert IsWalk(net, src, p, dst);
    }
  }

  // ----- which sums fit 32 bits

  /** No way to `dst` is cheaper than `p`. */
  ghost predicate NotBeyond(net: Network, t: MetricType, src: RouterId, dst: RouterId, p: seq<LsLink>) {
    forall q | IsWalk(net, src, q, dst) :: Cost(p, t) <= Cost(q, t)
  }

  predicate Avoids(src: RouterId, dst: RouterId, p: seq<LsLink>) {
    src != dst && forall l | l in p :: l.remote != dst
  }

  lemma {:induction false} EndIsAvoided(net: Network, src: RouterId, dst: RouterId, p: seq<LsLink>, x: RouterId)
    requires IsWalk(net, src, p, x) && Avoids(src, dst, p)
    ensures x != dst
  {
    assert |p| > 0 ==> p[|p| - 1] in p;
  }

  /** On the way to `dst` the router `u` may be expanded, and this along `p`. */
  ghost predicate Settles(net: Network, t: MetricType, src: RouterId, dst: RouterId, u: RouterId, p: seq<LsLink>) {
    && IsShortest(net, t, src, u, p) && Expands(net, t, src, p) && Expandable(net, t, u)
    && Avoids(src, dst, p) && NotBeyond(net, t, src, dst, p)
  }

  /** The sum fits 32 bits, or else some walk enters the router for no more than what is left of it. */
  ghost predicate SumFits(net: Network, t: MetricType, src: RouterId, cost: nat, l: LsLink) {
    || cost + LinkCost(l, t) < 0x1_0000_0000
    || exists q :: IsWalk(net, src, q, l.remote) && Cost(q, t) + 0x1_0000_0000 <= cost + LinkCost(l, t)
  }

  ghost predicate SumsFit(net: Network, t: MetricType, src: RouterId, u: RouterId, cost: nat) {
    u in net ==> forall l | l in net[u].links :: SumFits(net, t, src, cost, l)
  }

  /** The sums fit for every router that may be expanded on the way to `dst`. */
  ghost predicate CostsFit(net: Network, t: MetricType, src: RouterId, dst: RouterId) {
    forall u, p | Settles(net, t, src, dst, u, p) :: SumsFit(net, t, src, u, Cost(p, t))
  }

  // ----- parts of walks

  lemma {:induction false} WalkConcat(net: Network, x: RouterId, p: seq<LsLink>, y: RouterId, q: seq<LsLink>, z: RouterId)
    requires IsWalk(net, x, p, y) && IsWalk(net, y, q, z)
    ensures IsWalk(net, x, p + q, z)
  {
    if q == [] {
      assert p + q == p;
    } else {
      var last := |q| - 1;
      assert (p + q)[..|p + q| - 1] == p + q[..last];
      WalkConcat(net, x, p, y, q[..last], q[last].local);
    }
  }

  lemma {:induction false} OneMoreLink(net: Network, t: MetricType, src: RouterId, p: seq<LsLink>, l: LsLink)
    requires IsWalk(net, src, p, l.local) && l.local in net && l in net[l.local].links
    ensures IsWalk(net, src, p + [l], l.remote) && Cost(p + [l], t) == Cost(p, t) + LinkCost(l, t)
  {
    assert (p + [l])[..|p + [l]| - 1] == p;
  }

  lemma {:induction false} CostConcat(p: seq<LsLink>, q: seq<LsLink>, t: MetricType)
    ensures Cost(p + q, t) == Cost(p, t) + Cost(q, t)
  {
    if q == [] {
      assert p + q == p;
    } else {
      var last := |q| - 1;
      assert (p + q)[..|p + q| - 1] == p + q[..last];
      CostConcat(p, q[..last], t);
    }
  }

  /** Where link `i` of a walk from `src` starts. */
  function StartOf(src: RouterId, p: seq<LsLink>, i: nat): RouterId
    requires i <= |p|
  {
    if i == 0 then src else p[i - 1].remote
  }

  /** Every link of a walk is one of the TED and starts where the one before ends. */
  lemma {:induction false} WalkLink(net: Network, src: RouterId, p: seq<LsLink>, x: RouterId, i: nat)
    requires IsWalk(net, src, p, x) && i < |p|
    ensures p[i].local in net && p[i] in net[p[i].local].links && p[i].local == StartOf(src, p, i)
  {
    var init := p[..|p| - 1];
    if i < |p| - 1 {
      WalkLink(net, src, init, p[|p| - 1].local, i);
      assert init[i] == p[i] && StartOf(src, init, i) == StartOf(src, p, i);
    } else if init != [] {
      assert init[|init| - 1] == p[i - 1];
    }
  }

  lemma {:induction false} WalkSplit(net: Network, src: RouterId, p: seq<LsLink>, x: RouterId, i: nat)
    requires IsWalk(net, src, p, x) && i <= |p|
    ensures IsWalk(net, src, p[..i], StartOf(src, p, i)) && IsWalk(net, StartOf(src, p, i), p[i..], x)
  {
    if i == |p| {
      assert p[..i] == p && p[i..] == [];
    } else {
      var last := |p| - 1;
      var init := p[..last];
      WalkSplit(net, src, init, p[last].local, i);
      assert init[..i] == p[..i] && StartOf(src, init, i) == StartOf(src, p, i);
      assert p[i..][..|p[i..]| - 1] == init[i..] && p[i..][|p[i..]| - 1] == p[last];
    }
  }

  lemma {:induction false} PrefixIsCheapest(net: Network, t: MetricType, src: RouterId, dst: RouterId, p: seq<LsLink>, i: nat, q: seq<LsLink>)
    requires IsShortest(net, t, src, dst, p) && i <= |p| && IsWalk(net, src, q, StartOf(src, p, i))
    ensures Cost(p[..i], t) <= Cost(q, t)
  {
    WalkSplit(net, src, p, dst, i);
    WalkConcat(net, src, q, StartOf(src, p, i), p[i..], dst);
    assert p[..i] + p[i..] == p;
    CostConcat(p[..i], p[i..], t);
    CostConcat(q, p[i..], t);
  }

  lemma {:induction false} PrefixIsProper(p: seq<LsLink>, src: RouterId, t: MetricType, i: nat)
    requires IsProperPath(p, src, t) && i <= |p|
    ensures IsProperPath(p[..i], src, t)
  {
  }

  /** What a shortest path begins with is shortest. */
  lemma {:induction false} PrefixIsShortest(net: Network, t: MetricType, src: RouterId, dst: RouterId, p: seq<LsLink>, i: nat)
    requires IsShortest(net, t, src, dst, p) && i <= |p|
    ensures IsShortest(net, t, src, StartOf(src, p, i), p[..i])
  {
    WalkSplit(net, src, p, dst, i);
    PrefixIsProper(p, src, t, i);
    forall q | IsWalk(net, src, q, StartOf(src, p, i))
      ensures Cost(p[..i], t) <= Cost(q, t)
    {
      PrefixIsCheapest(net, t, src, dst, p, i, q);
    }
  }

  lemma {:induction false} CostOfOneMore(p: seq<LsLink>, i: nat, t: MetricType)
    requires i < |p|
    ensures Cost(p[..i + 1], t) == Cost(p[..i], t) + LinkCost(p[i], t)
  {
    assert p[..i + 1][..i] == p[..i];
  }

  lemma {:induction false} PrefixCosts(p: seq<LsLink>, i: nat, j: nat, t: MetricType)
    requires i <= j <= |p|
    ensures Cost(p[..i], t) <= Cost(p[..j], t) <= Cost(p, t)
  {
    assert p[..i] + p[i..j] == p[..j] && p[..j] + p[j..] == p;
    CostConcat(p[..i], p[i..j], t);
    CostConcat(p[..j], p[j..], t);
  }

  /** What a path that can be found begins with can be found. */
  lemma {:induction false} PrefixIsFound(net: Network, t: MetricType, src: RouterId, dst: RouterId, p: seq<LsLink>, i: nat)
    requires Finds(net, t, src, dst, p) && i <= |p|
    ensures Finds(net, t, src, StartOf(src, p, i), p[..i])
  {
    PrefixIsShortest(net, t, src, dst, p, i);
    PrefixCosts(p, i, i, t);
    forall k | 0 <= k < i
      ensures EntersFirst(net, t, src, p[..i], k)
    {
      PrefixEntersFirst(net, t, src, p, i, k);
    }
  }

  lemma {:induction false} PrefixEntersFirst(net: Network, t: MetricType, src: RouterId, p: seq<LsLink>, i: nat, k: nat)
    requires k < i <= |p| && EntersFirst(net, t, src, p, k)
    ensures EntersFirst(net, t, src, p[..i], k)
  {
    assert p[..i][..k + 1] == p[..k + 1] && p[..i][..k] == p[..k];
    forall q, l | EntersToo(net, t, src, p[..i], k, q, l)
      ensures Cost(p[..i][..k], t) <= Cost(q, t) && forall j | 0 <= j < k :: l.local != p[..i][j].local
    {
      assert EntersToo(net, t, src, p, k, q, l);
    }
  }
}
