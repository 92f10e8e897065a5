/** For which TEDs loose routing returns the adjacent-duplicate collapse of its legs
    (pkg/cspf/cspf.go). */
module LooseCollapse {
  import opened Bytes
  import opened FoundPaths
  import opened LooseRouting
  import opened Netip
  import opened Rounds
  import opened Segments
  import opened ShortestPath
  import opened Ted
  import opened Walks
  import opened Wrappers

  /** Two links of a walk replaced by another way between their ends. */
  lemma {:induction false} Detour(net: Network, src: RouterId, dst: RouterId, p: seq<LsLink>, i: nat, q: seq<LsLink>)
    requires IsWalk(net, src, p, dst) && i + 2 <= |p| && IsWalk(net, StartOf(src, p, i), q, p[i + 1].remote)
    ensures IsWalk(net, src, p[..i] + q + p[i + 2..], dst)
  {
    WalkSplit(net, src, p, dst, i);
    WalkSplit(net, src, p, dst, i + 2);
    WalkConcat(net, src, p[..i], StartOf(src, p, i), q, p[i + 1].remote);
    WalkConcat(net, src, p[..i] + q, p[i + 1].remote, p[i + 2..], dst);
  }

  lemma {:induction false} CheaperMiddle(x: seq<LsLink>, y: seq<LsLink>, z: seq<LsLink>, q: seq<LsLink>, t: MetricType)
    requires Cost(x + y + z, t) <= Cost(x + q + z, t)
    ensures Cost(y, t) <= Cost(q, t)
  {
    CostConcat(x, y, t);
    CostConcat(x + y, z, t);
    CostConcat(x, q, t);
    CostConcat(x + q, z, t);
  }

  lemma {:induction false} ThreeParts<T>(p: seq<T>, i: nat, j: nat)
    requires i <= j <= |p|
    ensures p[..i] + p[i..j] + p[j..] == p
  {
  }

  lemma {:induction false} DetourIsNotCheaper(net: Network, t: MetricType, src: RouterId, dst: RouterId, p: seq<LsLink>, i: nat, q: seq<LsLink>)
    requires IsShortest(net, t, src, dst, p) && i + 2 <= |p| && IsWalk(net, StartOf(src, p, i), q, p[i + 1].remote)
    ensures Cost(p, t) <= Cost(p[..i] + q + p[i + 2..], t)
  {
    Detour(net, src, dst, p, i, q);
  }

  /** A way around two links of a shortest path is not cheaper. */
  lemma {:induction false} DetourCost(net: Network, t: MetricType, src: RouterId, dst: RouterId, p: seq<LsLink>, i: nat, q: seq<LsLink>)
    requires IsShortest(net, t, src, dst, p) && i + 2 <= |p| && IsWalk(net, StartOf(src, p, i), q, p[i + 1].remote)
    ensures Cost(p[i..i + 2], t) <= Cost(q, t)
  {
    DetourIsNotCheaper(net, t, src, dst, p, i, q);
    ThreeParts(p, i, i + 2);
    CheaperMiddle(p[..i], p[i..i + 2], p[i + 2..], q, t);
  }

  lemma {:induction false} TwoLinksAreProper(src: RouterId, p: seq<LsLink>, i: nat, t: MetricType)
    requires IsProperPath(p, src, t) && i + 2 <= |p| && p[i].local == StartOf(src, p, i)
    ensures IsProperPath([p[i], p[i + 1]], p[i].local, t)
  {
    assert p[i] in p && p[i + 1] in p;
  }

  lemma {:induction false} TwoLinksAreAWalk(net: Network, src: RouterId, dst: RouterId, p: seq<LsLink>, i: nat)
    requires IsWalk(net, src, p, dst) && i + 2 <= |p|
    ensures p[i].local == StartOf(src, p, i) && IsWalk(net, p[i].local, p[i..i + 2], p[i + 1].remote)
  {
    WalkLink(net, src, p, dst, i);
    WalkSplit(net, src, p, dst, i + 2);
    WalkSplit(net, src, p[..i + 2], p[i + 1].remote, i);
    assert p[..i + 2][i..] == p[i..i + 2] && StartOf(src, p[..i + 2], i) == p[i].local;
  }

  /** Two links in a row of a shortest path are a shortest path themselves. */
  lemma {:induction false} TwoLinksAreShortest(net: Network, t: MetricType, src: RouterId, dst: RouterId, p: seq<LsLink>, i: nat)
    requires IsShortest(net, t, src, dst, p) && i + 2 <= |p|
    ensures IsShortest(net, t, p[i].local, p[i + 1].remote, [p[i], p[i + 1]])
  {
    assert p[i..i + 2] == [p[i], p[i + 1]];
    TwoLinksAreAWalk(net, src, dst, p, i);
    TwoLinksAreProper(src, p, i, t);
    forall q | IsWalk(net, p[i].local, q, p[i + 1].remote) ensures Cost([p[i], p[i + 1]], t) <= Cost(q, t) {
      DetourCost(net, t, src, dst, p, i, q);
    }
  }

  // ----- the condition on the TED

  /** Both routers have segments, and these are the same hop. */
  ghost predicate SameSegment(ted: Network, u: RouterId, v: RouterId) {
    && u in ted && v in ted && NodeSegment(ted[u]).Ok? && NodeSegment(ted[v]).Ok?
    && SegmentsEqual(NodeSegment(ted[u]).value, NodeSegment(ted[v]).value)
  }

  /** Two routers in a row share a segment. */
  ghost predicate RepeatsAt(ted: Network, p: seq<LsLink>, i: nat) {
    i + 2 <= |p| && SameSegment(ted, p[i].remote, p[i + 1].remote)
  }

  /** They do on a path that can be found. */
  ghost predicate Repeats(ted: Network, t: MetricType) {
    exists src, dst, p, i :: CostsFit(ted, t, src, dst) && Finds(ted, t, src, dst, p) && RepeatsAt(ted, p, i)
  }

  /** The result of every query whose costs fit, whichever paths are found, is the collapse of its legs. */
  ghost predicate AlwaysCollapses(ted: Network, t: MetricType) {
    forall src, wps, legs | src in ted && LegsFit(ted, t, src, wps) && |legs| == |wps| && AreLegs(ted, t, src, wps, legs) ::
      JoinAll(legs) == Collapse(Flatten(legs))
  }

  lemma {:induction false} PathWithoutRepeat(ted: Network, p: seq<LsLink>, path: seq<Segment>)
    requires AreSegmentsOf(ted, p, path) && forall i: nat :: !RepeatsAt(ted, p, i)
    ensures NeighboursDiffer(path)
  {
    forall i, j | 0 <= i < j < |path| && j == i + 1
      ensures !SegmentsEqual(path[i], path[j])
    {
      assert !RepeatsAt(ted, p, i);
    }
  }

  lemma {:induction false} FoundPathDiffers(ted: Network, t: MetricType, src: RouterId, dst: RouterId, path: seq<Segment>)
    requires FoundSegments(ted, t, src, dst, path) && CostsFit(ted, t, src, dst) && !Repeats(ted, t)
    ensures NeighboursDiffer(path)
  {
    var p: seq<LsLink> :| Finds(ted, t, src, dst, p) && AreSegmentsOf(ted, p, path);
    PathWithoutRepeat(ted, p, path);
  }

  lemma {:induction false} LegsCollapse(ted: Network, t: MetricType, src: RouterId, wps: seq<Waypoint>, legs: seq<Leg>)
    requires AreLegs(ted, t, src, wps, legs) && LegsFit(ted, t, src, wps) && !Repeats(ted, t)
    ensures JoinAll(legs) == Collapse(Flatten(legs))
  {
    forall leg | leg in legs
      ensures NeighboursDiffer(leg.path)
    {
      var i :| 0 <= i < |legs| && leg == legs[i];
      assert IsLeg(ted, t, src, wps, i, leg);
      FoundPathDiffers(ted, t, LegSource(src, wps, i), wps[i].routerId, leg.path);
    }
    JoinedIsCollapsed(legs);
  }

  /** Every router that a found path enters has a segment. */
  lemma {:induction false} FoundPathHasSegments(ted: Network, t: MetricType, src: RouterId, dst: RouterId, p: seq<LsLink>) returns (path: seq<Segment>)
    requires Finds(ted, t, src, dst, p)
    ensures AreSegmentsOf(ted, p, path)
  {
    forall i | 0 <= i < |p|
      ensures p[i].remote in ted && NodeSegment(ted[p[i].remote]).Ok?
    {
      WalkLink(ted, src, p, dst, i);
      assert p[i] in p;
    }
    path := seq(|p|, i requires 0 <= i < |p| => NodeSegment(ted[p[i].remote]).value);
  }

  lemma {:induction false} FoundPathIsLeg(ted: Network, t: MetricType, src: RouterId, dst: RouterId, p: seq<LsLink>, path: seq<Segment>)
    requires Finds(ted, t, src, dst, p) && AreSegmentsOf(ted, p, path) && |p| > 0
    ensures IsLeg(ted, t, src, [Waypoint(dst, None)], 0, Leg(path, path[|path| - 1]))
  {
    EndOfPath(ted, src, p, dst);
    assert p[|p| - 1].remote == dst;
  }

  /** The query for a path on which a segment repeats is not collapsed. */
  lemma {:induction false} RepeatIsKept(ted: Network, t: MetricType, src: RouterId, dst: RouterId, p: seq<LsLink>, i: nat) returns (legs: seq<Leg>)
    requires Finds(ted, t, src, dst, p) && RepeatsAt(ted, p, i)
    ensures src in ted && |legs| == 1 && AreLegs(ted, t, src, [Waypoint(dst, None)], legs)
    ensures JoinAll(legs) != Collapse(Flatten(legs))
  {
    var path := FoundPathHasSegments(ted, t, src, dst, p);
    FoundPathIsLeg(ted, t, src, dst, p, path);
    legs := [Leg(path, path[|path| - 1])];
    assert !NeighboursDiffer(path) by { assert SegmentsEqual(path[i], path[i + 1]); }
    assert legs[0] in legs;
    JoinedIsCollapsedExactlyWhen(legs);
  }

  /** The main result: loose routing over a TED always returns the collapse of its legs if and only
      if no path that can be found enters two routers in a row that share a segment. */
  lemma {:induction false} LooseRoutingCollapsesExactlyWhen(ted: Network, t: MetricType)
    ensures AlwaysCollapses(ted, t) <==> !Repeats(ted, t)
  {
    if Repeats(ted, t) {
      var src, dst, p, i :| CostsFit(ted, t, src, dst) && Finds(ted, t, src, dst, p) && RepeatsAt(ted, p, i);
      var legs := RepeatIsKept(ted, t, src, dst, p, i);
      assert LegsFit(ted, t, src, [Waypoint(dst, None)]);
    } else {
      forall src, wps, legs | src in ted && LegsFit(ted, t, src, wps) && |legs| == |wps| && AreLegs(ted, t, src, wps, legs)
        ensures JoinAll(legs) == Collapse(Flatten(legs))
      {
        LegsCollapse(ted, t, src, wps, legs);
      }
    }
  }

  // ----- the same condition, on one link

  /** A shortest path whose last two routers share a segment, with the last one entered first. */
  ghost predicate EndsInRepeat(ted: Network, t: MetricType, src: RouterId, dst: RouterId, p: seq<LsLink>) {
    && |p| >= 2 && IsShortest(ted, t, src, dst, p) && Expands(ted, t, src, p)
    && EntersFirst(ted, t, src, p, |p| - 1) && SameSegment(ted, p[|p| - 1].local, dst)
  }

  lemma {:induction false} RepeatEnds(ted: Network, t: MetricType, src: RouterId, dst: RouterId, p: seq<LsLink>, i: nat)
    requires Finds(ted, t, src, dst, p) && RepeatsAt(ted, p, i)
    ensures EndsInRepeat(ted, t, src, p[i + 1].remote, p[..i + 2])
  {
    PrefixIsFound(ted, t, src, dst, p, i + 2);
    PathLinks(ted, t, src, dst, p, i);
  }

  /** Some run enters the last router of such a path over its last link, however it came there. */
  lemma {:induction false} LastLinkIsFound(ted: Network, t: MetricType, src: RouterId, dst: RouterId, p: seq<LsLink>) returns (q: seq<LsLink>)
    requires LinksClosed(ted) && CostsFit(ted, t, src, dst) && |p| >= 2 && IsShortest(ted, t, src, dst, p) && Expands(ted, t, src, p)
    requires EntersFirst(ted, t, src, p, |p| - 1)
    ensures |q| >= 2 && Finds(ted, t, src, dst, q) && q[|q| - 2].remote == p[|p| - 1].local && q[|q| - 1].remote == dst
  {
    var last := |p| - 1;
    FittingCostsNeverWrap(ted, t, src, dst);
    ShortestLeads(ted, t, src, dst, p);
    PathIsRun(ted, t, src, dst, dst, p);
    var order, s :| IsRun(ted, t, src, dst, order, s) && EndsOnTrack(ted, t, src, dst, p, s);
    q := NextIsDestination(ted, t, src, dst, s);
    LastLinks(ted, t, src, dst, p, s, q);
  }

  lemma {:induction false} LastLinks(ted: Network, t: MetricType, src: RouterId, dst: RouterId, p: seq<LsLink>, s: Table, q: seq<LsLink>)
    requires |p| >= 2 && IsShortest(ted, t, src, dst, p) && EntersFirst(ted, t, src, p, |p| - 1) && Entered(ted, t, src, p, s, |p| - 1)
    requires Follows(src, s, q, dst)
    ensures |q| >= 2 && q[|q| - 2].remote == p[|p| - 1].local && q[|q| - 1].remote == dst
  {
    PathLinks(ted, t, src, dst, p, |p| - 2);
    assert p[|p| - 2] in p && p[|p| - 1] in p;
    assert |q| > 0;
    assert FollowsAt(src, s, q, |q| - 1);
  }

  /** Every query of the TED fits. */
  ghost predicate AllCostsFit(ted: Network, t: MetricType) {
    forall src, dst :: CostsFit(ted, t, src, dst)
  }

  lemma {:induction false} RepeatHasEnd(ted: Network, t: MetricType)
    requires Repeats(ted, t)
    ensures exists src, dst, p :: EndsInRepeat(ted, t, src, dst, p)
  {
    var src, dst, p, i :| CostsFit(ted, t, src, dst) && Finds(ted, t, src, dst, p) && RepeatsAt(ted, p, i);
    RepeatEnds(ted, t, src, dst, p, i);
  }

  lemma {:induction false} EndRepeats(ted: Network, t: MetricType, src: RouterId, dst: RouterId, p: seq<LsLink>)
    requires LinksClosed(ted) && CostsFit(ted, t, src, dst) && EndsInRepeat(ted, t, src, dst, p)
    ensures Repeats(ted, t)
  {
    var q := LastLinkIsFound(ted, t, src, dst, p);
    assert RepeatsAt(ted, q, |q| - 2);
  }

  /** Where all costs fit, a segment repeats exactly when a link does it that ends a shortest path,
      leads from a router other than the source into one that shares its segment, and starts at the
      first of the routers from which the last one is entered best. */
  lemma {:induction false} RepeatsExactlyWhenALinkDoes(ted: Network, t: MetricType)
    requires LinksClosed(ted) && AllCostsFit(ted, t)
    ensures Repeats(ted, t) <==> exists src, dst, p :: EndsInRepeat(ted, t, src, dst, p)
  {
    if Repeats(ted, t) {
      RepeatHasEnd(ted, t);
    } else if src, dst, p :| EndsInRepeat(ted, t, src, dst, p) {
      EndRepeats(ted, t, src, dst, p);
    }
  }

  // ----- cheaper checks that are enough

  /** Two links in a row that are a shortest way, into routers that share a segment. */
  ghost predicate MayRepeatOnTheWay(ted: Network, t: MetricType, k: LsLink, l: LsLink) {
    IsShortest(ted, t, k.local, l.remote, [k, l]) && SameSegment(ted, k.remote, l.remote)
  }

  ghost predicate MayRepeat(ted: Network, t: MetricType) {
    exists k, l :: MayRepeatOnTheWay(ted, t, k, l)
  }

  /** No link joins two routers that share a segment. */
  ghost predicate LinksJoinDifferent(ted: Network) {
    forall u, l | u in ted && l in ted[u].links :: !SameSegment(ted, u, l.remote)
  }

  lemma {:induction false} RepeatsOnlyWhereItMay(ted: Network, t: MetricType)
    requires Repeats(ted, t)
    ensures MayRepeat(ted, t)
  {
    var src, dst, p, i :| CostsFit(ted, t, src, dst) && Finds(ted, t, src, dst, p) && RepeatsAt(ted, p, i);
    TwoLinksAreShortest(ted, t, src, dst, p, i);
    assert MayRepeatOnTheWay(ted, t, p[i], p[i + 1]);
  }

  lemma {:induction false} DifferentNeighboursDoNotRepeat(ted: Network, t: MetricType)
    requires LinksJoinDifferent(ted)
    ensures !MayRepeat(ted, t)
  {
    forall k, l
      ensures !MayRepeatOnTheWay(ted, t, k, l)
    {
      if IsShortest(ted, t, k.local, l.remote, [k, l]) {
        WalkLink(ted, k.local, [k, l], l.remote, 1);
      }
    }
  }

  lemma {:induction false} ShortestDoesNotRepeat(ted: Network, t: MetricType, src: RouterId, dst: RouterId, p: seq<LsLink>, i: nat)
    requires IsShortest(ted, t, src, dst, p) && !MayRepeat(ted, t)
    ensures !RepeatsAt(ted, p, i)
  {
    if i + 2 <= |p| {
      TwoLinksAreShortest(ted, t, src, dst, p, i);
      assert !MayRepeatOnTheWay(ted, t, p[i], p[i + 1]);
    }
  }

  lemma {:induction false} PathDiffers(ted: Network, t: MetricType, src: RouterId, dst: RouterId, path: seq<Segment>)
    requires ShortestSegments(ted, t, src, dst, path) && !MayRepeat(ted, t)
    ensures NeighboursDiffer(path)
  {
    var p: seq<LsLink> :| IsShortest(ted, t, src, dst, p) && AreSegmentsOf(ted, p, path);
    forall i: nat
      ensures !RepeatsAt(ted, p, i)
    {
      ShortestDoesNotRepeat(ted, t, src, dst, p, i);
    }
    PathWithoutRepeat(ted, p, path);
  }

  /** Where no two links in a row are a shortest way into routers that share a segment, what
      `CSPFWithLooseSourceRouting` returns is the collapse of its legs. */
  lemma {:induction false} ResultIsCollapsed(ted: Network, t: MetricType, src: RouterId, wps: seq<Waypoint>, r: Result<seq<Segment>, LooseError>)
    requires LooseSpec(ted, t, src, wps, r) && r.Ok? && !MayRepeat(ted, t)
    ensures exists legs :: |legs| == |wps| && AreLegs(ted, t, src, wps, legs) && r.value == Collapse(Flatten(legs))
    ensures NeighboursDiffer(r.value)
  {
    var legs: seq<Leg> :| |legs| == |wps| && AreLegs(ted, t, src, wps, legs) && r.value == JoinAll(legs);
    forall leg | leg in legs
      ensures NeighboursDiffer(leg.path)
    {
      var i :| 0 <= i < |legs| && leg == legs[i];
      assert IsLeg(ted, t, src, wps, i, leg);
      FoundIsShortest(ted, t, LegSource(src, wps, i), wps[i].routerId, leg.path);
      PathDiffers(ted, t, LegSource(src, wps, i), wps[i].routerId, leg.path);
    }
    JoinedIsCollapsed(legs);
    CollapseNormalises(Flatten(legs));
  }

  // ----- a TED where it does not

  function Router(id: RouterId, index: u32, links: seq<LsLink>): LsNode {
    LsNode(1, id, NodeAttrs("", "", 16000, 24000), links, [LsPrefix(IpPrefix(Invalid, 0), index, true)], [])
  }

  function Link(a: RouterId, b: RouterId): LsLink {
    LsLink(a, b, Invalid, Invalid, [Metric(Te, 10)], 0, None)
  }

  const AB := Link("a", "b")
  const BC := Link("b", "c")

  /** A line on which `b` and `c` share label 16001. */
  const LINE: Network := map["a" := Router("a", 0, [AB]), "b" := Router("b", 1, [BC]), "c" := Router("c", 1, [])]

  const SHARED := NewSegmentSRMPLS(16001)

  lemma {:induction false} RouterSegment(id: RouterId, index: u32, links: seq<LsLink>)
    requires index < 8000
    ensures NodeSegment(Router(id, index, links)) == Ok(NewSegmentSRMPLS(16000 + index))
  {
    var ps := Router(id, index, links).prefixes;
    assert FirstPrefixSid(ps) == Some(ps[0]);
  }

  /** There is one way from `a` to each router. */
  lemma {:induction false} OnlyWay(p: seq<LsLink>, x: RouterId)
    requires IsWalk(LINE, "a", p, x)
    ensures p == if x == "a" then [] else if x == "b" then [AB] else [AB, BC]
    ensures x in LINE
  {
    if p != [] {
      var last := |p| - 1;
      OnlyWay(p[..last], p[last].local);
      assert p == p[..last] + [p[last]];
      assert p[last] == AB || p[last] == BC;
    }
  }

  lemma {:induction false} WayToC()
    ensures IsShortest(LINE, Te, "a", "c", [AB, BC])
  {
    assert AB in LINE["a"].links && BC in LINE["b"].links;
    assert [AB, BC][..1] == [AB] && [AB][..0] == [];
    assert IsWalk(LINE, "a", [], "a");
    assert IsWalk(LINE, "a", [AB], "b");
    forall q | IsWalk(LINE, "a", q, "c") ensures Cost([AB, BC], Te) <= Cost(q, Te) {
      OnlyWay(q, "c");
    }
  }

  const TO_C := [Waypoint("c", None)]
  const LEG_TO_C := Leg([SHARED, SHARED], SHARED)

  lemma {:induction false} SegmentsOfLine()
    ensures NodeSegment(LINE["a"]).Ok? && NodeSegment(LINE["b"]) == Ok(SHARED) && NodeSegment(LINE["c"]) == Ok(SHARED)
  {
    RouterSegment("a", 0, [AB]);
    RouterSegment("b", 1, [BC]);
    RouterSegment("c", 1, []);
  }

  lemma {:induction false} LineExpands(u: RouterId)
    requires u in LINE
    ensures Expandable(LINE, Te, u)
  {
    SegmentsOfLine();
    assert forall l | l in LINE[u].links :: l == AB || l == BC;
  }

  lemma {:induction false} LineEntersFirst(i: nat, q: seq<LsLink>, l: LsLink)
    requires i < 2 && EntersToo(LINE, Te, "a", [AB, BC], i, q, l)
    ensures l == [AB, BC][i] && q == [AB, BC][..i]
  {
    assert l == AB || l == BC;
    OnlyWay(q, l.local);
  }

  lemma {:induction false} WayToCIsFound()
    ensures Finds(LINE, Te, "a", "c", [AB, BC])
  {
    WayToC();
    SegmentsOfLine();
    forall q, u | IsWalk(LINE, "a", q, u)
      ensures Expandable(LINE, Te, u)
    {
      OnlyWay(q, u);
      LineExpands(u);
    }
    LineExpands("a");
    LineExpands("b");
    forall i: nat | i < 2
      ensures EntersFirst(LINE, Te, "a", [AB, BC], i)
    {
      forall q, l | EntersToo(LINE, Te, "a", [AB, BC], i, q, l)
        ensures l == [AB, BC][i] && q == [AB, BC][..i]
      {
        LineEntersFirst(i, q, l);
      }
    }
  }

  lemma {:induction false} LineFits()
    ensures CostsFit(LINE, Te, "a", "c")
  {
    forall u, p | Settles(LINE, Te, "a", "c", u, p)
      ensures SumsFit(LINE, Te, "a", u, Cost(p, Te))
    {
      OnlyWay(p, u);
      assert Cost([], Te) == 0 && Cost([AB], Te) == 10;
      EndIsAvoided(LINE, "a", "c", p, u);
    }
  }

  lemma {:induction false} LineRepeats()
    ensures Repeats(LINE, Te)
  {
    SegmentsOfLine();
    WayToCIsFound();
    LineFits();
    assert RepeatsAt(LINE, [AB, BC], 0);
  }

  lemma {:induction false} LegToC()
    ensures AreLegs(LINE, Te, "a", TO_C, [LEG_TO_C])
  {
    SegmentsOfLine();
    WayToCIsFound();
    assert AreSegmentsOf(LINE, [AB, BC], LEG_TO_C.path);
    assert IsLeg(LINE, Te, "a", TO_C, 0, LEG_TO_C);
  }

  lemma {:induction false} ResultOnLine()
    ensures IsResultOnLine([SHARED, SHARED])
  {
    var legs := [LEG_TO_C];
    LegToC();
    OneLeg(LEG_TO_C);
    assert |legs| == |TO_C| && AreLegs(LINE, Te, "a", TO_C, legs);
  }

  lemma {:induction false} OnlyResultOnLine(list: seq<Segment>)
    requires IsResultOnLine(list)
    ensures list == [SHARED, SHARED]
  {
    var legs: seq<Leg> :| |legs| == |TO_C| && AreLegs(LINE, Te, "a", TO_C, legs) && list == JoinAll(legs);
    OnlyLeg(legs[0]);
    OneLeg(LEG_TO_C);
    assert legs == [LEG_TO_C];
  }

  lemma {:induction false} LineIsClosed()
    ensures LinksClosed(LINE)
  {
    forall id, l | id in LINE && l in LINE[id].links
      ensures l.local == id && l.remote in LINE
    {
      assert l == AB || l == BC;
    }
  }

  /** The results of the query from `a` to `c`. */
  ghost predicate IsResultOnLine(list: seq<Segment>) {
    LooseSpec(LINE, Te, "a", TO_C, Ok(list))
  }

  /** On this line the only result is `[16001, 16001]`, two equal neighbours. */
  lemma {:induction false} SharedLabelIsRepeated()
    ensures LinksClosed(LINE) && Repeats(LINE, Te)
    ensures IsResultOnLine([SHARED, SHARED]) && SegmentsEqual(SHARED, SHARED)
    ensures forall list | IsResultOnLine(list) :: list == [SHARED, SHARED]
  {
    LineIsClosed();
    LineRepeats();
    ResultOnLine();
    forall list | IsResultOnLine(list)
      ensures list == [SHARED, SHARED]
    {
      OnlyResultOnLine(list);
    }
  }

  lemma {:induction false} OneLeg(leg: Leg)
    requires leg == LEG_TO_C
    ensures JoinAll([leg]) == [SHARED, SHARED]
  {
    assert [leg][..0] == [];
    assert RemoveDuplicateFirst([], leg.path) == leg.path;
    assert [] + leg.path == leg.path;
  }

  lemma {:induction false} OnlyLeg(leg: Leg)
    requires IsLeg(LINE, Te, "a", TO_C, 0, leg)
    ensures leg == LEG_TO_C
  {
    SegmentsOfLine();
    var p: seq<LsLink> :| Finds(LINE, Te, "a", "c", p) && AreSegmentsOf(LINE, p, leg.path);
    OnlyWay(p, "c");
    assert leg.path == [SHARED, SHARED];
  }

  // ----- a TED where the repeat is on a shortest path, but not on the one that is returned

  function LinkOf(a: RouterId, b: RouterId, metric: u32): LsLink {
    LsLink(a, b, Invalid, Invalid, [Metric(Te, metric)], 0, None)
  }

  const A_B := LinkOf("a", "b", 2)
  const B_C := LinkOf("b", "c", 1)
  const A_D := LinkOf("a", "d", 1)
  const D_C := LinkOf("d", "c", 2)

  /** Two ways from `a` to `c` that cost the same; `b` and `c` share label 16001, but `d`, which has
      another, is nearer to `a`. */
  const SQUARE: Network :=
    map["a" := Router("a", 0, [A_B, A_D]), "b" := Router("b", 1, [B_C]), "c" := Router("c", 1, []), "d" := Router("d", 2, [D_C])]

  predicate IsWayOnSquare(p: seq<LsLink>, x: RouterId) {
    match x
    case "a" => p == []
    case "b" => p == [A_B]
    case "d" => p == [A_D]
    case "c" => p == [A_B, B_C] || p == [A_D, D_C]
    case _ => false
  }

  lemma {:induction false} WaysOnSquare(p: seq<LsLink>, x: RouterId)
    requires IsWalk(SQUARE, "a", p, x)
    ensures IsWayOnSquare(p, x)
  {
    if p != [] {
      var last := |p| - 1;
      WaysOnSquare(p[..last], p[last].local);
      assert p == p[..last] + [p[last]];
      assert p[last] == A_B || p[last] == A_D || p[last] == B_C || p[last] == D_C;
    }
  }

  lemma {:induction false} WalksOnSquare()
    ensures IsWalk(SQUARE, "a", [A_B, B_C], "c") && Cost([A_B, B_C], Te) == 3 && Cost([A_D, D_C], Te) == 3
    ensures IsWalk(SQUARE, "a", [A_D], "d") && Cost([A_B], Te) == 2 && Cost([A_D], Te) == 1
  {
    assert [A_B, B_C][..1] == [A_B] && [A_D, D_C][..1] == [A_D] && [A_B][..0] == [] && [A_D][..0] == [];
    assert IsWalk(SQUARE, "a", [], "a") && Cost([], Te) == 0;
    assert A_B in SQUARE["a"].links && A_D in SQUARE["a"].links && B_C in SQUARE["b"].links;
    assert IsWalk(SQUARE, "a", [A_B], "b");
  }

  lemma {:induction false} RepeatIsShortest()
    ensures IsShortest(SQUARE, Te, "a", "c", [A_B, B_C])
  {
    WalksOnSquare();
    forall q | IsWalk(SQUARE, "a", q, "c")
      ensures Cost([A_B, B_C], Te) <= Cost(q, Te)
    {
      WaysOnSquare(q, "c");
    }
  }

  /** `d` settles before `b`, so the path over `b` is not found. */
  lemma {:induction false} RepeatIsNotFound()
    ensures !EntersFirst(SQUARE, Te, "a", [A_B, B_C], 1)
  {
    WalksOnSquare();
    assert [A_B, B_C][..2] == [A_B, B_C] && [A_B, B_C][..1] == [A_B];
    assert D_C in SQUARE["d"].links;
    assert EntersToo(SQUARE, Te, "a", [A_B, B_C], 1, [A_D], D_C);
  }

  lemma {:induction false} SegmentsOfSquare()
    ensures NodeSegment(SQUARE["b"]) == Ok(SHARED) && NodeSegment(SQUARE["c"]) == Ok(SHARED) && NodeSegment(SQUARE["d"]) == Ok(NewSegmentSRMPLS(16002))
    ensures !SameSegment(SQUARE, "d", "c")
  {
    RouterSegment("b", 1, [B_C]);
    RouterSegment("c", 1, []);
    RouterSegment("d", 2, [D_C]);
  }

  /** Two links in a row are the two halves of a way from `a` to `c`. */
  lemma {:induction false} TwoLinksOnSquare(src: RouterId, dst: RouterId, p: seq<LsLink>, i: nat)
    requires IsWalk(SQUARE, src, p, dst) && i + 2 <= |p|
    ensures i == 0 && src == "a" && (p[..2] == [A_B, B_C] || p[..2] == [A_D, D_C])
  {
    WalkLink(SQUARE, src, p, dst, i);
    WalkLink(SQUARE, src, p, dst, i + 1);
    assert p[i] == A_B || p[i] == A_D;
    if i > 0 {
      WalkLink(SQUARE, src, p, dst, i - 1);
    }
  }

  lemma {:induction false} SquareDoesNotRepeat(src: RouterId, dst: RouterId, p: seq<LsLink>, i: nat)
    requires IsWalk(SQUARE, src, p, dst) && i + 2 <= |p| && EntersFirst(SQUARE, Te, src, p, i + 1)
    ensures !SameSegment(SQUARE, p[i].remote, p[i + 1].remote)
  {
    TwoLinksOnSquare(src, dst, p, i);
    if p[..2] == [A_B, B_C] {
      PrefixEntersFirst(SQUARE, Te, src, p, 2, 1);
      RepeatIsNotFound();
    } else {
      SegmentsOfSquare();
      assert p[0] == p[..2][0] && p[1] == p[..2][1];
    }
  }

  lemma {:induction false} SquareNeverRepeats()
    ensures !Repeats(SQUARE, Te)
  {
    forall src, dst, p, i: nat | Finds(SQUARE, Te, src, dst, p)
      ensures !RepeatsAt(SQUARE, p, i)
    {
      if i + 2 <= |p| {
        SquareDoesNotRepeat(src, dst, p, i);
      }
    }
  }

  /** Over this TED loose routing always returns the collapse of its legs, although a shortest path
      repeats a segment: which of the shortest paths is found decides. */
  lemma {:induction false} NearerWayWinsTheTie()
    ensures IsShortest(SQUARE, Te, "a", "c", [A_B, B_C]) && SameSegment(SQUARE, "b", "c") && MayRepeat(SQUARE, Te)
    ensures !Repeats(SQUARE, Te) && AlwaysCollapses(SQUARE, Te)
  {
    RepeatIsShortest();
    SegmentsOfSquare();
    assert MayRepeatOnTheWay(SQUARE, Te, A_B, B_C);
    SquareNeverRepeats();
    LooseRoutingCollapsesExactlyWhen(SQUARE, Te);
  }
}
