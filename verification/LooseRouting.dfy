/** Paths through waypoints: one shortest path per leg, each followed by the segment of its
    waypoint, with repeated neighbours joined (pkg/cspf/cspf.go). */
module LooseRouting {
  import opened Bytes
  import opened Cspf
  import opened Netip
  import opened Segments
  import opened Ted
  import opened Walks
  import opened Wrappers

  /** A waypoint may name the SID to use; without one the TED is asked. */
  datatype Waypoint = Waypoint(routerId: RouterId, sid: Option<SidText>)

  datatype LooseError =
    | LegFailed(error: SpfError)
    | WaypointNotInTed
    | InvalidExplicitSid
    | NoWaypointSegment(sidError: SidError)

  /** `buildWaypointSegment`. */
  function WaypointSegment(node: LsNode, explicitSid: Option<SidText>): Result<Segment, LooseError> {
    match explicitSid
    case Some(text) =>
      (match ParseAddr(text)
       case None => Err(InvalidExplicitSid)
       case Some(addr) => Lift(SegmentWithNodeInfo(addr, node)))
    case None => Lift(NodeSegment(node))
  }

  function Lift(r: Result<Segment, SidError>): Result<Segment, LooseError> {
    match r
    case Ok(seg) => Ok(seg)
    case Err(e) => Err(NoWaypointSegment(e))
  }

  function RemoveDuplicateFirst(full: seq<Segment>, section: seq<Segment>): seq<Segment> {
    if |full| > 0 && |section| > 0 && SegmentsEqual(full[|full| - 1], section[0]) then section[1..] else section
  }

  function AppendIfNotDuplicate(list: seq<Segment>, seg: Segment): seq<Segment> {
    if |list| == 0 || !SegmentsEqual(list[|list| - 1], seg) then list + [seg] else list
  }

  // ----- legs, and how they are joined

  /** A shortest path and the waypoint segment that follows it. */
  datatype Leg = Leg(path: seq<Segment>, waypoint: Segment)

  /** Where leg `i` starts. */
  function LegSource(src: RouterId, wps: seq<Waypoint>, i: nat): RouterId
    requires i <= |wps|
  {
    if i == 0 then src else wps[i - 1].routerId
  }

  ghost predicate IsLeg(ted: Network, t: MetricType, src: RouterId, wps: seq<Waypoint>, i: nat, leg: Leg)
    requires i < |wps|
  {
    && FoundSegments(ted, t, LegSource(src, wps, i), wps[i].routerId, leg.path)
    && wps[i].routerId in ted && WaypointSegment(ted[wps[i].routerId], wps[i].sid) == Ok(leg.waypoint)
  }

  ghost predicate AreLegs(ted: Network, t: MetricType, src: RouterId, wps: seq<Waypoint>, legs: seq<Leg>) {
    |legs| <= |wps| && forall i | 0 <= i < |legs| :: IsLeg(ted, t, src, wps, i, legs[i])
  }

  /** The costs of every leg fit 32 bits. */
  ghost predicate LegsFit(ted: Network, t: MetricType, src: RouterId, wps: seq<Waypoint>) {
    forall i | 0 <= i < |wps| :: CostsFit(ted, t, LegSource(src, wps, i), wps[i].routerId)
  }

  function Join(full: seq<Segment>, leg: Leg): seq<Segment> {
    AppendIfNotDuplicate(full + RemoveDuplicateFirst(full, leg.path), leg.waypoint)
  }

  function JoinAll(legs: seq<Leg>): seq<Segment> {
    if legs == [] then [] else Join(JoinAll(legs[..|legs| - 1]), legs[|legs| - 1])
  }

  /** What the caller may conclude: the joined legs, or the first leg that could not be built. */
  ghost predicate LooseSpec(ted: Network, t: MetricType, src: RouterId, wps: seq<Waypoint>,
                            r: Result<seq<Segment>, LooseError>) {
    match r
    case Ok(list) => exists legs :: |legs| == |wps| && AreLegs(ted, t, src, wps, legs) && list == JoinAll(legs)
    case Err(e) => exists legs :: |legs| < |wps| && AreLegs(ted, t, src, wps, legs) && LegError(ted, t, src, wps, |legs|, e)
  }

  ghost predicate LegError(ted: Network, t: MetricType, src: RouterId, wps: seq<Waypoint>, i: nat, e: LooseError)
    requires i < |wps|
  {
    var wp := wps[i];
    match e
    case LegFailed(err) => SpfSpec(ted, t, LegSource(src, wps, i), wp.routerId, Err(err))
    case _ => wp.routerId in ted && WaypointSegment(ted[wp.routerId], wp.sid) == Err(e)
  }

  /** `buildSectionSegments`. */
  method BuildSectionSegments(prev: RouterId, wp: Waypoint, t: MetricType, ted: Network, fullList: seq<Segment>)
      returns (r: Result<Leg, LooseError>)
    requires LinksClosed(ted) && prev in ted && "" !in ted && CostsFit(ted, t, prev, wp.routerId)
    ensures match r
            case Ok(Leg(section, seg)) =>
              && wp.routerId in ted && WaypointSegment(ted[wp.routerId], wp.sid) == Ok(seg)
              && exists path :: FoundSegments(ted, t, prev, wp.routerId, path) && section == RemoveDuplicateFirst(fullList, path)
            case Err(LegFailed(e)) => SpfSpec(ted, t, prev, wp.routerId, Err(e))
            case Err(e) => wp.routerId in ted && WaypointSegment(ted[wp.routerId], wp.sid) == Err(e)
  {
    var path := CSPF(prev, wp.routerId, t, ted);
    if path.Err? {
      return Err(LegFailed(path.error));
    }
    var section := RemoveDuplicateFirst(fullList, path.value);
    ReachedNodesAreKnown(ted, t, prev, wp.routerId, path.value);
    if wp.routerId !in ted {
      return Err(WaypointNotInTed);
    }
    var seg := WaypointSegment(ted[wp.routerId], wp.sid);
    if seg.Err? {
      return Err(seg.error);
    }
    return Ok(Leg(section, seg.value));
  }

  lemma ReachedNodesAreKnown(ted: Network, t: MetricType, src: RouterId, dst: RouterId, segs: seq<Segment>)
    requires LinksClosed(ted) && src in ted && FoundSegments(ted, t, src, dst, segs)
    ensures dst in ted && (src != dst ==> |segs| > 0 && NodeSegment(ted[dst]) == Ok(segs[|segs| - 1]))
  {
    var p: seq<LsLink> :| Finds(ted, t, src, dst, p) && AreSegmentsOf(ted, p, segs);
    assert IsWalk(ted, src, p, dst);
    if p != [] {
      assert p[|p| - 1].remote == dst;
    }
  }

  lemma {:induction false} ExtendLegs(ted: Network, t: MetricType, src: RouterId, wps: seq<Waypoint>, legs: seq<Leg>, leg: Leg)
    requires AreLegs(ted, t, src, wps, legs) && |legs| < |wps| && IsLeg(ted, t, src, wps, |legs|, leg)
    ensures AreLegs(ted, t, src, wps, legs + [leg]) && JoinAll(legs + [leg]) == Join(JoinAll(legs), leg)
  {
    var legs' := legs + [leg];
    assert legs'[..|legs|] == legs;
    forall i | 0 <= i < |legs'| ensures IsLeg(ted, t, src, wps, i, legs'[i]) {
      if i < |legs| {
        assert legs'[i] == legs[i];
      }
    }
  }

  /** `CSPFWithLooseSourceRouting`. */
  method CSPFWithLooseSourceRouting(src: RouterId, dst: RouterId, waypoints: seq<Waypoint>, t: MetricType, ted: Network)
      returns (r: Result<seq<Segment>, LooseError>)
    requires LinksClosed(ted) && src in ted && "" !in ted && LegsFit(ted, t, src, waypoints + [Waypoint(dst, None)])
    ensures LooseSpec(ted, t, src, waypoints + [Waypoint(dst, None)], r)
  {
    var fullList: seq<Segment> := [];
    var prev := src;
    var allWaypoints := waypoints + [Waypoint(dst, None)];
    ghost var legs: seq<Leg> := [];
    for i := 0 to |allWaypoints|
      invariant prev == LegSource(src, allWaypoints, i) && prev in ted
      invariant |legs| == i && AreLegs(ted, t, src, allWaypoints, legs)
      invariant fullList == JoinAll(legs)
    {
      var wp := allWaypoints[i];
      var leg := BuildSectionSegments(prev, wp, t, ted, fullList);
      if leg.Err? {
        assert LegError(ted, t, src, allWaypoints, |legs|, leg.error);
        return Err(leg.error);
      }
      ghost var path :| FoundSegments(ted, t, prev, wp.routerId, path) && leg.value.path == RemoveDuplicateFirst(fullList, path);
      ExtendLegs(ted, t, src, allWaypoints, legs, Leg(path, leg.value.waypoint));
      legs := legs + [Leg(path, leg.value.waypoint)];
      fullList := fullList + leg.value.path;
      fullList := AppendIfNotDuplicate(fullList, leg.value.waypoint);
      prev := wp.routerId;
    }
    return Ok(fullList);
  }

  // ----- what joining legs amounts to

  function Flatten(legs: seq<Leg>): seq<Segment> {
    if legs == [] then [] else Flatten(legs[..|legs| - 1]) + legs[|legs| - 1].path + [legs[|legs| - 1].waypoint]
  }

  /** The first of each run of equal neighbours. */
  function Collapse(segs: seq<Segment>): seq<Segment> {
    if segs == [] then [] else AppendIfNotDuplicate(Collapse(segs[..|segs| - 1]), segs[|segs| - 1])
  }

  ghost predicate NeighboursDiffer(segs: seq<Segment>) {
    forall i, j | 0 <= i < j < |segs| && j == i + 1 :: !SegmentsEqual(segs[i], segs[j])
  }

  lemma SegmentsEqualIsEquivalence(a: Segment, b: Segment, c: Segment)
    ensures SegmentsEqual(a, a)
    ensures SegmentsEqual(a, b) ==> SegmentsEqual(b, a)
    ensures SegmentsEqual(a, b) && SegmentsEqual(b, c) ==> SegmentsEqual(a, c)
  {
  }

  lemma AppendKeepsDiffering(list: seq<Segment>, seg: Segment)
    requires NeighboursDiffer(list)
    ensures NeighboursDiffer(AppendIfNotDuplicate(list, seg))
  {
  }

  /** Collapsing leaves no equal neighbours and ends with a segment equal to the last one. */
  lemma {:induction false} CollapseNormalises(segs: seq<Segment>)
    ensures NeighboursDiffer(Collapse(segs))
    ensures segs != [] ==> Collapse(segs) != [] && SegmentsEqual(Collapse(segs)[|Collapse(segs)| - 1], segs[|segs| - 1])
  {
    if segs != [] {
      var init, last := segs[..|segs| - 1], segs[|segs| - 1];
      CollapseNormalises(init);
      AppendKeepsDiffering(Collapse(init), last);
      SegmentsEqualIsEquivalence(last, last, last);
    }
  }

  /** Collapsing changes nothing exactly when there is nothing to collapse. */
  lemma {:induction false} CollapseFixes(segs: seq<Segment>)
    ensures Collapse(segs) == segs <==> NeighboursDiffer(segs)
  {
    CollapseNormalises(segs);
    if segs != [] && NeighboursDiffer(segs) {
      var init := segs[..|segs| - 1];
      CollapseFixes(init);
      assert NeighboursDiffer(init);
      assert segs == init + [segs[|segs| - 1]];
    }
  }

  function CollapseOnto(full: seq<Segment>, segs: seq<Segment>): seq<Segment> {
    if segs == [] then full else AppendIfNotDuplicate(CollapseOnto(full, segs[..|segs| - 1]), segs[|segs| - 1])
  }

  lemma {:induction false} CollapseConcat(xs: seq<Segment>, ys: seq<Segment>)
    ensures Collapse(xs + ys) == CollapseOnto(Collapse(xs), ys)
  {
    if ys == [] {
      assert xs + ys == xs;
    } else {
      assert (xs + ys)[..|xs + ys| - 1] == xs + ys[..|ys| - 1];
      CollapseConcat(xs, ys[..|ys| - 1]);
    }
  }

  /** A segment that differs from `a` differs from everything equal to `a`. */
  lemma DiffersFromEqual(a: Segment, b: Segment, c: Segment)
    requires SegmentsEqual(b, a) && !SegmentsEqual(a, c)
    ensures !SegmentsEqual(b, c)
  {
    SegmentsEqualIsEquivalence(b, a, c);
    SegmentsEqualIsEquivalence(a, b, c);
  }

  lemma RemoveFirstSnoc(full: seq<Segment>, init: seq<Segment>, last: Segment)
    requires init != []
    ensures RemoveDuplicateFirst(full, init + [last]) == RemoveDuplicateFirst(full, init) + [last]
  {
    assert (init + [last])[1..] == init[1..] + [last];
  }

  /** What is claimed of collapsing `path` behind `full`. */
  predicate IsRemoveFirst(full: seq<Segment>, path: seq<Segment>, list: seq<Segment>) {
    && list == full + RemoveDuplicateFirst(full, path)
    && (path != [] ==> list != [] && SegmentsEqual(list[|list| - 1], path[|path| - 1]))
  }

  lemma {:induction false} OneMoreIsRemoveFirst(full: seq<Segment>, init: seq<Segment>, last: Segment, list: seq<Segment>)
    requires init != [] && IsRemoveFirst(full, init, list) && !SegmentsEqual(init[|init| - 1], last)
    ensures IsRemoveFirst(full, init + [last], AppendIfNotDuplicate(list, last))
  {
    DiffersFromEqual(init[|init| - 1], list[|list| - 1], last);
    SegmentsEqualIsEquivalence(last, last, last);
    RemoveFirstSnoc(full, init, last);
  }

  lemma {:induction false} FirstIsRemoveFirst(full: seq<Segment>, seg: Segment)
    ensures IsRemoveFirst(full, [seg], AppendIfNotDuplicate(full, seg))
  {
    SegmentsEqualIsEquivalence(seg, seg, seg);
  }

  lemma {:induction false} OntoIsRemoveFirst(full: seq<Segment>, path: seq<Segment>)
    requires NeighboursDiffer(path)
    ensures IsRemoveFirst(full, path, CollapseOnto(full, path))
    decreases |path|
  {
    if path != [] {
      var init, last := path[..|path| - 1], path[|path| - 1];
      assert path == init + [last];
      if init == [] {
        FirstIsRemoveFirst(full, last);
      } else {
        OntoIsRemoveFirst(full, init);
        OneMoreIsRemoveFirst(full, init, last, CollapseOnto(full, init));
      }
    }
  }

  lemma {:induction false} JoinedIsCollapsed(legs: seq<Leg>)
    requires forall leg | leg in legs :: NeighboursDiffer(leg.path)
    ensures JoinAll(legs) == Collapse(Flatten(legs))
  {
    if legs != [] {
      var init, leg := legs[..|legs| - 1], legs[|legs| - 1];
      JoinedIsCollapsed(init);
      CollapseConcat(Flatten(init), leg.path);
      OntoIsRemoveFirst(JoinAll(init), leg.path);
      assert Flatten(legs)[..|Flatten(legs)| - 1] == Flatten(init) + leg.path;
    }
  }

  lemma JoinKeepsRepeats(full: seq<Segment>, leg: Leg)
    requires NeighboursDiffer(Join(full, leg))
    ensures NeighboursDiffer(full) && NeighboursDiffer(leg.path)
  {
    var rest := RemoveDuplicateFirst(full, leg.path);
    var joined := Join(full, leg);
    assert full + rest <= joined;
    assert forall i | 0 <= i < |full| :: joined[i] == full[i];
    assert forall i | 0 <= i < |rest| :: joined[|full| + i] == rest[i];
    forall i, j | 0 <= i < j < |leg.path| && j == i + 1 ensures !SegmentsEqual(leg.path[i], leg.path[j]) {
      if |rest| == |leg.path| {
        assert !SegmentsEqual(joined[|full| + i], joined[|full| + i + 1]);
      } else if i > 0 {
        assert !SegmentsEqual(joined[|full| + i - 1], joined[|full| + i]);
      } else {
        assert !SegmentsEqual(joined[|full| - 1], joined[|full|]);
        SegmentsEqualIsEquivalence(full[|full| - 1], leg.path[0], leg.path[1]);
      }
    }
  }

  lemma {:induction false} JoinedKeepsRepeats(legs: seq<Leg>)
    requires NeighboursDiffer(JoinAll(legs))
    ensures forall leg | leg in legs :: NeighboursDiffer(leg.path)
  {
    if legs != [] {
      var init, leg := legs[..|legs| - 1], legs[|legs| - 1];
      JoinKeepsRepeats(JoinAll(init), leg);
      JoinedKeepsRepeats(init);
      assert forall l :: l in legs <==> l in init || l == leg;
    }
  }

  /** Loose routing returns the collapse of its legs exactly when no leg's own path has two equal
      neighbours (two adjacent routers with the same SID): only the seams are looked at. */
  lemma {:induction false} JoinedIsCollapsedExactlyWhen(legs: seq<Leg>)
    ensures JoinAll(legs) == Collapse(Flatten(legs)) <==> forall leg | leg in legs :: NeighboursDiffer(leg.path)
  {
    if forall leg | leg in legs :: NeighboursDiffer(leg.path) {
      JoinedIsCollapsed(legs);
    } else if JoinAll(legs) == Collapse(Flatten(legs)) {
      CollapseNormalises(Flatten(legs));
      JoinedKeepsRepeats(legs);
    }
  }

  /** One leg to another router ends with the waypoint's segment, which is not repeated. */
  lemma {:induction false} OneLegIsItsPath(ted: Network, t: MetricType, src: RouterId, dst: RouterId, leg: Leg)
    requires LinksClosed(ted) && src in ted && src != dst && IsLeg(ted, t, src, [Waypoint(dst, None)], 0, leg)
    ensures JoinAll([leg]) == leg.path
  {
    ReachedNodesAreKnown(ted, t, src, dst, leg.path);
    SegmentsEqualIsEquivalence(leg.waypoint, leg.waypoint, leg.waypoint);
    assert [leg][..0] == [] && JoinAll([leg]) == Join([], leg);
    assert [] + RemoveDuplicateFirst([], leg.path) == leg.path;
  }

  lemma {:induction false} PlainResult(ted: Network, t: MetricType, src: RouterId, dst: RouterId, list: seq<Segment>)
    requires LinksClosed(ted) && src in ted && src != dst && LooseSpec(ted, t, src, [Waypoint(dst, None)], Ok(list))
    ensures FoundSegments(ted, t, src, dst, list)
  {
    var legs: seq<Leg> :| |legs| == 1 && AreLegs(ted, t, src, [Waypoint(dst, None)], legs) && list == JoinAll(legs);
    assert IsLeg(ted, t, src, [Waypoint(dst, None)], 0, legs[0]);
    OneLegIsItsPath(ted, t, src, dst, legs[0]);
    assert legs == [legs[0]];
  }

  lemma {:induction false} PlainError(ted: Network, t: MetricType, src: RouterId, dst: RouterId, e: LooseError)
    requires LooseSpec(ted, t, src, [Waypoint(dst, None)], Err(e))
    ensures LegError(ted, t, src, [Waypoint(dst, None)], 0, e)
  {
  }

  /** Without waypoints, and towards another router, loose routing is plain path computation. */
  lemma {:induction false} NoWaypointsIsPlain(ted: Network, t: MetricType, src: RouterId, dst: RouterId, r: Result<seq<Segment>, LooseError>)
    requires LinksClosed(ted) && src in ted && src != dst
    requires LooseSpec(ted, t, src, [Waypoint(dst, None)], r)
    ensures match r
            case Ok(list) => FoundSegments(ted, t, src, dst, list)
            case Err(LegFailed(e)) => SpfSpec(ted, t, src, dst, Err(e))
            case Err(e) => dst in ted && NodeSegment(ted[dst]).Err?
  {
    if r.Ok? { PlainResult(ted, t, src, dst, r.value); } else { PlainError(ted, t, src, dst, r.error); }
  }
}
