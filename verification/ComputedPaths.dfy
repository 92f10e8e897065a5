/** Dynamic paths skip the SID check against the TED; these are the conditions under which that
    check would have found nothing, and under which a computed path reaches the PCC unchanged
    (pkg/server/grpc_server.go, pkg/table/sid_validate.go, pkg/packet/pcep/object.go). */
module ComputedPaths {
  import opened Bytes
  import opened LooseRouting
  import opened Netip
  import opened Segments
  import opened SidIndex
  import opened Ted
  import opened Walks
  import opened Wrappers
  import EroRoundTrip

  function AllPresent(segs: seq<Segment>): (r: seq<Option<Segment>>)
    ensures |r| == |segs| && forall i | 0 <= i < |segs| :: r[i] == Some(segs[i])
  {
    seq(|segs|, i requires 0 <= i < |segs| => Some(segs[i]))
  }

  ghost predicate AllKnown(net: Network, segs: seq<Segment>) {
    forall s | s in segs :: Known(net, s)
  }

  lemma KnownMeansNoneMissing(net: Network, segs: seq<Segment>)
    requires AllKnown(net, segs)
    ensures MissingOf(net, AllPresent(segs)) == []
  {
    NothingMissing(net, AllPresent(segs));
    forall s | s in AllPresent(segs) ensures !IsMissing(net, s) {
      var i :| 0 <= i < |segs| && s == AllPresent(segs)[i];
      assert segs[i] in segs;
    }
  }

  /** Every router that has a segment has one in range. */
  ghost predicate SidsInRange(net: Network) {
    forall id | id in net && NodeSegment(net[id]).Ok? :: NodeSidInRange(net[id])
  }

  /** The check that is skipped finds nothing on a path exactly when the SID of every router the
      path enters is indexed. */
  lemma {:induction false} PathIsKnownExactlyWhen(net: Network, p: seq<LsLink>, segs: seq<Segment>)
    requires AreSegmentsOf(net, p, segs)
    ensures MissingOf(net, AllPresent(segs)) == [] <==> forall i | 0 <= i < |p| :: SidIsIndexed(net, p[i].remote)
  {
    NothingMissing(net, AllPresent(segs));
    forall i | 0 <= i < |p|
      ensures AllPresent(segs)[i] in AllPresent(segs)
      ensures IsMissing(net, AllPresent(segs)[i]) <==> !SidIsIndexed(net, p[i].remote)
    {
      NodeSegmentIsKnownExactlyWhen(net, p[i].remote);
    }
  }

  lemma {:induction false} ShortestSegmentsAreKnown(net: Network, t: MetricType, src: RouterId, dst: RouterId, segs: seq<Segment>)
    requires ShortestSegments(net, t, src, dst, segs) && SidsInRange(net)
    ensures AllKnown(net, segs)
  {
    var p: seq<LsLink> :| IsShortest(net, t, src, dst, p) && AreSegmentsOf(net, p, segs);
    forall s | s in segs ensures Known(net, s) {
      var i :| 0 <= i < |segs| && s == segs[i];
      NodeSegmentIsKnown(net, p[i].remote);
    }
  }

  /** With every SID in range, `MissingSegments` is empty on whatever `CSPF` returns. */
  lemma {:induction false} ComputedPathPassesValidation(net: Network, t: MetricType, src: RouterId, dst: RouterId,
                                                        r: Result<seq<Segment>, SpfError>)
    requires SpfSpec(net, t, src, dst, r) && r.Ok? && SidsInRange(net)
    ensures MissingOf(net, AllPresent(r.value)) == []
  {
    FoundIsShortest(net, t, src, dst, r.value);
    ShortestSegmentsAreKnown(net, t, src, dst, r.value);
    KnownMeansNoneMissing(net, r.value);
  }

  // ----- a path that the check would refuse

  const IN_RANGE := LsNode(1, "a", NodeAttrs("", "", 16000, 24000), [A_TO_B], [LsPrefix(IpPrefix(Invalid, 0), 1, true)], [])
  const NO_SRGB := LsNode(1, "b", NO_ATTRS, [], [LsPrefix(IpPrefix(Invalid, 0), 3, true)], [])
  const A_TO_B := LsLink("a", "b", Invalid, Invalid, [Metric(Te, 10)], 0, None)

  /** One link, towards a router that has a Prefix-SID index but no SRGB. */
  const TWO_ROUTERS: Network := map["a" := IN_RANGE, "b" := NO_SRGB]

  lemma {:induction false} WayToB()
    ensures IsShortest(TWO_ROUTERS, Te, "a", "b", [A_TO_B])
  {
    assert A_TO_B in TWO_ROUTERS["a"].links;
    assert [A_TO_B][..0] == [];
    assert IsWalk(TWO_ROUTERS, "a", [], "a");
    assert Cost([], Te) == 0;
    assert Cost([A_TO_B], Te) == 10;
    forall q | IsWalk(TWO_ROUTERS, "a", q, "b") ensures 10 <= Cost(q, Te) {
      assert q != [] && q[|q| - 1] == A_TO_B;
    }
  }

  lemma {:induction false} NoWayBack(q: seq<LsLink>)
    requires IsWalk(TWO_ROUTERS, "a", q, "a")
    ensures q == []
  {
  }

  lemma {:induction false} OnlyWayToB(q: seq<LsLink>)
    requires IsWalk(TWO_ROUTERS, "a", q, "b")
    ensures q == [A_TO_B]
  {
    assert q[|q| - 1] == A_TO_B;
    NoWayBack(q[..|q| - 1]);
    assert q == q[..|q| - 1] + [A_TO_B];
  }

  lemma {:induction false} SegmentOfB()
    ensures NodeSegment(NO_SRGB) == Ok(NewSegmentSRMPLS(3))
    ensures !SidIsIndexed(TWO_ROUTERS, "b")
  {
    assert FirstPrefixSid(NO_SRGB.prefixes) == Some(NO_SRGB.prefixes[0]);
    assert FirstPrefixSid(IN_RANGE.prefixes) == Some(IN_RANGE.prefixes[0]);
    assert TWO_ROUTERS.Keys == {"a", "b"};
  }

  lemma {:induction false} NoWayNearer(q: seq<LsLink>, u: RouterId)
    requires IsWalk(TWO_ROUTERS, "a", q, u) && Cost(q, Te) < 10
    ensures u == "a"
  {
  }

  lemma {:induction false} WayToBIsFound()
    ensures Finds(TWO_ROUTERS, Te, "a", "b", [A_TO_B])
  {
    WayToB();
    SegmentOfB();
    assert FirstPrefixSid(IN_RANGE.prefixes) == Some(IN_RANGE.prefixes[0]);
    assert Expandable(TWO_ROUTERS, Te, "a");
    forall q, u | IsWalk(TWO_ROUTERS, "a", q, u) && Cost(q, Te) < Cost([A_TO_B], Te)
      ensures u == "a"
    {
      NoWayNearer(q, u);
    }
    assert [A_TO_B][..0] == [];
  }

  /** `CSPF` returns a path that the skipped check would have refused: label 3 of `b` is emitted,
      but without an SRGB it is not indexed. */
  lemma {:induction false} EmittedButNotIndexed()
    ensures LinksClosed(TWO_ROUTERS)
    ensures forall segs | ShortestSegments(TWO_ROUTERS, Te, "a", "b", segs) :: segs == [NewSegmentSRMPLS(3)]
    ensures SpfSpec(TWO_ROUTERS, Te, "a", "b", Ok([NewSegmentSRMPLS(3)]))
    ensures MissingOf(TWO_ROUTERS, AllPresent([NewSegmentSRMPLS(3)])) != []
  {
    var p := [A_TO_B];
    WayToBIsFound();
    SegmentOfB();
    assert AreSegmentsOf(TWO_ROUTERS, p, [NewSegmentSRMPLS(3)]);
    PathIsKnownExactlyWhen(TWO_ROUTERS, p, [NewSegmentSRMPLS(3)]);
    assert !SidIsIndexed(TWO_ROUTERS, p[0].remote);
    forall segs | ShortestSegments(TWO_ROUTERS, Te, "a", "b", segs)
      ensures segs == [NewSegmentSRMPLS(3)]
    {
      var q: seq<LsLink> :| IsShortest(TWO_ROUTERS, Te, "a", "b", q) && AreSegmentsOf(TWO_ROUTERS, q, segs);
      OnlyWayToB(q);
    }
  }

  // ----- loose paths

  /** A waypoint that brings a SID of its own is known to the TED with it. */
  ghost predicate WaypointsKnown(net: Network, wps: seq<Waypoint>) {
    forall wp | wp in wps && wp.sid.Some? && wp.routerId in net && WaypointSegment(net[wp.routerId], wp.sid).Ok? ::
      Known(net, WaypointSegment(net[wp.routerId], wp.sid).value)
  }

  lemma {:induction false} LegIsKnown(net: Network, t: MetricType, src: RouterId, wps: seq<Waypoint>, i: nat, leg: Leg)
    requires i < |wps| && IsLeg(net, t, src, wps, i, leg) && SidsInRange(net) && WaypointsKnown(net, wps)
    ensures AllKnown(net, leg.path) && Known(net, leg.waypoint)
  {
    var wp := wps[i];
    FoundIsShortest(net, t, LegSource(src, wps, i), wp.routerId, leg.path);
    ShortestSegmentsAreKnown(net, t, LegSource(src, wps, i), wp.routerId, leg.path);
    assert wp in wps;
    if wp.sid.None? {
      NodeSegmentIsKnown(net, wp.routerId);
    }
  }

  /** Joining adds nothing that is not in the leg. */
  lemma {:induction false} JoinKeepsKnown(net: Network, full: seq<Segment>, leg: Leg)
    requires AllKnown(net, full) && AllKnown(net, leg.path) && Known(net, leg.waypoint)
    ensures AllKnown(net, Join(full, leg))
  {
    forall s | s in Join(full, leg) ensures Known(net, s) {
      assert s in full || s in leg.path || s == leg.waypoint;
    }
  }

  lemma {:induction false} JoinedAreKnown(net: Network, t: MetricType, src: RouterId, wps: seq<Waypoint>, legs: seq<Leg>)
    requires AreLegs(net, t, src, wps, legs) && SidsInRange(net) && WaypointsKnown(net, wps)
    ensures AllKnown(net, JoinAll(legs))
  {
    if legs != [] {
      var last := |legs| - 1;
      JoinedAreKnown(net, t, src, wps, legs[..last]);
      LegIsKnown(net, t, src, wps, last, legs[last]);
      JoinKeepsKnown(net, JoinAll(legs[..last]), legs[last]);
    }
  }

  /** The same for loose routing, if waypoints that bring a SID of their own bring a known one. */
  lemma {:induction false} LoosePathPassesValidation(net: Network, t: MetricType, src: RouterId, wps: seq<Waypoint>,
                                                     r: Result<seq<Segment>, LooseError>)
    requires LooseSpec(net, t, src, wps, r) && r.Ok? && SidsInRange(net) && WaypointsKnown(net, wps)
    ensures MissingOf(net, AllPresent(r.value)) == []
  {
    var legs: seq<Leg> :| |legs| == |wps| && AreLegs(net, t, src, wps, legs) && r.value == JoinAll(legs);
    JoinedAreKnown(net, t, src, wps, legs);
    KnownMeansNoneMissing(net, r.value);
  }

  // ----- on the wire

  /** The label, a 32-bit sum, is one of 20 bits, or the first SID is an IPv6 address. */
  predicate NodeSidFits(n: LsNode) {
    match FirstPrefixSid(n.prefixes)
    case Some(p) => ToU32(n.attrs.srgbBegin + p.sidIndex) < 0x10_0000
    case None =>
      match FirstSrv6Sid(n.sids)
      case None => false
      case Some(s) => s.sids[0].Text6?
  }

  /** What a node contributes to a path can always be sent, and loses nothing exactly when it fits. */
  lemma {:induction false} NodeSegmentIsKeptExactlyWhen(n: LsNode)
    requires NodeSegment(n).Ok?
    ensures EroRoundTrip.Sendable(NodeSegment(n).value)
    ensures EroRoundTrip.Kept(NodeSegment(n).value) <==> NodeSidFits(n)
  {
  }

  /** A path sent as an explicit route is read back unchanged exactly when the SID of every router
      it enters fits. */
  lemma {:induction false} PathSurvivesTheWireExactlyWhen(net: Network, p: seq<LsLink>, segs: seq<Segment>)
    requires AreSegmentsOf(net, p, segs)
    ensures EroRoundTrip.Encode(segs).Some?
    ensures EroRoundTrip.Decode(EroRoundTrip.Encode(segs).value) == Some(segs) <==> forall i | 0 <= i < |p| :: NodeSidFits(net[p[i].remote])
  {
    forall i | 0 <= i < |p|
      ensures segs[i] in segs && EroRoundTrip.Sendable(segs[i])
      ensures EroRoundTrip.Kept(segs[i]) <==> NodeSidFits(net[p[i].remote])
    {
      NodeSegmentIsKeptExactlyWhen(net[p[i].remote]);
    }
    assert forall s | s in segs :: exists i | 0 <= i < |segs| :: s == segs[i];
    EroRoundTrip.EncodesExactlyWhenSendable(segs);
    EroRoundTrip.SurvivesExactlyWhenKept(segs);
  }

  /** With every node SID that is used fitting, whatever `CSPF` returns survives being sent. */
  lemma {:induction false} ComputedPathSurvivesTheWire(net: Network, t: MetricType, src: RouterId, dst: RouterId,
                                                       r: Result<seq<Segment>, SpfError>)
    requires SpfSpec(net, t, src, dst, r) && r.Ok?
    requires forall id | id in net && NodeSegment(net[id]).Ok? :: NodeSidFits(net[id])
    ensures EroRoundTrip.Encode(r.value).Some?
    ensures EroRoundTrip.Decode(EroRoundTrip.Encode(r.value).value) == Some(r.value)
  {
    var p: seq<LsLink> :| Finds(net, t, src, dst, p) && AreSegmentsOf(net, p, r.value);
    PathSurvivesTheWireExactlyWhen(net, p, r.value);
  }
}
