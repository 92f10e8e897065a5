/** What a loose route contains, segment by segment: what joining the legs leaves out, and that every
    waypoint is visited with the SID that was asked for (pkg/cspf/cspf.go). */
module LooseResults {
  import opened Bytes
  import opened LooseRouting
  import opened Netip
  import opened NodeSegments
  import opened Segments
  import opened Ted
  import opened Walks
  import opened Wrappers

  /** A segment of a leg, and whether it stands where legs are joined: first on a path, or the
      waypoint's own. */
  datatype Item = Item(seg: Segment, seam: bool)

  function PathItems(path: seq<Segment>): (items: seq<Item>)
    ensures |items| == |path| && forall i | 0 <= i < |path| :: items[i] == Item(path[i], i == 0)
  {
    seq(|path|, i requires 0 <= i < |path| => Item(path[i], i == 0))
  }

  /** All segments of all legs. */
  function Items(legs: seq<Leg>): seq<Item> {
    if legs == [] then []
    else
      var leg := legs[|legs| - 1];
      Items(legs[..|legs| - 1]) + PathItems(leg.path) + [Item(leg.waypoint, true)]
  }

  /** Left out are those at a seam that are the same hop as the one directly before. */
  function Kept(items: seq<Item>): seq<Segment> {
    if items == [] then []
    else
      var init, last := items[..|items| - 1], items[|items| - 1];
      Kept(init) + if last.seam && init != [] && SameHop(init[|init| - 1].seg, last.seg) then [] else [last.seg]
  }

  lemma {:induction false} KeptSnoc(init: seq<Item>, last: Item)
    ensures Kept(init + [last]) ==
            Kept(init) + if last.seam && init != [] && SameHop(init[|init| - 1].seg, last.seg) then [] else [last.seg]
  {
    assert (init + [last])[..|init + [last]| - 1] == init;
  }

  /** The last hop is always there. */
  lemma {:induction false} LastIsKept(items: seq<Item>)
    ensures Kept(items) == [] <==> items == []
    ensures items != [] ==> SameHop(Kept(items)[|Kept(items)| - 1], items[|items| - 1].seg)
  {
    if items != [] {
      LastIsKept(items[..|items| - 1]);
    }
  }

  lemma {:induction false} SameAsLast(items: seq<Item>, seg: Segment)
    requires items != []
    ensures Kept(items) != []
    ensures SegmentsEqual(Kept(items)[|Kept(items)| - 1], seg) <==> SameHop(items[|items| - 1].seg, seg)
  {
    LastIsKept(items);
    EqualSegmentsAreOneHop(Kept(items)[|Kept(items)| - 1], seg);
  }

  lemma {:induction false} PathIsKept(items: seq<Item>, path: seq<Segment>)
    ensures Kept(items + PathItems(path)) == Kept(items) + RemoveDuplicateFirst(Kept(items), path)
    decreases |path|
  {
    if path == [] {
      assert items + PathItems(path) == items;
      assert Kept(items) + [] == Kept(items);
    } else {
      var init, last := path[..|path| - 1], path[|path| - 1];
      PathIsKept(items, init);
      assert items + PathItems(path) == items + PathItems(init) + [Item(last, init == [])];
      KeptSnoc(items + PathItems(init), Item(last, init == []));
      assert path == init + [last];
      if init == [] {
        assert items + PathItems(init) == items;
        if items != [] { SameAsLast(items, last); }
      } else {
        RemoveFirstSnoc(Kept(items), init, last);
      }
    }
  }

  /** Loose routing keeps every segment of every leg except those at a seam that repeat the hop
      directly before them. */
  lemma {:induction false} JoinedIsKept(legs: seq<Leg>)
    ensures JoinAll(legs) == Kept(Items(legs))
  {
    if legs != [] {
      var init, leg := legs[..|legs| - 1], legs[|legs| - 1];
      JoinedIsKept(init);
      PathIsKept(Items(init), leg.path);
      var items := Items(init) + PathItems(leg.path);
      KeptSnoc(items, Item(leg.waypoint, true));
      if items != [] { SameAsLast(items, leg.waypoint); } else { LastIsKept(items); }
    }
  }

  // ----- every waypoint is visited

  lemma {:induction false} WaypointIsKept(legs: seq<Leg>, i: nat)
    requires i < |legs|
    ensures exists s :: s in JoinAll(legs) && SameHop(s, legs[i].waypoint)
  {
    JoinedIsKept(legs);
    if i == |legs| - 1 {
      LastIsKept(Items(legs));
      assert Kept(Items(legs))[|Kept(Items(legs))| - 1] in Kept(Items(legs));
    } else {
      var init := legs[..|legs| - 1];
      WaypointIsKept(init, i);
      var s :| s in JoinAll(init) && SameHop(s, init[i].waypoint);
      assert s in JoinAll(legs);
    }
  }

  /** The segment leads to the router by its own SID, or by the SID that the caller gave: its label is
      SRGB base plus index of the first Prefix-SID, or it has that SID and the local address of the
      router's first one. */
  ghost predicate Visits(s: Segment, n: LsNode, sid: Option<SidText>) {
    match sid
    case Some(text) =>
      exists k: nat :: IsFirstWithSids(n.sids, k) && IsHopTo(s, text, n.sids[k])
    case None =>
      || (exists k: nat :: IsFirstIndexed(n.prefixes, k) && IsLabelOf(s, n, k))
      || (exists k: nat :: IsFirstWithSids(n.sids, k) && IsHopTo(s, n.sids[k].sids[0], n.sids[k]))
  }

  predicate IsLabelOf(s: Segment, n: LsNode, k: nat)
    requires k < |n.prefixes|
  {
    s.SRMPLS? && s.sid == (n.attrs.srgbBegin + n.prefixes[k].sidIndex) % 0x1_0000_0000
  }

  predicate IsHopTo(s: Segment, text: SidText, own: LsSrv6Sid) {
    s.SRv6? && Spells(text, s.sid6) && |own.sids| > 0 && Spells(own.sids[0], s.localAddr) && s.remoteAddr.Invalid?
  }

  /** The waypoint's segment, from the caller's text or from the router's records. */
  lemma {:induction false} WaypointSegmentVisits(n: LsNode, sid: Option<SidText>, s: Segment)
    requires WaypointSegment(n, sid) == Ok(s)
    ensures Visits(s, n, sid)
  {
    if sid.None? && FirstPrefixSid(n.prefixes).Some? {
      var k := FirstIndexed(n.prefixes);
      LabelOfRouter(n, k);
      assert IsLabelOf(s, n, k);
    } else {
      var k := FirstWithSids(n.sids);
      SegmentAtRouter(s.sid6, n, k);
      if sid.None? { SidOfRouter(n, k); }
      assert IsHopTo(s, if sid.Some? then sid.value else n.sids[k].sids[0], n.sids[k]);
    }
  }

  /** There is none exactly when the caller's text or the router's first SID is no address, or the
      router has neither a label nor a SID. */
  lemma {:induction false} WaypointSegmentFails(n: LsNode, sid: Option<SidText>)
    ensures sid == Some(Unparsable) ==> WaypointSegment(n, sid) == Err(InvalidExplicitSid)
    ensures (forall s | s in n.sids :: s.sids == []) && sid != Some(Unparsable)
            && (sid.None? ==> forall p | p in n.prefixes :: !p.hasSidIndex) ==>
              WaypointSegment(n, sid) == Err(NoWaypointSegment(NoNodeSid))
    ensures forall i: nat | IsFirstWithSids(n.sids, i) && n.sids[i].sids[0] == Unparsable && sid != Some(Unparsable)
                            && (sid.None? ==> forall p | p in n.prefixes :: !p.hasSidIndex) ::
              WaypointSegment(n, sid) == Err(NoWaypointSegment(BadSidText))
  {
    if forall s | s in n.sids :: s.sids == [] {
      NoSegmentOfRouter(n);
    }
    forall i: nat | IsFirstWithSids(n.sids, i) && n.sids[i].sids[0] == Unparsable
      ensures forall a: Addr :: SegmentWithNodeInfo(a, n) == Err(BadSidText)
      ensures (forall p | p in n.prefixes :: !p.hasSidIndex) ==> NodeSegment(n) == Err(BadSidText)
    {
      forall a: Addr
        ensures SegmentWithNodeInfo(a, n) == Err(BadSidText)
      {
        UnparsableSid(n, i, a);
      }
      UnparsableSid(n, i, Invalid);
    }
  }

  lemma {:induction false} SameHopVisits(s: Segment, s': Segment, n: LsNode, sid: Option<SidText>)
    requires SameHop(s, s') && Visits(s', n, sid)
    ensures Visits(s, n, sid)
  {
    match sid
    case Some(text) =>
      var k: nat :| IsFirstWithSids(n.sids, k) && IsHopTo(s', text, n.sids[k]);
      assert IsHopTo(s, text, n.sids[k]);
    case None =>
      if k: nat :| IsFirstIndexed(n.prefixes, k) && IsLabelOf(s', n, k) {
        assert IsLabelOf(s, n, k);
      } else {
        var k: nat :| IsFirstWithSids(n.sids, k) && IsHopTo(s', n.sids[k].sids[0], n.sids[k]);
        assert IsHopTo(s, n.sids[k].sids[0], n.sids[k]);
      }
  }

  /** Whatever a query returns, it visits every waypoint and the destination, each by the SID that was
      asked for. */
  lemma {:induction false} ResultVisitsWaypoints(ted: Network, t: MetricType, src: RouterId, wps: seq<Waypoint>, list: seq<Segment>, i: nat)
    requires LooseSpec(ted, t, src, wps, Ok(list)) && i < |wps|
    ensures wps[i].routerId in ted && exists s :: s in list && Visits(s, ted[wps[i].routerId], wps[i].sid)
  {
    var legs: seq<Leg> :| |legs| == |wps| && AreLegs(ted, t, src, wps, legs) && list == JoinAll(legs);
    assert IsLeg(ted, t, src, wps, i, legs[i]);
    WaypointIsKept(legs, i);
    var s :| s in list && SameHop(s, legs[i].waypoint);
    WaypointSegmentVisits(ted[wps[i].routerId], wps[i].sid, legs[i].waypoint);
    SameHopVisits(s, legs[i].waypoint, ted[wps[i].routerId], wps[i].sid);
  }

  // ----- a service at a router

  /** Of the router's own SID at the end of the path and another one asked for, neither is lost. */
  lemma {:induction false} OtherSidIsKept(own: Segment, other: Segment)
    requires own.SRv6? && other.SRv6? && own.sid6 != other.sid6
    ensures JoinAll([Leg([own], other)]) == [own, other]
  {
    JoinedIsKept([Leg([own], other)]);
    assert [Leg([own], other)][..0] == [];
    assert Items([Leg([own], other)]) == [Item(own, true), Item(other, true)];
    KeptSnoc([Item(own, true)], Item(other, true));
    KeptSnoc([], Item(own, true));
    assert [Item(own, true)] + [Item(other, true)] == [Item(own, true), Item(other, true)];
    assert [] + [Item(own, true)] == [Item(own, true)];
  }
}
