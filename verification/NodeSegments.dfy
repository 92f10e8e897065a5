/** What is read off the TED, in terms of its records: the metric of a link, the cost of a walk, the
    segment of a router or of a waypoint, and when two segments are the same hop (pkg/table/ted.go,
    pkg/table/sr_policy.go). */
module NodeSegments {
  import opened Bytes
  import opened Netip
  import opened Segments
  import opened Ted
  import opened Walks
  import opened Wrappers

  // ----- metrics

  /** Entry `i` is the first metric of the type. */
  predicate IsFirstOf(ms: seq<Metric>, t: MetricType, i: nat) {
    i < |ms| && ms[i].mtype == t && forall j | 0 <= j < i :: ms[j].mtype != t
  }

  lemma {:induction false} FirstIsFound(ms: seq<Metric>, t: MetricType) returns (i: nat)
    ensures if FirstMetric(ms, t).None? then forall m | m in ms :: m.mtype != t
            else IsFirstOf(ms, t, i) && FirstMetric(ms, t) == Some(ms[i].value)
  {
    i := 0;
    if ms != [] && ms[0].mtype != t {
      i := FirstIsFound(ms[1..], t);
      i := i + 1;
      assert forall m | m in ms :: m == ms[0] || m in ms[1..];
    }
  }

  /** A link's metric is the value of its first entry of the asked type, and missing exactly when it
      has none. */
  lemma {:induction false} LinkMetricIsFirstOfType(l: LsLink, t: MetricType)
    ensures LinkMetric(l, t).None? <==> forall m | m in l.metrics :: m.mtype != t
    ensures forall v: u32 :: LinkMetric(l, t) == Some(v) <==> exists i: nat :: IsFirstOf(l.metrics, t, i) && l.metrics[i].value == v
  {
    var i := FirstIsFound(l.metrics, t);
    if LinkMetric(l, t).Some? {
      assert l.metrics[i] in l.metrics;
      assert forall j: nat | IsFirstOf(l.metrics, t, j) :: j == i;
      assert IsFirstOf(l.metrics, t, i) && LinkMetric(l, t) == Some(l.metrics[i].value);
    } else {
      assert forall j: nat | j < |l.metrics| :: l.metrics[j] in l.metrics;
    }
  }

  /** What the link counts: its first metric of the type, or nothing. */
  ghost predicate Counts(l: LsLink, t: MetricType, m: nat) {
    || (exists i: nat :: IsFirstOf(l.metrics, t, i) && l.metrics[i].value == m)
    || (m == 0 && forall k | k in l.metrics :: k.mtype != t)
  }

  lemma {:induction false} CountsItsCost(l: LsLink, t: MetricType, m: nat)
    requires Counts(l, t, m)
    ensures LinkCost(l, t) == m
  {
    LinkMetricIsFirstOfType(l, t);
    if i: nat :| IsFirstOf(l.metrics, t, i) && l.metrics[i].value == m {
      assert LinkMetric(l, t) == Some(l.metrics[i].value);
    }
  }

  function Sum(ms: seq<nat>): nat {
    if ms == [] then 0 else Sum(ms[..|ms| - 1]) + ms[|ms| - 1]
  }

  /** The cost of a walk is the sum of what its links count. */
  lemma {:induction false} CostIsTheSum(p: seq<LsLink>, t: MetricType, ms: seq<nat>)
    requires |ms| == |p| && forall i | 0 <= i < |p| :: Counts(p[i], t, ms[i])
    ensures Cost(p, t) == Sum(ms)
  {
    if p != [] {
      var last := |p| - 1;
      CostIsTheSum(p[..last], t, ms[..last]);
      CountsItsCost(p[last], t, ms[last]);
    }
  }

  // ----- a TED on which the metric type decides

  const A_B := LsLink("a", "b", Invalid, Invalid, [Metric(Igp, 10), Metric(Te, 100)], 0, None)
  const A_C := LsLink("a", "c", Invalid, Invalid, [Metric(Igp, 20), Metric(Te, 20)], 0, None)
  const C_B := LsLink("c", "b", Invalid, Invalid, [Metric(Igp, 20), Metric(Te, 20)], 0, None)

  function Router(id: RouterId, links: seq<LsLink>): LsNode {
    LsNode(1, id, NodeAttrs("", "", 16000, 24000), links, [LsPrefix(IpPrefix(Invalid, 0), 1, true)], [])
  }

  /** Directly from `a` to `b` by IGP, and over `c` by TE. */
  const TWO_METRICS: Network := map["a" := Router("a", [A_B, A_C]), "b" := Router("b", []), "c" := Router("c", [C_B])]

  lemma {:induction false} WaysOfTwoMetrics(p: seq<LsLink>, x: RouterId)
    requires IsWalk(TWO_METRICS, "a", p, x)
    ensures match x
            case "a" => p == []
            case "b" => p == [A_B] || p == [A_C, C_B]
            case "c" => p == [A_C]
            case _ => false
  {
    if p != [] {
      var last := |p| - 1;
      WaysOfTwoMetrics(p[..last], p[last].local);
      assert p == p[..last] + [p[last]];
      assert p[last] == A_B || p[last] == A_C || p[last] == C_B;
    }
  }

  lemma {:induction false} WalksOfTwoMetrics()
    ensures IsWalk(TWO_METRICS, "a", [A_B], "b") && IsWalk(TWO_METRICS, "a", [A_C, C_B], "b")
    ensures Cost([A_B], Te) == 100 && Cost([A_C, C_B], Te) == 40 && Cost([A_B], Igp) == 10 && Cost([A_C, C_B], Igp) == 40
  {
    assert [A_B][..0] == [] && [A_C, C_B][..1] == [A_C] && [A_C][..0] == [];
    assert A_B in TWO_METRICS["a"].links && A_C in TWO_METRICS["a"].links && C_B in TWO_METRICS["c"].links;
    assert IsWalk(TWO_METRICS, "a", [], "a");
    assert IsWalk(TWO_METRICS, "a", [A_C], "c");
    FirstIsHere(A_B, Igp, 0, 10);
    FirstIsHere(A_B, Te, 1, 100);
    FirstIsHere(A_C, Igp, 0, 20);
    FirstIsHere(A_C, Te, 1, 20);
    FirstIsHere(C_B, Igp, 0, 20);
    FirstIsHere(C_B, Te, 1, 20);
    CostIsTheSum([A_B], Te, [100]);
    CostIsTheSum([A_C, C_B], Te, [20, 20]);
    CostIsTheSum([A_B], Igp, [10]);
    CostIsTheSum([A_C, C_B], Igp, [20, 20]);
    assert [20, 20][..1] == [20] && [20][..0] == [] && [10][..0] == [] && [100][..0] == [];
  }

  lemma {:induction false} FirstIsHere(l: LsLink, t: MetricType, i: nat, m: nat)
    requires IsFirstOf(l.metrics, t, i) && l.metrics[i].value == m
    ensures Counts(l, t, m)
  {
  }

  /** By TE the only shortest path is the one over `c`, by IGP the direct one. */
  lemma {:induction false} MetricTypeDecides(p: seq<LsLink>)
    ensures IsShortest(TWO_METRICS, Te, "a", "b", p) <==> p == [A_C, C_B]
    ensures IsShortest(TWO_METRICS, Igp, "a", "b", p) <==> p == [A_B]
  {
    WalksOfTwoMetrics();
    forall q | IsWalk(TWO_METRICS, "a", q, "b")
      ensures q == [A_B] || q == [A_C, C_B]
    {
      WaysOfTwoMetrics(q, "b");
    }
  }

  // ----- the segment of a router

  predicate IsFirstIndexed(ps: seq<LsPrefix>, i: nat) {
    i < |ps| && ps[i].hasSidIndex && forall j | 0 <= j < i :: !ps[j].hasSidIndex
  }

  predicate IsFirstWithSids(ss: seq<LsSrv6Sid>, i: nat) {
    i < |ss| && |ss[i].sids| > 0 && forall j | 0 <= j < i :: |ss[j].sids| == 0
  }

  lemma {:induction false} PrefixSidIsFirst(ps: seq<LsPrefix>, i: nat)
    requires IsFirstIndexed(ps, i)
    ensures FirstPrefixSid(ps) == Some(ps[i])
  {
    if i > 0 {
      PrefixSidIsFirst(ps[1..], i - 1);
    }
  }

  lemma {:induction false} Srv6SidIsFirst(ss: seq<LsSrv6Sid>, i: nat)
    requires IsFirstWithSids(ss, i)
    ensures FirstSrv6Sid(ss) == Some(ss[i])
  {
    if i > 0 {
      Srv6SidIsFirst(ss[1..], i - 1);
    }
  }

  /** An address as the text of a SID says it. */
  predicate Spells(t: SidText, a: Addr) {
    match a
    case V4(b) => t == Text4(b)
    case V6(b) => t == Text6(b)
    case Invalid => false
  }

  /** The SRv6 segment with this SID at a router whose first SIDs are `s`: local address, structure
      and the uSID bit (behaviors 48 and 57, uN and uA) are theirs. */
  predicate IsAtRouter(seg: Segment, sid: Addr, s: LsSrv6Sid) {
    && seg.SRv6? && seg.sid6 == sid && |s.sids| > 0 && Spells(s.sids[0], seg.localAddr) && seg.remoteAddr.Invalid?
    && seg.structure == Some([s.structure.block, s.structure.node, s.structure.func, s.structure.arg])
    && (seg.usid <==> s.behavior == 48 || s.behavior == 57)
  }

  lemma {:induction false} SegmentAtRouter(sid: Addr, n: LsNode, i: nat)
    requires IsFirstWithSids(n.sids, i)
    ensures forall seg :: SegmentWithNodeInfo(sid, n) == Ok(seg) <==> IsAtRouter(seg, sid, n.sids[i])
  {
    Srv6SidIsFirst(n.sids, i);
  }

  lemma {:induction false} FirstIndexed(ps: seq<LsPrefix>) returns (i: nat)
    requires exists p :: p in ps && p.hasSidIndex
    ensures IsFirstIndexed(ps, i)
  {
    if ps[0].hasSidIndex {
      i := 0;
    } else {
      assert forall p | p in ps :: p == ps[0] || p in ps[1..];
      i := FirstIndexed(ps[1..]);
      i := i + 1;
    }
  }

  lemma {:induction false} FirstWithSids(ss: seq<LsSrv6Sid>) returns (i: nat)
    requires exists s :: s in ss && |s.sids| > 0
    ensures IsFirstWithSids(ss, i)
  {
    if |ss[0].sids| > 0 {
      i := 0;
    } else {
      assert forall s | s in ss :: s == ss[0] || s in ss[1..];
      i := FirstWithSids(ss[1..]);
      i := i + 1;
    }
  }

  /** A router whose first Prefix-SID is prefix `i` has the label SRGB base plus index, in 32 bits. */
  lemma {:induction false} LabelOfRouter(n: LsNode, i: nat)
    requires IsFirstIndexed(n.prefixes, i)
    ensures NodeSegment(n) == Ok(SRMPLS((n.attrs.srgbBegin + n.prefixes[i].sidIndex) % 0x1_0000_0000, 0, 0, false, Invalid, Invalid))
  {
    PrefixSidIsFirst(n.prefixes, i);
  }

  /** One without Prefix-SIDs has its first SRv6 SID. */
  lemma {:induction false} SidOfRouter(n: LsNode, i: nat)
    requires (forall p | p in n.prefixes :: !p.hasSidIndex) && IsFirstWithSids(n.sids, i)
    ensures forall seg :: NodeSegment(n) == Ok(seg) <==> seg.SRv6? && seg.localAddr == seg.sid6 && IsAtRouter(seg, seg.sid6, n.sids[i])
  {
    Srv6SidIsFirst(n.sids, i);
    forall sid: Addr
      ensures forall seg :: SegmentWithNodeInfo(sid, n) == Ok(seg) <==> IsAtRouter(seg, sid, n.sids[i])
    {
      SegmentAtRouter(sid, n, i);
    }
  }

  /** Text that is no address is an error, for the router and for every other SID at it. */
  lemma {:induction false} UnparsableSid(n: LsNode, i: nat, sid: Addr)
    requires IsFirstWithSids(n.sids, i) && n.sids[i].sids[0] == Unparsable
    ensures SegmentWithNodeInfo(sid, n) == Err(BadSidText)
    ensures (forall p | p in n.prefixes :: !p.hasSidIndex) ==> NodeSegment(n) == Err(BadSidText)
  {
    Srv6SidIsFirst(n.sids, i);
  }

  /** And one with neither has none. */
  lemma {:induction false} NoSegmentOfRouter(n: LsNode)
    requires forall s | s in n.sids :: s.sids == []
    ensures forall sid: Addr :: SegmentWithNodeInfo(sid, n) == Err(NoNodeSid)
    ensures (forall p | p in n.prefixes :: !p.hasSidIndex) ==> NodeSegment(n) == Err(NoNodeSid)
  {
  }
}
