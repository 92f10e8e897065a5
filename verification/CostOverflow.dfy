/** What the path computation does where costs do not fit 32 bits: `cost + metric` is a `uint32`
    sum, and one that wraps makes a longer path look free, or a settled router cheaper than it
    was (pkg/cspf/cspf.go). */
module CostOverflow {
  import opened Bytes
  import opened Netip
  import opened Segments
  import opened ShortestPath
  import opened Ted
  import opened Walks
  import opened Wrappers

  function LinkTo(a: RouterId, b: RouterId, cost: u32): LsLink {
    LsLink(a, b, Invalid, Invalid, [Metric(Te, cost)], 0, None)
  }

  function Router(id: RouterId, links: seq<LsLink>): LsNode {
    LsNode(1, id, NodeAttrs("", "", 16000, 24000), links, [LsPrefix(IpPrefix(V4([10, 0, 0, 1]), 32), 1, true)], [])
  }

  const AB := LinkTo("a", "b", 0x8000_0000)
  const AC := LinkTo("a", "c", 0x8000_0001)
  const BC := LinkTo("b", "c", 0x8000_0000)

  /** Two links of 2^31 from `a` over `b` to `c`, and a cheaper one of 2^31 + 1 directly. */
  const TRIANGLE: Network := map["a" := Router("a", [AB, AC]), "b" := Router("b", [BC]), "c" := Router("c", [])]

  const SEG := NewSegmentSRMPLS(16001)

  const START: Table := map["a" := NodeState(false, 0, "", SEG)]

  const AFTER_A: Table :=
    map["a" := NodeState(true, 0, "", SEG), "b" := NodeState(false, 0x8000_0000, "a", SEG),
        "c" := NodeState(false, 0x8000_0001, "a", SEG)]

  /** 2^31 + 2^31 has become 0. */
  const AFTER_B: Table :=
    map["a" := NodeState(true, 0, "", SEG), "b" := NodeState(true, 0x8000_0000, "a", SEG),
        "c" := NodeState(false, 0, "b", SEG)]

  lemma {:induction false} RouterSegment(id: RouterId, links: seq<LsLink>)
    ensures NodeSegment(Router(id, links)) == Ok(SEG)
  {
  }

  lemma {:induction false} SegmentsOfTriangle()
    ensures LinksClosed(TRIANGLE) && forall u | u in TRIANGLE :: NodeSegment(TRIANGLE[u]) == Ok(SEG)
  {
    RouterSegment("a", [AB, AC]);
    RouterSegment("b", [BC]);
    RouterSegment("c", []);
  }

  lemma {:induction false} TwoLinks(s: Table, s': Table, s'': Table)
    requires "a" in s && "a" in s'
    requires RelaxLink(TRIANGLE, s, "a", AB, Te) == Ok(s') && RelaxLink(TRIANGLE, s', "a", AC, Te) == Ok(s'')
    ensures RelaxLinks(TRIANGLE, s, "a", [AB, AC], Te) == Ok(s'')
  {
    assert [AB, AC][1..] == [AC];
    assert [AC][1..] == [];
    assert RelaxLinks(TRIANGLE, s'', "a", [], Te) == Ok(s'');
    assert RelaxLinks(TRIANGLE, s', "a", [AC], Te) == Ok(s'');
  }

  lemma {:induction false} RoundOfA()
    ensures IsNext(START, "a") && RelaxLinks(TRIANGLE, START, "a", [AB, AC], Te) == Ok(AFTER_A["a" := START["a"]])
  {
    SegmentsOfTriangle();
    var s' := START["b" := NodeState(false, 0x8000_0000, "a", SEG)];
    assert RelaxLink(TRIANGLE, START, "a", AB, Te) == Ok(s');
    var s'' := s'["c" := NodeState(false, 0x8000_0001, "a", SEG)];
    assert RelaxLink(TRIANGLE, s', "a", AC, Te) == Ok(s'');
    TwoLinks(START, s', s'');
    assert s'' == AFTER_A["a" := START["a"]];
  }

  lemma {:induction false} RoundOfB()
    ensures IsNext(AFTER_A, "b") && RelaxLinks(TRIANGLE, AFTER_A, "b", [BC], Te) == Ok(AFTER_B["b" := AFTER_A["b"]])
  {
    var s' := AFTER_A["c" := NodeState(false, 0, "b", SEG)];
    assert RelaxLink(TRIANGLE, AFTER_A, "b", BC, Te) == Ok(s');
    assert [BC][1..] == [];
    assert RelaxLinks(TRIANGLE, s', "b", [], Te) == Ok(s');
    assert s' == AFTER_B["b" := AFTER_A["b"]];
  }

  lemma {:induction false} WalkCosts()
    ensures IsWalk(TRIANGLE, "a", [AC], "c") && Cost([AC], Te) == 0x8000_0001
    ensures IsWalk(TRIANGLE, "a", [AB, BC], "c") && Cost([AB, BC], Te) == 0x1_0000_0000
  {
    assert [AC][..0] == [] && [AB][..0] == [] && [AB, BC][..1] == [AB];
    assert IsWalk(TRIANGLE, "a", [], "a");
    assert AC in TRIANGLE["a"].links && AB in TRIANGLE["a"].links && BC in TRIANGLE["b"].links;
    assert Cost([], Te) == 0;
    assert Cost([AB], Te) == 0x8000_0000;
    assert IsWalk(TRIANGLE, "a", [AB], "b");
  }

  /** Every way to `x` ends with one of its links, so it costs no less than each of them could. */
  lemma {:induction false} LastLink(net: Network, src: RouterId, p: seq<LsLink>, x: RouterId)
    requires IsWalk(net, src, p, x) && src != x
    ensures p != [] && p[|p| - 1].local in net && p[|p| - 1] in net[p[|p| - 1].local].links && p[|p| - 1].remote == x
    ensures Cost(p, Te) >= LinkCost(p[|p| - 1], Te)
  {
  }

  lemma {:induction false} ShortestToB()
    ensures IsShortest(TRIANGLE, Te, "a", "b", [AB]) && Cost([AB], Te) == 0x8000_0000
    ensures NotBeyond(TRIANGLE, Te, "a", "c", [AB])
  {
    WalkCosts();
    assert AB in TRIANGLE["a"].links;
    assert [AB][..0] == [];
    assert IsWalk(TRIANGLE, "a", [], "a");
    assert Cost([], Te) == 0;
    forall q | IsWalk(TRIANGLE, "a", q, "b") ensures Cost([AB], Te) <= Cost(q, Te) {
      LastLink(TRIANGLE, "a", q, "b");
    }
    forall q | IsWalk(TRIANGLE, "a", q, "c") ensures Cost([AB], Te) <= Cost(q, Te) {
      LastLink(TRIANGLE, "a", q, "c");
    }
  }

  lemma {:induction false} TriangleExpands(u: RouterId)
    requires u in TRIANGLE
    ensures Expandable(TRIANGLE, Te, u)
  {
    SegmentsOfTriangle();
    forall l | l in TRIANGLE[u].links
      ensures LinkMetric(l, Te).Some? && l.remote in TRIANGLE
    {
      assert l == AB || l == AC || l == BC;
    }
  }

  lemma {:induction false} WalksEndInTriangle(q: seq<LsLink>, x: RouterId)
    requires IsWalk(TRIANGLE, "a", q, x)
    ensures x in TRIANGLE
  {
    SegmentsOfTriangle();
  }

  lemma {:induction false} SettlesB()
    ensures Settles(TRIANGLE, Te, "a", "c", "b", [AB])
  {
    SegmentsOfTriangle();
    ShortestToB();
    forall u | u in TRIANGLE
      ensures Expandable(TRIANGLE, Te, u)
    {
      TriangleExpands(u);
    }
    forall q, u | IsWalk(TRIANGLE, "a", q, u)
      ensures u in TRIANGLE
    {
      WalksEndInTriangle(q, u);
    }
  }

  /** The sum at `b` wraps to 0, and no walk to `c` is free. */
  lemma {:induction false} TriangleDoesNotFit()
    ensures !CostsFit(TRIANGLE, Te, "a", "c")
  {
    SettlesB();
    ShortestToB();
    assert BC in TRIANGLE["b"].links;
    forall q | IsWalk(TRIANGLE, "a", q, "c")
      ensures Cost(q, Te) > 0
    {
      LastLink(TRIANGLE, "a", q, "c");
    }
    assert !SumFits(TRIANGLE, Te, "a", Cost([AB], Te), BC);
    assert !SumsFit(TRIANGLE, Te, "a", "b", Cost([AB], Te));
  }

  /** The rounds of the computation on the triangle: `a`, then `b`, and then `c` is next with a
      back-pointer to `b`, so the path of cost 2^32 is returned, although the direct link costs
      2^31 + 1. */
  lemma {:induction false} WrappedCostHidesTheShortestPath()
    ensures IsNext(START, "a") && RelaxLinks(TRIANGLE, START, "a", [AB, AC], Te).Ok?
    ensures "a" in RelaxLinks(TRIANGLE, START, "a", [AB, AC], Te).value
    ensures Settle(RelaxLinks(TRIANGLE, START, "a", [AB, AC], Te).value, "a") == AFTER_A
    ensures IsNext(AFTER_A, "b") && RelaxLinks(TRIANGLE, AFTER_A, "b", [BC], Te).Ok?
    ensures "b" in RelaxLinks(TRIANGLE, AFTER_A, "b", [BC], Te).value
    ensures Settle(RelaxLinks(TRIANGLE, AFTER_A, "b", [BC], Te).value, "b") == AFTER_B
    ensures IsNext(AFTER_B, "c") && AFTER_B["c"].prev == "b" && AFTER_B["b"].prev == "a"
    ensures IsWalk(TRIANGLE, "a", [AC], "c") && IsWalk(TRIANGLE, "a", [AB, BC], "c") && Cost([AC], Te) < Cost([AB, BC], Te)
    ensures !CostsFit(TRIANGLE, Te, "a", "c")
  {
    RoundOfA();
    RoundOfB();
    WalkCosts();
    TriangleDoesNotFit();
  }

  // ----- back-pointers without an end

  const CB := LinkTo("c", "b", 0)
  const CD := LinkTo("c", "d", 1)

  /** A line from `a` over `b` and `c` to `d`, with a free link back from `c` to `b`. */
  const LINE: Network :=
    map["a" := Router("a", [AB]), "b" := Router("b", [BC]), "c" := Router("c", [CB, CD]), "d" := Router("d", [])]

  const LINE_A: Table := map["a" := NodeState(true, 0, "", SEG), "b" := NodeState(false, 0x8000_0000, "a", SEG)]

  const LINE_B: Table :=
    map["a" := NodeState(true, 0, "", SEG), "b" := NodeState(true, 0x8000_0000, "a", SEG), "c" := NodeState(false, 0, "b", SEG)]

  /** Having wrapped to 0, `c` is cheaper than `b`, which is settled and rewritten all the same. */
  const LINE_C: Table :=
    map["a" := NodeState(true, 0, "", SEG), "b" := NodeState(true, 0, "c", SEG), "c" := NodeState(true, 0, "b", SEG),
        "d" := NodeState(false, 1, "c", SEG)]

  lemma {:induction false} SegmentsOfLine()
    ensures forall u | u in LINE :: NodeSegment(LINE[u]) == Ok(SEG)
  {
    RouterSegment("a", [AB]);
    RouterSegment("b", [BC]);
    RouterSegment("c", [CB, CD]);
    RouterSegment("d", []);
  }

  lemma {:induction false} OneLink(s: Table, u: RouterId, l: LsLink, s': Table)
    requires u in s && l.remote in LINE && RelaxLink(LINE, s, u, l, Te) == Ok(s')
    ensures RelaxLinks(LINE, s, u, [l], Te) == Ok(s')
  {
    assert [l][1..] == [];
    assert RelaxLinks(LINE, s', u, [], Te) == Ok(s');
  }

  lemma {:induction false} LineRoundA()
    ensures IsNext(START, "a") && RelaxLinks(LINE, START, "a", [AB], Te) == Ok(LINE_A["a" := START["a"]])
  {
    SegmentsOfLine();
    assert START["b" := NodeState(false, 0x8000_0000, "a", SEG)] == LINE_A["a" := START["a"]];
    OneLink(START, "a", AB, LINE_A["a" := START["a"]]);
  }

  lemma {:induction false} LineRoundB()
    ensures IsNext(LINE_A, "b") && RelaxLinks(LINE, LINE_A, "b", [BC], Te) == Ok(LINE_B["b" := LINE_A["b"]])
  {
    SegmentsOfLine();
    assert LINE_A["c" := NodeState(false, 0, "b", SEG)] == LINE_B["b" := LINE_A["b"]];
    OneLink(LINE_A, "b", BC, LINE_B["b" := LINE_A["b"]]);
  }

  const LINE_BACK: Table :=
    map["a" := NodeState(true, 0, "", SEG), "b" := NodeState(true, 0, "c", SEG), "c" := NodeState(false, 0, "b", SEG)]

  /** A settled router is rewritten. */
  lemma {:induction false} FreeLinkBack()
    ensures RelaxLink(LINE, LINE_B, "c", CB, Te) == Ok(LINE_BACK)
  {
    assert LINE_B["b" := LINE_B["b"].(cost := 0, prev := "c")] == LINE_BACK;
  }

  lemma {:induction false} LinkOn()
    ensures RelaxLink(LINE, LINE_BACK, "c", CD, Te) == Ok(LINE_C["c" := LINE_B["c"]])
  {
    SegmentsOfLine();
    assert LINE_BACK["d" := NodeState(false, 1, "c", SEG)] == LINE_C["c" := LINE_B["c"]];
  }

  lemma {:induction false} LineRoundC()
    ensures IsNext(LINE_B, "c") && RelaxLinks(LINE, LINE_B, "c", [CB, CD], Te) == Ok(LINE_C["c" := LINE_B["c"]])
  {
    FreeLinkBack();
    LinkOn();
    OneLink(LINE_BACK, "c", CD, LINE_C["c" := LINE_B["c"]]);
    assert [CB, CD][1..] == [CD];
  }

  /** Where `k` back-pointers lead. */
  function StepsBack(s: Table, v: RouterId, k: nat): RouterId
    decreases k
  {
    if k == 0 || v !in s then v else StepsBack(s, s[v].prev, k - 1)
  }

  lemma {:induction false} BetweenBAndC(v: RouterId, k: nat)
    requires v == "b" || v == "c"
    ensures StepsBack(LINE_C, v, k) == "b" || StepsBack(LINE_C, v, k) == "c"
    decreases k
  {
    if k > 0 {
      BetweenBAndC(LINE_C[v].prev, k - 1);
    }
  }

  lemma {:induction false} LineWalk()
    ensures IsWalk(LINE, "a", [AB, BC, CD], "d")
  {
    assert [AB, BC, CD][..2] == [AB, BC] && [AB, BC][..1] == [AB] && [AB][..0] == [];
    assert AB in LINE["a"].links && BC in LINE["b"].links && CD in LINE["c"].links;
    assert IsWalk(LINE, "a", [], "a");
    assert IsWalk(LINE, "a", [AB], "b");
    assert IsWalk(LINE, "a", [AB, BC], "c");
  }

  lemma {:induction false} RoundsOfLineChain()
    ensures Settle(LINE_A["a" := START["a"]], "a") == LINE_A
    ensures Settle(LINE_B["b" := LINE_A["b"]], "b") == LINE_B
    ensures Settle(LINE_C["c" := LINE_B["c"]], "c") == LINE_C
    ensures IsNext(LINE_C, "d")
  {
  }

  /** The rounds on the line end with `d` next, and its back-pointers go back and forth between `b`
      and `c`: the loop that follows them never meets the source, although there is a path. */
  lemma {:induction false} BackPointersNeverReachTheSource()
    ensures IsNext(START, "a") && RelaxLinks(LINE, START, "a", [AB], Te) == Ok(LINE_A["a" := START["a"]])
    ensures Settle(LINE_A["a" := START["a"]], "a") == LINE_A
    ensures IsNext(LINE_A, "b") && RelaxLinks(LINE, LINE_A, "b", [BC], Te) == Ok(LINE_B["b" := LINE_A["b"]])
    ensures Settle(LINE_B["b" := LINE_A["b"]], "b") == LINE_B
    ensures IsNext(LINE_B, "c") && RelaxLinks(LINE, LINE_B, "c", [CB, CD], Te) == Ok(LINE_C["c" := LINE_B["c"]])
    ensures Settle(LINE_C["c" := LINE_B["c"]], "c") == LINE_C
    ensures IsNext(LINE_C, "d") && IsWalk(LINE, "a", [AB, BC, CD], "d")
    ensures forall k: nat :: StepsBack(LINE_C, "d", k) in LINE_C && StepsBack(LINE_C, "d", k) != "a"
  {
    LineRoundA();
    LineRoundB();
    LineRoundC();
    RoundsOfLineChain();
    LineWalk();
    forall k: nat
      ensures StepsBack(LINE_C, "d", k) in LINE_C && StepsBack(LINE_C, "d", k) != "a"
    {
      if k > 0 {
        BetweenBAndC("c", k - 1);
      }
    }
  }

  // ----- a sum that wraps and does no harm

  const BA := LinkTo("b", "a", 0x8000_0000)
  const BC1 := LinkTo("b", "c", 1)

  /** A line of links in both directions, the first of metric 2^31. */
  const TWO_WAY: Network := map["a" := Router("a", [AB]), "b" := Router("b", [BA, BC1]), "c" := Router("c", [LinkTo("c", "b", 1)])]

  lemma {:induction false} TwoWayWalks()
    ensures IsWalk(TWO_WAY, "a", [], "a") && Cost([], Te) == 0
    ensures IsWalk(TWO_WAY, "a", [AB], "b") && Cost([AB], Te) == 0x8000_0000
  {
    assert [AB][..0] == [] && AB in TWO_WAY["a"].links;
    assert IsWalk(TWO_WAY, "a", [], "a");
  }

  lemma {:induction false} TwoWayRouters(p: seq<LsLink>, u: RouterId)
    requires IsWalk(TWO_WAY, "a", p, u)
    ensures u in TWO_WAY
  {
    if p != [] {
      var l := p[|p| - 1];
      assert l == AB || l == BA || l == BC1 || l == LinkTo("c", "b", 1);
    }
  }

  /** The sum of the way back from `b` wraps to 0, which `a` costs already: everything fits. */
  lemma {:induction false} UnwrittenWrapFits()
    ensures CostsFit(TWO_WAY, Te, "a", "c")
    ensures AB in TWO_WAY["a"].links && BA in TWO_WAY["b"].links && LinkCost(AB, Te) + LinkCost(BA, Te) == 0x1_0000_0000
  {
    TwoWayWalks();
    forall u, p | Settles(TWO_WAY, Te, "a", "c", u, p)
      ensures SumsFit(TWO_WAY, Te, "a", u, Cost(p, Te))
    {
      TwoWayRouters(p, u);
      EndIsAvoided(TWO_WAY, "a", "c", p, u);
      assert Cost(p, Te) <= if u == "a" then 0 else 0x8000_0000;
      assert SumFits(TWO_WAY, Te, "a", Cost(p, Te), BA) by { assert IsWalk(TWO_WAY, "a", [], BA.remote); }
    }
  }
}
