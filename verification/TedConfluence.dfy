/** Does the order in which BGP-LS records arrive matter to the TED? It does exactly when two
    records contradict each other (pkg/table/ted.go). */
module TedConfluence {
  import opened Bytes
  import opened Ted

  function Mentions(e: TedElem, cfgAsn: u32): set<RouterId> {
    match e
    case NodeElem(asn, id, _) => if asn == cfgAsn then {id} else {}
    case LinkElem(la, ra, l) => if la == cfgAsn && ra == cfgAsn then {l.local, l.remote} else {}
    case PrefixElem(asn, id, _) => if asn == cfgAsn then {id} else {}
    case SidElem(asn, id, _) => if asn == cfgAsn then {id} else {}
  }

  function Routers(es: seq<TedElem>, asn: u32): set<RouterId> {
    if es == [] then {} else Routers(es[..|es| - 1], asn) + Mentions(es[|es| - 1], asn)
  }

  predicate Lists(ps: seq<LsPrefix>, prefix: IpPrefix) {
    exists q | q in ps :: q.prefix == prefix
  }

  /** What one record does to the node of one router. */
  function StepNode(n: LsNode, e: TedElem, cfgAsn: u32): (n': LsNode)
    ensures n'.id == n.id && n'.asn == n.asn
  {
    match e
    case NodeElem(asn, id, attrs) => if asn == cfgAsn && id == n.id then n.(attrs := attrs) else n
    case LinkElem(la, ra, l) =>
      if la == cfgAsn && ra == cfgAsn && l.local == n.id then n.(links := n.links + [l]) else n
    case PrefixElem(asn, id, p) =>
      if asn == cfgAsn && id == n.id && !Lists(n.prefixes, p.prefix) then n.(prefixes := n.prefixes + [p]) else n
    case SidElem(asn, id, s) => if asn == cfgAsn && id == n.id then n.(sids := n.sids + [s]) else n
  }

  /** The node of one router, from the records of the feed alone. */
  function NodeOf(es: seq<TedElem>, asn: u32, r: RouterId): (n: LsNode)
    ensures n.id == r && n.asn == asn
  {
    if es == [] then LsNode(asn, r, NO_ATTRS, [], [], [])
    else StepNode(NodeOf(es[..|es| - 1], asn, r), es[|es| - 1], asn)
  }

  lemma {:induction false} UnmentionedIsBare(es: seq<TedElem>, asn: u32, r: RouterId)
    requires r !in Routers(es, asn)
    ensures NodeOf(es, asn, r) == LsNode(asn, r, NO_ATTRS, [], [], [])
  {
    if es != [] {
      UnmentionedIsBare(es[..|es| - 1], asn, r);
    }
  }

  ghost predicate Describes(net: Network, es: seq<TedElem>, asn: u32, ids: set<RouterId>) {
    net.Keys == ids && forall r | r in ids :: net[r] == NodeOf(es, asn, r)
  }

  /** `net` with a bare node for every router the record mentions first. */
  ghost predicate Stubbed(net: Network, e: TedElem, asn: u32, mid: Network) {
    && mid.Keys == net.Keys + Mentions(e, asn)
    && (forall r | r in net :: mid[r] == net[r] && net[r].id == r)
    && (forall r | r in mid && r !in net :: mid[r] == LsNode(asn, r, NO_ATTRS, [], [], []))
  }

  ghost predicate SteppedBy(net': Network, e: TedElem, asn: u32, mid: Network) {
    net'.Keys == mid.Keys && forall r | r in mid :: net'[r] == StepNode(mid[r], e, asn)
  }

  lemma NodeElemSteps(net: Network, e: TedElem, asn: u32, mid: Network)
    requires e.NodeElem? && Stubbed(net, e, asn, mid)
    ensures SteppedBy(UpdateTED(net, e, asn), e, asn, mid)
  {
  }

  lemma {:induction false} LinkElemSteps(net: Network, e: TedElem, asn: u32, mid: Network)
    requires e.LinkElem? && Stubbed(net, e, asn, mid)
    ensures SteppedBy(UpdateTED(net, e, asn), e, asn, mid)
  {
    if e.localAsn == asn && e.remoteAsn == asn {
      assert WithStub(WithStub(net, asn, e.link.local), asn, e.link.remote) == mid;
    }
  }

  lemma PrefixElemSteps(net: Network, e: TedElem, asn: u32, mid: Network)
    requires e.PrefixElem? && Stubbed(net, e, asn, mid)
    ensures SteppedBy(UpdateTED(net, e, asn), e, asn, mid)
  {
    if e.asn == asn {
      assert WithStub(net, asn, e.id) == mid;
    }
  }

  lemma SidElemSteps(net: Network, e: TedElem, asn: u32, mid: Network)
    requires e.SidElem? && Stubbed(net, e, asn, mid)
    ensures SteppedBy(UpdateTED(net, e, asn), e, asn, mid)
  {
    if e.asn == asn {
      assert WithStub(net, asn, e.id) == mid;
    }
  }

  /** One update changes each router's node by `StepNode` and adds the routers it mentions. */
  lemma {:induction false} UpdateStepsNodes(net: Network, e: TedElem, asn: u32, mid: Network)
    requires Stubbed(net, e, asn, mid)
    ensures SteppedBy(UpdateTED(net, e, asn), e, asn, mid)
  {
    match e
    case NodeElem(_, _, _) => NodeElemSteps(net, e, asn, mid);
    case LinkElem(_, _, _) => LinkElemSteps(net, e, asn, mid);
    case PrefixElem(_, _, _) => PrefixElemSteps(net, e, asn, mid);
    case SidElem(_, _, _) => SidElemSteps(net, e, asn, mid);
  }

  /** The TED a feed builds has the routers its accepted records mention, each with the node the
      records give it. */
  lemma {:induction false} BuildDescribed(es: seq<TedElem>, asn: u32)
    ensures Describes(Build(es, asn), es, asn, Routers(es, asn))
  {
    if es != [] {
      var init, e := es[..|es| - 1], es[|es| - 1];
      BuildDescribed(init, asn);
      var mid := map r | r in Routers(es, asn) :: NodeOf(init, asn, r);
      forall r | r in mid && r !in Build(init, asn) ensures mid[r] == LsNode(asn, r, NO_ATTRS, [], [], []) {
        UnmentionedIsBare(init, asn, r);
      }
      UpdateStepsNodes(Build(init, asn), e, asn, mid);
    }
  }

  /** Two TEDs with the same routers, the same attributes, and the same links, prefixes and SIDs
      in some order. */
  ghost predicate SameTed(a: Network, b: Network) {
    && a.Keys == b.Keys
    && forall r | r in a :: SameNode(a[r], b[r])
  }

  ghost predicate SameNode(a: LsNode, b: LsNode) {
    && a.asn == b.asn && a.id == b.id && a.attrs == b.attrs
    && multiset(a.links) == multiset(b.links)
    && multiset(a.prefixes) == multiset(b.prefixes)
    && multiset(a.sids) == multiset(b.sids)
  }

  /** No two accepted records contradict each other about a router or about one of its prefixes. */
  ghost predicate Agree(es: seq<TedElem>, asn: u32) {
    forall a, b | a in es && b in es :: !Contradict(a, b, asn)
  }

  predicate Contradict(a: TedElem, b: TedElem, cfgAsn: u32) {
    match (a, b)
    case (NodeElem(aa, x, m), NodeElem(ba, y, n)) => aa == ba == cfgAsn && x == y && m != n
    case (PrefixElem(aa, x, p), PrefixElem(ba, y, q)) =>
      aa == ba == cfgAsn && x == y && p.prefix == q.prefix && p != q
    case _ => false
  }

  ghost predicate OrderFree(es: seq<TedElem>, asn: u32) {
    forall xs, ys | multiset(xs) == multiset(es) && multiset(ys) == multiset(es) ::
      SameTed(Build(xs, asn), Build(ys, asn))
  }

  // ----- what the collected lists hold, as counts in the feed

  lemma MultisetSnoc<T>(s: seq<T>)
    requires s != []
    ensures multiset(s) == multiset(s[..|s| - 1]) + multiset{s[|s| - 1]}
  {
    assert s == s[..|s| - 1] + [s[|s| - 1]];
  }

  lemma {:induction false} LinkCount(es: seq<TedElem>, asn: u32, r: RouterId, l: LsLink)
    ensures multiset(NodeOf(es, asn, r).links)[l] == if l.local == r then multiset(es)[LinkElem(asn, asn, l)] else 0
  {
    if es != [] {
      LinkCount(es[..|es| - 1], asn, r, l);
      MultisetSnoc(es);
    }
  }

  lemma {:induction false} SidCount(es: seq<TedElem>, asn: u32, r: RouterId, s: LsSrv6Sid)
    ensures multiset(NodeOf(es, asn, r).sids)[s] == multiset(es)[SidElem(asn, r, s)]
  {
    if es != [] {
      var init, e := es[..|es| - 1], es[|es| - 1];
      SidCount(init, asn, r, s);
      MultisetSnoc(es);
      var before, after := NodeOf(init, asn, r).sids, NodeOf(es, asn, r).sids;
      if e.SidElem? && e.asn == asn && e.id == r {
        assert after == before + [e.sid];
        assert e == SidElem(asn, r, s) <==> e.sid == s;
      } else {
        assert after == before;
      }
    }
  }

  lemma {:induction false} PrefixesFromFeed(es: seq<TedElem>, asn: u32, r: RouterId)
    ensures DistinctPrefixes(NodeOf(es, asn, r).prefixes)
    ensures forall p | p in NodeOf(es, asn, r).prefixes :: PrefixElem(asn, r, p) in es
    ensures forall p | PrefixElem(asn, r, p) in es :: Lists(NodeOf(es, asn, r).prefixes, p.prefix)
  {
    if es != [] {
      var init := es[..|es| - 1];
      PrefixesFromFeed(init, asn, r);
      forall p | PrefixElem(asn, r, p) in es
        ensures Lists(NodeOf(es, asn, r).prefixes, p.prefix)
      {
        if PrefixElem(asn, r, p) in init {
          var q :| q in NodeOf(init, asn, r).prefixes && q.prefix == p.prefix;
          assert q in NodeOf(es, asn, r).prefixes;
        } else {
          assert es[|es| - 1] == PrefixElem(asn, r, p);
          var ps := NodeOf(init, asn, r).prefixes;
          if !Lists(ps, p.prefix) {
            assert p in NodeOf(es, asn, r).prefixes;
          }
        }
      }
    }
  }

  lemma {:induction false} DistinctCount(ps: seq<LsPrefix>, p: LsPrefix)
    requires DistinctPrefixes(ps)
    ensures multiset(ps)[p] == if p in ps then 1 else 0
  {
    if ps != [] {
      DistinctCount(ps[..|ps| - 1], p);
      MultisetSnoc(ps);
    }
  }

  lemma {:induction false} PrefixCount(es: seq<TedElem>, asn: u32, r: RouterId, p: LsPrefix)
    requires Agree(es, asn)
    ensures multiset(NodeOf(es, asn, r).prefixes)[p] == if PrefixElem(asn, r, p) in es then 1 else 0
  {
    var ps := NodeOf(es, asn, r).prefixes;
    PrefixesFromFeed(es, asn, r);
    DistinctCount(ps, p);
    if PrefixElem(asn, r, p) in es {
      var q :| q in ps && q.prefix == p.prefix;
      assert !Contradict(PrefixElem(asn, r, p), PrefixElem(asn, r, q), asn);
    }
  }

  lemma {:induction false} AttrsFromFeed(es: seq<TedElem>, asn: u32, r: RouterId)
    ensures NodeElem(asn, r, NodeOf(es, asn, r).attrs) in es
            || (NodeOf(es, asn, r).attrs == NO_ATTRS && forall m :: NodeElem(asn, r, m) !in es)
  {
    if es != [] {
      AttrsFromFeed(es[..|es| - 1], asn, r);
      assert forall x :: x in es <==> x in es[..|es| - 1] || x == es[|es| - 1];
    }
  }

  lemma {:induction false} RoutersFromFeed(es: seq<TedElem>, asn: u32, r: RouterId)
    ensures r in Routers(es, asn) <==> exists e | e in es :: r in Mentions(e, asn)
  {
    if es != [] {
      RoutersFromFeed(es[..|es| - 1], asn, r);
      assert forall x :: x in es <==> x in es[..|es| - 1] || x == es[|es| - 1];
    }
  }

  // ----- agreement is enough

  lemma SameElements(xs: seq<TedElem>, ys: seq<TedElem>)
    requires multiset(xs) == multiset(ys)
    ensures forall e :: e in xs <==> e in ys
  {
    forall e ensures e in xs <==> e in ys {
      assert e in xs <==> e in multiset(xs);
      assert e in ys <==> e in multiset(ys);
    }
  }

  lemma PermutedNode(xs: seq<TedElem>, ys: seq<TedElem>, asn: u32, r: RouterId)
    requires multiset(xs) == multiset(ys) && Agree(xs, asn) && Agree(ys, asn)
    ensures SameNode(NodeOf(xs, asn, r), NodeOf(ys, asn, r))
  {
    SameElements(xs, ys);
    var a, b := NodeOf(xs, asn, r), NodeOf(ys, asn, r);
    forall l ensures multiset(a.links)[l] == multiset(b.links)[l] {
      LinkCount(xs, asn, r, l); LinkCount(ys, asn, r, l);
    }
    forall s ensures multiset(a.sids)[s] == multiset(b.sids)[s] {
      SidCount(xs, asn, r, s); SidCount(ys, asn, r, s);
    }
    forall p ensures multiset(a.prefixes)[p] == multiset(b.prefixes)[p] {
      PrefixCount(xs, asn, r, p); PrefixCount(ys, asn, r, p);
    }
    AttrsFromFeed(xs, asn, r);
    AttrsFromFeed(ys, asn, r);
    assert !Contradict(NodeElem(asn, r, a.attrs), NodeElem(asn, r, b.attrs), asn)
           || NodeElem(asn, r, a.attrs) !in xs || NodeElem(asn, r, b.attrs) !in xs;
  }

  lemma AgreementIsEnough(es: seq<TedElem>, asn: u32)
    requires Agree(es, asn)
    ensures OrderFree(es, asn)
  {
    forall xs, ys | multiset(xs) == multiset(es) && multiset(ys) == multiset(es)
      ensures SameTed(Build(xs, asn), Build(ys, asn))
    {
      SameElements(xs, es);
      SameElements(ys, es);
      BuildDescribed(xs, asn);
      BuildDescribed(ys, asn);
      forall r ensures r in Routers(xs, asn) <==> r in Routers(ys, asn) {
        RoutersFromFeed(xs, asn, r);
        RoutersFromFeed(ys, asn, r);
      }
      assert Routers(xs, asn) == Routers(ys, asn);
      forall r | r in Build(xs, asn)
        ensures SameNode(Build(xs, asn)[r], Build(ys, asn)[r])
      {
        PermutedNode(xs, ys, asn, r);
      }
    }
  }

  // ----- and it is needed

  /** The feed with two of its records taken out. */
  lemma TakeTwoOut(es: seq<TedElem>, i: nat, j: nat) returns (rest: seq<TedElem>)
    requires i < j < |es|
    ensures multiset(rest) + multiset{es[i], es[j]} == multiset(es)
  {
    rest := es[..i] + es[i + 1..j] + es[j + 1..];
    assert es == es[..i] + [es[i]] + es[i + 1..j] + [es[j]] + es[j + 1..];
  }

  lemma {:induction false} FirstPrefixStays(xs: seq<TedElem>, ys: seq<TedElem>, asn: u32, r: RouterId)
    ensures NodeOf(xs, asn, r).prefixes <= NodeOf(xs + ys, asn, r).prefixes
  {
    if ys == [] {
      assert xs + ys == xs;
    } else {
      assert (xs + ys)[..|xs + ys| - 1] == xs + ys[..|ys| - 1];
      FirstPrefixStays(xs, ys[..|ys| - 1], asn, r);
    }
  }

  lemma DifferentNodes(xs: seq<TedElem>, ys: seq<TedElem>, asn: u32, e: TedElem, r: RouterId)
    requires e in xs && r in Mentions(e, asn)
    requires !SameNode(NodeOf(xs, asn, r), NodeOf(ys, asn, r))
    ensures !SameTed(Build(xs, asn), Build(ys, asn))
  {
    RoutersFromFeed(xs, asn, r);
    BuildDescribed(xs, asn);
    BuildDescribed(ys, asn);
    if r in Build(ys, asn) {
      assert !SameNode(Build(xs, asn)[r], Build(ys, asn)[r]);
    }
  }

  lemma LastAttrsWin(rest: seq<TedElem>, asn: u32, r: RouterId, a: NodeAttrs, b: NodeAttrs)
    ensures NodeOf(rest + [NodeElem(asn, r, b), NodeElem(asn, r, a)], asn, r).attrs == a
  {
    var xs := rest + [NodeElem(asn, r, b), NodeElem(asn, r, a)];
    assert xs[|xs| - 1] == NodeElem(asn, r, a);
  }

  lemma FirstPrefixWins(rest: seq<TedElem>, asn: u32, r: RouterId, p: LsPrefix, q: LsPrefix)
    requires p.prefix == q.prefix && p != q
    ensures p in NodeOf([PrefixElem(asn, r, p), PrefixElem(asn, r, q)] + rest, asn, r).prefixes
    ensures q !in NodeOf([PrefixElem(asn, r, p), PrefixElem(asn, r, q)] + rest, asn, r).prefixes
  {
    var a, b := PrefixElem(asn, r, p), PrefixElem(asn, r, q);
    var xs := [a, b] + rest;
    assert xs == [a] + ([b] + rest);
    FirstPrefixStays([a], [b] + rest, asn, r);
    assert [a][..0] == [];
    assert NodeOf([a], asn, r).prefixes == [p];
    var ps := NodeOf(xs, asn, r).prefixes;
    assert ps[0] == p;
    PrefixesFromFeed(xs, asn, r);
  }

  lemma ContradictingNodes(asn: u32, r: RouterId, a: NodeAttrs, b: NodeAttrs, rest: seq<TedElem>)
    requires a != b
    ensures !SameTed(Build(rest + [NodeElem(asn, r, b), NodeElem(asn, r, a)], asn),
                     Build(rest + [NodeElem(asn, r, a), NodeElem(asn, r, b)], asn))
  {
    LastAttrsWin(rest, asn, r, a, b);
    LastAttrsWin(rest, asn, r, b, a);
    var xs := rest + [NodeElem(asn, r, b), NodeElem(asn, r, a)];
    assert xs[|rest| + 1] == NodeElem(asn, r, a);
    DifferentNodes(xs, rest + [NodeElem(asn, r, a), NodeElem(asn, r, b)], asn, NodeElem(asn, r, a), r);
  }

  lemma ContradictingPrefixes(asn: u32, r: RouterId, p: LsPrefix, q: LsPrefix, rest: seq<TedElem>)
    requires p.prefix == q.prefix && p != q
    ensures !SameTed(Build([PrefixElem(asn, r, p), PrefixElem(asn, r, q)] + rest, asn),
                     Build([PrefixElem(asn, r, q), PrefixElem(asn, r, p)] + rest, asn))
  {
    var xs := [PrefixElem(asn, r, p), PrefixElem(asn, r, q)] + rest;
    var ys := [PrefixElem(asn, r, q), PrefixElem(asn, r, p)] + rest;
    FirstPrefixWins(rest, asn, r, p, q);
    FirstPrefixWins(rest, asn, r, q, p);
    assert p in multiset(NodeOf(xs, asn, r).prefixes) && p !in multiset(NodeOf(ys, asn, r).prefixes);
    assert xs[0] == PrefixElem(asn, r, p);
    DifferentNodes(xs, ys, asn, PrefixElem(asn, r, p), r);
  }

  lemma ContradictionShows(a: TedElem, b: TedElem, rest: seq<TedElem>, asn: u32)
      returns (xs: seq<TedElem>, ys: seq<TedElem>)
    requires Contradict(a, b, asn)
    ensures multiset(xs) == multiset(ys) == multiset(rest) + multiset{a, b}
    ensures !SameTed(Build(xs, asn), Build(ys, asn))
  {
    if a.NodeElem? {
      xs, ys := rest + [b, a], rest + [a, b];
      ContradictingNodes(asn, a.id, a.attrs, b.attrs, rest);
    } else {
      xs, ys := [a, b] + rest, [b, a] + rest;
      ContradictingPrefixes(asn, a.id, a.prefix, b.prefix, rest);
    }
  }

  /** TED construction is confluent for a feed if and only if no two of its records contradict
      each other: repeated identical records do no harm. */
  lemma {:induction false} ConfluentExactlyWhenRecordsAgree(es: seq<TedElem>, asn: u32)
    ensures OrderFree(es, asn) <==> Agree(es, asn)
  {
    if Agree(es, asn) {
      AgreementIsEnough(es, asn);
    } else {
      var a, b :| a in es && b in es && Contradict(a, b, asn);
      var i :| 0 <= i < |es| && es[i] == a;
      var j :| 0 <= j < |es| && es[j] == b;
      var rest := TakeTwoOut(es, if i < j then i else j, if i < j then j else i);
      var xs, ys := ContradictionShows(a, b, rest, asn);
      assert multiset(xs) == multiset(es) && multiset(ys) == multiset(es);
      assert !SameTed(Build(xs, asn), Build(ys, asn));
    }
  }
}
