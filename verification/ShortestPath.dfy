/** How the path computation of pkg/cspf/cspf.go gets there: its table of nodes, one relaxation, and
    the invariant that settling a cheapest node keeps. */
module ShortestPath {
  import opened Bytes
  import opened Segments
  import opened Ted
  import opened Walks
  import opened Wrappers

  // ----- the table of the computation, and one relaxation

  datatype NodeState = NodeState(calculated: bool, cost: u32, prev: RouterId, seg: Segment)

  type Table = map<RouterId, NodeState>

  /** `uint32` addition. */
  function Add32(a: u32, b: u32): u32 {
    ToU32(a + b)
  }

  /** The body of the loop in `updateNeighborCosts`. */
  function RelaxLink(net: Network, s: Table, u: RouterId, l: LsLink, t: MetricType): Result<Table, SpfError>
    requires u in s && l.remote in net
  {
    match LinkMetric(l, t)
    case None => Err(MetricUndefined)
    case Some(m) =>
      var c := Add32(s[u].cost, m);
      if l.remote in s then
        if c < s[l.remote].cost then Ok(s[l.remote := s[l.remote].(cost := c, prev := u)]) else Ok(s)
      else
        match NodeSegment(net[l.remote])
        case Err(e) => Err(NoSegment(e))
        case Ok(seg) => Ok(s[l.remote := NodeState(false, c, u, seg)])
  }

  /** The whole loop, up to the first error. */
  function RelaxLinks(net: Network, s: Table, u: RouterId, ls: seq<LsLink>, t: MetricType): Result<Table, SpfError>
    requires u in s && forall l | l in ls :: l.remote in net
    decreases |ls|
  {
    if ls == [] then Ok(s)
    else
      match RelaxLink(net, s, u, ls[0], t)
      case Err(e) => Err(e)
      case Ok(s') => RelaxLinks(net, s', u, ls[1..], t)
  }

  // ----- the order in which nodes are settled

  ghost function Rank(order: seq<RouterId>, v: RouterId): (r: nat)
    ensures r <= |order| && (r < |order| <==> v in order) && (v in order ==> order[r] == v)
  {
    if order == [] then 0 else if order[0] == v then 0 else 1 + Rank(order[1..], v)
  }

  lemma {:induction false} RankSnoc(order: seq<RouterId>, u: RouterId, v: RouterId)
    requires u !in order
    ensures Rank(order + [u], v) == if v in order then Rank(order, v) else if v == u then |order| else |order| + 1
  {
    if order == [] {
      assert (order + [u])[1..] == [];
    } else {
      assert (order + [u])[1..] == order[1..] + [u];
      if order[0] != v {
        RankSnoc(order[1..], u, v);
      }
    }
  }

  // ----- the invariant, part by part

  ghost predicate Shape(net: Network, src: RouterId, s: Table, order: seq<RouterId>) {
    && s.Keys <= net.Keys && src in s && s[src].cost == 0
    && (forall v | v in order :: v in s)
    && (forall v | v in s :: s[v].calculated <==> v in order)
    && (forall i, j | 0 <= i < j < |order| :: order[i] != order[j])
  }

  /** The back-pointer of `v` names a node settled earlier, one link away, at the right cost. */
  ghost predicate Back(net: Network, t: MetricType, s: Table, order: seq<RouterId>, v: RouterId)
    requires v in s
  {
    var w := s[v].prev;
    && w in order && w in s && w in net && Rank(order, w) < Rank(order, v)
    && exists l | l in net[w].links :: Joins(l, t, s, w, v)
  }

  predicate Joins(l: LsLink, t: MetricType, s: Table, w: RouterId, v: RouterId)
    requires w in s && v in s
  {
    l.remote == v && LinkMetric(l, t).Some? && s[v].cost == s[w].cost + LinkCost(l, t)
  }

  ghost predicate Backs(net: Network, t: MetricType, src: RouterId, s: Table, order: seq<RouterId>) {
    forall v | v in s && v != src :: Back(net, t, s, order, v)
  }

  ghost predicate HasSegments(net: Network, s: Table) {
    forall v | v in s :: v in net && NodeSegment(net[v]) == Ok(s[v].seg)
  }

  /** A link out of `w` has been taken into account. */
  predicate Relaxed(l: LsLink, t: MetricType, s: Table, w: RouterId)
    requires w in s
  {
    LinkMetric(l, t).Some? && l.remote in s && s[l.remote].cost <= s[w].cost + LinkCost(l, t)
  }

  ghost predicate SettledRelaxed(net: Network, t: MetricType, s: Table, order: seq<RouterId>) {
    forall w, l | w in order && w in net && l in net[w].links :: w in s && Relaxed(l, t, s, w)
  }

  ghost predicate SettledFirst(s: Table, order: seq<RouterId>) {
    forall w, v | w in order && w in s && v in s && v !in order :: s[w].cost <= s[v].cost
  }

  ghost predicate Inv(net: Network, t: MetricType, src: RouterId, s: Table, order: seq<RouterId>) {
    && Shape(net, src, s, order) && Backs(net, t, src, s, order) && HasSegments(net, s)
    && SettledRelaxed(net, t, s, order) && SettledFirst(s, order)
  }

  /** The 32-bit sum wraps, and it is the cost that the relaxation writes down. */
  predicate StoresWrapped(s: Table, u: RouterId, l: LsLink, t: MetricType)
    requires u in s
  {
    match LinkMetric(l, t)
    case None => false
    case Some(m) =>
      && s[u].cost as nat + m >= 0x1_0000_0000
      && (l.remote in s ==> Add32(s[u].cost, m) < s[l.remote].cost)
  }

  /** No relaxation of these links writes a wrapped sum. */
  predicate KeepsSums(net: Network, s: Table, u: RouterId, ls: seq<LsLink>, t: MetricType)
    requires u in s && forall l | l in ls :: l.remote in net
    decreases |ls|
  {
    ls == [] ||
    (!StoresWrapped(s, u, ls[0], t) &&
     (RelaxLink(net, s, u, ls[0], t).Ok? ==> KeepsSums(net, RelaxLink(net, s, u, ls[0], t).value, u, ls[1..], t)))
  }

  lemma {:induction false} RelaxingSettlesNothing(net: Network, s: Table, u: RouterId, ls: seq<LsLink>, t: MetricType)
    requires u in s && forall l | l in ls :: l.remote in net
    ensures forall s' | RelaxLinks(net, s, u, ls, t) == Ok(s') ::
              s.Keys <= s'.Keys && forall v | v in s :: s'[v].calculated == s[v].calculated
    decreases |ls|
  {
    if ls != [] && RelaxLink(net, s, u, ls[0], t).Ok? {
      RelaxingSettlesNothing(net, RelaxLink(net, s, u, ls[0], t).value, u, ls[1..], t);
    }
  }

  /** While node `u` is being expanded: `Inv`, with back-pointers that may also name `u`. */
  ghost predicate Expanding(net: Network, t: MetricType, src: RouterId, s: Table, order: seq<RouterId>,
                            u: RouterId, done: seq<LsLink>) {
    && Shape(net, src, s, order) && Backs(net, t, src, s, order + [u]) && HasSegments(net, s)
    && SettledRelaxed(net, t, s, order) && SettledFirst(s, order + [u])
    && u in s && u !in order && (forall w | w in order :: s[w].cost <= s[u].cost)
    && (forall l | l in done :: Relaxed(l, t, s, u))
  }

  /** A cheapest node that is not settled. */
  ghost predicate IsNext(s: Table, u: RouterId) {
    u in s && !s[u].calculated && forall v | v in s && !s[v].calculated :: s[u].cost <= s[v].cost
  }

  lemma InitialTable(net: Network, t: MetricType, src: RouterId, seg: Segment)
    requires src in net && NodeSegment(net[src]) == Ok(seg)
    ensures Inv(net, t, src, map[src := NodeState(false, 0, "", seg)], [])
  {
  }

  lemma BacksSnoc(net: Network, t: MetricType, src: RouterId, s: Table, order: seq<RouterId>, u: RouterId)
    requires Backs(net, t, src, s, order) && u !in order
    ensures Backs(net, t, src, s, order + [u])
  {
    forall v | v in s && v != src ensures Back(net, t, s, order + [u], v) {
      assert Back(net, t, s, order, v);
      RankSnoc(order, u, v);
      RankSnoc(order, u, s[v].prev);
    }
  }

  lemma {:induction false} StartExpanding(net: Network, t: MetricType, src: RouterId, s: Table, order: seq<RouterId>, u: RouterId)
    requires Inv(net, t, src, s, order) && IsNext(s, u)
    ensures Expanding(net, t, src, s, order, u, [])
  {
    BacksSnoc(net, t, src, s, order, u);
  }

  /** What a successful relaxation does: nothing, or one node that is not settled gets a cost
      that is not below that of `u`. */
  ghost predicate Relaxation(net: Network, t: MetricType, s: Table, s': Table, order: seq<RouterId>, u: RouterId, l: LsLink)
    requires u in s
  {
    var r := l.remote;
    && LinkMetric(l, t).Some? && r in net && r in s'
    && s'.Keys == s.Keys + {r}
    && (forall v | v in s && v != r :: s'[v] == s[v])
    && ((s' == s && r in s && s[r].cost <= s[u].cost + LinkCost(l, t))
        || (r != u && r !in order && NodeSegment(net[r]) == Ok(s'[r].seg) && !s'[r].calculated
            && s'[r].prev == u && s'[r].cost == s[u].cost + LinkCost(l, t)
            && (r in s ==> s'[r].cost < s[r].cost)))
  }

  /** A sum that is not written is not smaller than the cost that stays, wrapped or not. */
  lemma {:induction false} UnwrittenSumRelaxes(net: Network, t: MetricType, s: Table, order: seq<RouterId>, u: RouterId, l: LsLink, m: nat)
    requires u in s && l.remote in net && l.remote in s && LinkMetric(l, t) == Some(m) && Add32(s[u].cost, m) >= s[l.remote].cost
    ensures RelaxLink(net, s, u, l, t) == Ok(s) && Relaxation(net, t, s, s, order, u, l)
  {
    assert Add32(s[u].cost, m) <= s[u].cost + m;
  }

  /** A sum that is written and did not wrap goes to a node that is not settled. */
  lemma {:induction false} WrittenSumRelaxes(net: Network, t: MetricType, src: RouterId, s: Table, s': Table, order: seq<RouterId>,
                                             u: RouterId, l: LsLink, m: nat)
    requires Shape(net, src, s, order) && HasSegments(net, s) && u in s && forall w | w in order :: s[w].cost <= s[u].cost
    requires l.remote in net && LinkMetric(l, t) == Some(m) && s[u].cost + m < 0x1_0000_0000
    requires l.remote in s ==> s[u].cost + m < s[l.remote].cost
    requires RelaxLink(net, s, u, l, t) == Ok(s')
    ensures Relaxation(net, t, s, s', order, u, l)
  {
    assert Add32(s[u].cost, m) == s[u].cost + m;
  }

  lemma {:induction false} RelaxLinkRelaxes(net: Network, t: MetricType, src: RouterId, s: Table, s': Table, order: seq<RouterId>, u: RouterId, l: LsLink)
    requires Shape(net, src, s, order) && HasSegments(net, s) && u in s && forall w | w in order :: s[w].cost <= s[u].cost
    requires l.remote in net && !StoresWrapped(s, u, l, t) && RelaxLink(net, s, u, l, t) == Ok(s')
    ensures Relaxation(net, t, s, s', order, u, l)
  {
    var m := LinkCost(l, t);
    if l.remote in s && Add32(s[u].cost, m) >= s[l.remote].cost {
      UnwrittenSumRelaxes(net, t, s, order, u, l, m);
    } else {
      assert Add32(s[u].cost, m) == s[u].cost + m;
      WrittenSumRelaxes(net, t, src, s, s', order, u, l, m);
    }
  }

  lemma RelaxationKeepsBacks(net: Network, t: MetricType, src: RouterId, s: Table, s': Table, order: seq<RouterId>,
                             u: RouterId, l: LsLink)
    requires u in s && u !in order && u in net && l in net[u].links
    requires Backs(net, t, src, s, order + [u]) && Relaxation(net, t, s, s', order, u, l)
    requires src in s && s[src].cost == 0
    ensures Backs(net, t, src, s', order + [u])
    ensures s'[src] == s[src]
  {
    forall v | v in s' && v != src ensures Back(net, t, s', order + [u], v) {
      RankSnoc(order, u, u);
      RankSnoc(order, u, l.remote);
      if v == l.remote && s' != s {
        assert Joins(l, t, s', u, v);
      } else {
        assert Back(net, t, s, order + [u], v);
        var k :| k in net[s[v].prev].links && Joins(k, t, s, s[v].prev, v);
        assert Joins(k, t, s', s[v].prev, v);
      }
    }
  }

  lemma RelaxationKeepsSettled(net: Network, t: MetricType, s: Table, s': Table, order: seq<RouterId>, u: RouterId, l: LsLink)
    requires u in s && u !in order && Relaxation(net, t, s, s', order, u, l)
    requires SettledRelaxed(net, t, s, order) && SettledFirst(s, order + [u])
    requires forall w | w in order :: w in s && s[w].cost <= s[u].cost
    ensures SettledRelaxed(net, t, s', order) && SettledFirst(s', order + [u])
  {
    forall w, k | w in order && w in net && k in net[w].links ensures w in s' && Relaxed(k, t, s', w) {
      assert Relaxed(k, t, s, w);
    }
  }

  lemma RelaxationKeepsTable(net: Network, t: MetricType, src: RouterId, s: Table, s': Table, order: seq<RouterId>,
                             u: RouterId, l: LsLink)
    requires u in s && Relaxation(net, t, s, s', order, u, l)
    requires Shape(net, src, s, order) && HasSegments(net, s)
    ensures Shape(net, src, s', order) && HasSegments(net, s')
  {
  }

  lemma RelaxationKeepsDone(net: Network, t: MetricType, s: Table, s': Table, order: seq<RouterId>,
                            u: RouterId, done: seq<LsLink>, l: LsLink)
    requires u in s && Relaxation(net, t, s, s', order, u, l)
    requires forall k | k in done :: Relaxed(k, t, s, u)
    ensures forall k | k in done + [l] :: Relaxed(k, t, s', u)
  {
    forall k | k in done + [l] ensures Relaxed(k, t, s', u) {
      if k in done {
        assert Relaxed(k, t, s, u);
      }
    }
  }

  lemma {:induction false} RelaxationKeepsExpanding(net: Network, t: MetricType, src: RouterId, s: Table, s': Table, order: seq<RouterId>,
                                 u: RouterId, done: seq<LsLink>, l: LsLink)
    requires Expanding(net, t, src, s, order, u, done)
    requires u in net && l in net[u].links && Relaxation(net, t, s, s', order, u, l)
    ensures Expanding(net, t, src, s', order, u, done + [l])
  {
    RelaxationKeepsTable(net, t, src, s, s', order, u, l);
    RelaxationKeepsBacks(net, t, src, s, s', order, u, l);
    RelaxationKeepsSettled(net, t, s, s', order, u, l);
    RelaxationKeepsDone(net, t, s, s', order, u, done, l);
    assert s'[u] == s[u] && forall w | w in order :: s'[w] == s[w];
  }

  lemma {:induction false} RelaxLinkKeepsExpanding(net: Network, t: MetricType, src: RouterId, s: Table, order: seq<RouterId>,
                                u: RouterId, done: seq<LsLink>, l: LsLink)
    requires u in s && u in net && l in net[u].links && l.remote in net && !StoresWrapped(s, u, l, t)
    ensures forall s' | Expanding(net, t, src, s, order, u, done) && RelaxLink(net, s, u, l, t) == Ok(s') ::
              Expanding(net, t, src, s', order, u, done + [l])
  {
    forall s' | Expanding(net, t, src, s, order, u, done) && RelaxLink(net, s, u, l, t) == Ok(s')
      ensures Expanding(net, t, src, s', order, u, done + [l])
    {
      RelaxLinkRelaxes(net, t, src, s, s', order, u, l);
      RelaxationKeepsExpanding(net, t, src, s, s', order, u, done, l);
    }
  }

  /** Expanding a node link by link. */
  lemma {:induction false} RelaxLinksKeepsExpanding(net: Network, t: MetricType, src: RouterId, s: Table, order: seq<RouterId>,
                                                    u: RouterId, done: seq<LsLink>, ls: seq<LsLink>)
    requires u in net && u in s
    requires forall l | l in ls :: l in net[u].links && l.remote in net
    requires KeepsSums(net, s, u, ls, t)
    ensures forall s' | Expanding(net, t, src, s, order, u, done) && RelaxLinks(net, s, u, ls, t) == Ok(s') ::
              Expanding(net, t, src, s', order, u, done + ls)
    decreases |ls|
  {
    if ls == [] {
      assert done + ls == done;
    } else if RelaxLink(net, s, u, ls[0], t).Ok? {
      RelaxLinkKeepsExpanding(net, t, src, s, order, u, done, ls[0]);
      RelaxLinksKeepsExpanding(net, t, src, RelaxLink(net, s, u, ls[0], t).value, order, u, done + [ls[0]], ls[1..]);
      assert done + [ls[0]] + ls[1..] == done + ls;
    }
  }

  /** The sum fits, or the far end already costs no more than what is left of it. */
  predicate Covered(s: Table, u: RouterId, l: LsLink, t: MetricType)
    requires u in s
  {
    || s[u].cost + LinkCost(l, t) < 0x1_0000_0000
    || (l.remote in s && s[l.remote].cost + 0x1_0000_0000 <= s[u].cost + LinkCost(l, t))
  }

  /** Nodes stay, `u` at its cost, and no cost rises. */
  predicate Lowered(s: Table, s': Table, u: RouterId) {
    && u in s && u in s' && s'[u].cost == s[u].cost
    && forall v | v in s :: v in s' && s'[v].cost <= s[v].cost
  }

  lemma {:induction false} LoweredStaysCovered(s: Table, s': Table, u: RouterId, l: LsLink, t: MetricType)
    requires Lowered(s, s', u) && Covered(s, u, l, t)
    ensures Covered(s', u, l, t)
  {
  }

  lemma {:induction false} CoveredIsNotStored(net: Network, t: MetricType, s: Table, u: RouterId, l: LsLink)
    requires u in s && l.remote in net && RelaxLink(net, s, u, l, t).Ok?
    ensures Covered(s, u, l, t) ==> !StoresWrapped(s, u, l, t)
    ensures !StoresWrapped(s, u, l, t) ==> Lowered(s, RelaxLink(net, s, u, l, t).value, u) && Covered(RelaxLink(net, s, u, l, t).value, u, l, t)
  {
    var sum := s[u].cost + LinkCost(l, t);
    assert Add32(s[u].cost, LinkCost(l, t)) == if sum < 0x1_0000_0000 then sum else sum - 0x1_0000_0000;
  }

  /** Where every sum is covered, none that wraps is written. */
  lemma {:induction false} CoveredKeepsSums(net: Network, t: MetricType, s: Table, u: RouterId, ls: seq<LsLink>)
    requires u in s && forall l | l in ls :: l.remote in net && Covered(s, u, l, t)
    ensures KeepsSums(net, s, u, ls, t)
    decreases |ls|
  {
    if ls != [] {
      assert ls[0] in ls;
      if RelaxLink(net, s, u, ls[0], t).Ok? {
        var s' := RelaxLink(net, s, u, ls[0], t).value;
        CoveredIsNotStored(net, t, s, u, ls[0]);
        forall l | l in ls[1..]
          ensures Covered(s', u, l, t)
        {
          LoweredStaysCovered(s, s', u, l, t);
        }
        CoveredKeepsSums(net, t, s', u, ls[1..]);
      }
    }
  }

  /** And conversely, when all links have been relaxed. */
  lemma {:induction false} KeptSumsAreCovered(net: Network, t: MetricType, s: Table, u: RouterId, ls: seq<LsLink>)
    requires u in s && forall l | l in ls :: l.remote in net
    requires KeepsSums(net, s, u, ls, t) && RelaxLinks(net, s, u, ls, t).Ok?
    ensures var s' := RelaxLinks(net, s, u, ls, t).value; Lowered(s, s', u) && forall l | l in ls :: Covered(s', u, l, t)
    decreases |ls|
  {
    if ls != [] {
      var s1, s' := RelaxLink(net, s, u, ls[0], t).value, RelaxLinks(net, s, u, ls, t).value;
      CoveredIsNotStored(net, t, s, u, ls[0]);
      KeptSumsAreCovered(net, t, s1, u, ls[1..]);
      LoweredStaysCovered(s1, s', u, ls[0], t);
      assert forall l | l in ls :: l == ls[0] || l in ls[1..];
    }
  }

  // ----- settling a node

  function Settle(s: Table, u: RouterId): Table
    requires u in s
  {
    s[u := s[u].(calculated := true)]
  }

  lemma SettleKeepsBacks(net: Network, t: MetricType, src: RouterId, s: Table, order: seq<RouterId>, u: RouterId)
    requires u in s && Backs(net, t, src, s, order)
    ensures Backs(net, t, src, Settle(s, u), order)
  {
    var s' := Settle(s, u);
    forall v | v in s' && v != src ensures Back(net, t, s', order, v) {
      assert Back(net, t, s, order, v);
      var k :| k in net[s[v].prev].links && Joins(k, t, s, s[v].prev, v);
      assert Joins(k, t, s', s[v].prev, v);
    }
  }

  lemma SettleRelaxed(net: Network, t: MetricType, s: Table, order: seq<RouterId>, u: RouterId)
    requires u in s && u in net && SettledRelaxed(net, t, s, order)
    requires forall l | l in net[u].links :: Relaxed(l, t, s, u)
    ensures SettledRelaxed(net, t, Settle(s, u), order + [u])
  {
    var s' := Settle(s, u);
    forall w, k | w in order + [u] && w in net && k in net[w].links ensures w in s' && Relaxed(k, t, s', w) {
      assert Relaxed(k, t, s, w);
    }
  }

  lemma SettleKeepsTable(net: Network, src: RouterId, s: Table, order: seq<RouterId>, u: RouterId)
    requires Shape(net, src, s, order) && HasSegments(net, s) && u in s && u !in order
    ensures Shape(net, src, Settle(s, u), order + [u]) && HasSegments(net, Settle(s, u))
  {
  }

  lemma SettleKeepsOrder(s: Table, order: seq<RouterId>, u: RouterId)
    requires u in s && SettledFirst(s, order)
    ensures SettledFirst(Settle(s, u), order)
  {
  }

  /** Once all links of `u` are relaxed, `u` is settled. */
  lemma {:induction false} FinishExpanding(net: Network, t: MetricType, src: RouterId, s: Table, order: seq<RouterId>, u: RouterId)
    requires u in net && Expanding(net, t, src, s, order, u, net[u].links)
    ensures Inv(net, t, src, Settle(s, u), order + [u])
  {
    SettleKeepsTable(net, src, s, order, u);
    SettleKeepsBacks(net, t, src, s, order + [u], u);
    SettleRelaxed(net, t, s, order, u);
    SettleKeepsOrder(s, order + [u], u);
  }

  /** One round of the computation keeps the invariant, with one more node settled. */
  lemma {:induction false} ExpandKeepsInv(net: Network, t: MetricType, src: RouterId, s: Table, order: seq<RouterId>, u: RouterId)
    requires LinksClosed(net) && u in net && Inv(net, t, src, s, order) && IsNext(s, u)
    requires KeepsSums(net, s, u, net[u].links, t)
    ensures forall s' | RelaxLinks(net, s, u, net[u].links, t) == Ok(s') ::
              u in s' && Inv(net, t, src, Settle(s', u), order + [u])
  {
    StartExpanding(net, t, src, s, order, u);
    RelaxLinksKeepsExpanding(net, t, src, s, order, u, [], net[u].links);
    assert [] + net[u].links == net[u].links;
    forall s' | RelaxLinks(net, s, u, net[u].links, t) == Ok(s')
      ensures u in s' && Inv(net, t, src, Settle(s', u), order + [u])
    {
      FinishExpanding(net, t, src, s', order, u);
    }
  }

  // ----- what the table says when the computation ends

  /** Some node that is not settled costs no more than `cost`. */
  ghost predicate Waiting(s: Table, order: seq<RouterId>, cost: nat) {
    exists y :: y in s && y !in order && s[y].cost <= cost
  }

  /** A walk either ends in a settled node that costs no more, or has passed a waiting one. */
  lemma {:induction false} WalksAreBounded(net: Network, t: MetricType, src: RouterId, s: Table, order: seq<RouterId>,
                                           p: seq<LsLink>, x: RouterId)
    requires Shape(net, src, s, order) && SettledRelaxed(net, t, s, order) && SettledFirst(s, order)
    requires IsWalk(net, src, p, x)
    ensures (x in order && s[x].cost <= Cost(p, t)) || (x !in order && Waiting(s, order, Cost(p, t)))
    decreases |p|
  {
    if p == [] {
      if x !in order {
        assert x in s && s[x].cost <= 0;
      }
    } else {
      var l := p[|p| - 1];
      WalksAreBounded(net, t, src, s, order, p[..|p| - 1], l.local);
      if l.local in order {
        assert Relaxed(l, t, s, l.local);
        if x !in order {
          assert x in s && s[x].cost <= Cost(p, t);
        }
      } else {
        var y :| y in s && y !in order && s[y].cost <= Cost(p[..|p| - 1], t);
        assert s[y].cost <= Cost(p, t);
      }
    }
  }

  /** Link `i` of `p` enters a node of the table from the node its back-pointer names, where the
      link before ends. */
  predicate FollowsAt(src: RouterId, s: Table, p: seq<LsLink>, i: nat)
    requires i < |p|
  {
    && p[i].remote in s && p[i].remote != src && s[p[i].remote].prev == p[i].local
    && p[i].local == StartOf(src, p, i)
  }

  /** The links of `p` follow back-pointers, from the source to `v`. */
  ghost predicate Follows(src: RouterId, s: Table, p: seq<LsLink>, v: RouterId) {
    v == StartOf(src, p, |p|) && forall i: nat | i < |p| :: FollowsAt(src, s, p, i)
  }

  ghost predicate IsBackWalk(net: Network, t: MetricType, src: RouterId, s: Table, order: seq<RouterId>,
                             p: seq<LsLink>, v: RouterId)
    requires v in s
  {
    && IsWalk(net, src, p, v) && Cost(p, t) == s[v].cost && Follows(src, s, p, v)
    && (forall l | l in p :: LinkMetric(l, t).Some? && Rank(order, l.remote) <= Rank(order, v))
    && (forall i, j | 0 <= i < j < |p| :: Rank(order, p[i].remote) < Rank(order, p[j].remote))
  }

  lemma ExtendRanks(order: seq<RouterId>, t: MetricType, init: seq<LsLink>, l: LsLink)
    requires forall k | k in init :: Rank(order, k.remote) <= Rank(order, l.local)
    requires forall i, j | 0 <= i < j < |init| :: Rank(order, init[i].remote) < Rank(order, init[j].remote)
    requires Rank(order, l.local) < Rank(order, l.remote)
    ensures var p := init + [l]; forall i, j | 0 <= i < j < |p| :: Rank(order, p[i].remote) < Rank(order, p[j].remote)
    ensures forall k | k in init + [l] :: Rank(order, k.remote) <= Rank(order, l.remote)
  {
    var p := init + [l];
    forall i, j | 0 <= i < j < |p| ensures Rank(order, p[i].remote) < Rank(order, p[j].remote) {
      assert init[i] in init;
    }
  }

  lemma {:induction false} ExtendFollows(src: RouterId, s: Table, init: seq<LsLink>, l: LsLink)
    requires Follows(src, s, init, l.local)
    requires l.remote in s && l.remote != src && l.local == s[l.remote].prev
    ensures Follows(src, s, init + [l], l.remote)
  {
    forall i: nat | i < |init + [l]|
      ensures FollowsAt(src, s, init + [l], i)
    {
      if i < |init| {
        assert FollowsAt(src, s, init, i);
      }
    }
  }

  lemma ExtendBackWalk(net: Network, t: MetricType, src: RouterId, s: Table, order: seq<RouterId>,
                       init: seq<LsLink>, l: LsLink, v: RouterId)
    requires v in s && v != src && l.local in s && l.local in net && l in net[l.local].links
    requires Joins(l, t, s, l.local, v) && s[v].prev == l.local && Rank(order, l.local) < Rank(order, v)
    requires IsBackWalk(net, t, src, s, order, init, l.local)
    ensures IsBackWalk(net, t, src, s, order, init + [l], v)
  {
    OneMoreLink(net, t, src, init, l);
    ExtendRanks(order, t, init, l);
    ExtendFollows(src, s, init, l);
  }

  lemma {:induction false} BackWalkIsProper(net: Network, t: MetricType, src: RouterId, s: Table, order: seq<RouterId>, p: seq<LsLink>, v: RouterId)
    requires v in s && IsBackWalk(net, t, src, s, order, p, v)
    ensures IsProperPath(p, src, t)
  {
    forall l | l in p
      ensures l.remote != src
    {
      var i: nat :| i < |p| && p[i] == l;
      assert FollowsAt(src, s, p, i);
    }
  }

  /** Following back-pointers from a node of the table leads to the source. */
  lemma {:induction false} BackWalk(net: Network, t: MetricType, src: RouterId, s: Table, order: seq<RouterId>, v: RouterId)
      returns (p: seq<LsLink>)
    requires LinksClosed(net) && v in s
    requires Shape(net, src, s, order) && Backs(net, t, src, s, order)
    ensures IsBackWalk(net, t, src, s, order, p, v) && IsProperPath(p, src, t)
    decreases Rank(order, v)
  {
    if v == src {
      p := [];
    } else {
      assert Back(net, t, s, order, v);
      var w := s[v].prev;
      var l :| l in net[w].links && Joins(l, t, s, w, v);
      var init := BackWalk(net, t, src, s, order, w);
      ExtendBackWalk(net, t, src, s, order, init, l, v);
      p := init + [l];
    }
    BackWalkIsProper(net, t, src, s, order, p, v);
  }

  /** A cheapest node that is not settled has its shortest path in the back-pointers. */
  lemma {:induction false} NextIsShortest(net: Network, t: MetricType, src: RouterId, s: Table, order: seq<RouterId>, dst: RouterId)
      returns (p: seq<LsLink>)
    requires LinksClosed(net) && IsNext(s, dst)
    requires Shape(net, src, s, order) && Backs(net, t, src, s, order)
    requires SettledRelaxed(net, t, s, order) && SettledFirst(s, order)
    ensures IsShortest(net, t, src, dst, p) && Follows(src, s, p, dst) && Cost(p, t) == s[dst].cost
  {
    p := BackWalk(net, t, src, s, order, dst);
    forall q | IsWalk(net, src, q, dst) ensures Cost(p, t) <= Cost(q, t) {
      WalksAreBounded(net, t, src, s, order, q, dst);
      var y :| y in s && y !in order && s[y].cost <= Cost(q, t);
    }
  }

  /** When every node of the table is settled, the table has every reachable node. */
  lemma AllSettledMeansUnreachable(net: Network, t: MetricType, src: RouterId, s: Table, order: seq<RouterId>, dst: RouterId)
    requires Shape(net, src, s, order) && SettledRelaxed(net, t, s, order) && SettledFirst(s, order)
    requires (forall v | v in s :: s[v].calculated) && dst !in order
    ensures !Reachable(net, src, dst)
  {
    if p :| IsWalk(net, src, p, dst) {
      WalksAreBounded(net, t, src, s, order, p, dst);
    }
  }

  lemma TableIsReachable(net: Network, t: MetricType, src: RouterId, s: Table, order: seq<RouterId>, v: RouterId)
    requires LinksClosed(net) && v in s && Shape(net, src, s, order) && Backs(net, t, src, s, order)
    ensures Reachable(net, src, v)
  {
    var p := BackWalk(net, t, src, s, order, v);
  }

  /** A relaxation fails at a reachable node, for the reason it reports. */
  lemma {:induction false} RelaxLinksFails(net: Network, t: MetricType, s: Table, u: RouterId, ls: seq<LsLink>)
    requires u in s && forall l | l in ls :: l.remote in net
    requires RelaxLinks(net, s, u, ls, t).Err?
    ensures match RelaxLinks(net, s, u, ls, t).error
            case NextNodeNotFound => false
            case MetricUndefined => exists l | l in ls :: LinkMetric(l, t).None?
            case NoSegment(e) => exists l | l in ls :: NodeSegment(net[l.remote]) == Err(e)
    decreases |ls|
  {
    if RelaxLink(net, s, u, ls[0], t).Ok? {
      RelaxLinksFails(net, t, RelaxLink(net, s, u, ls[0], t).value, u, ls[1..]);
    } else {
      assert ls[0] in ls;
    }
  }

  lemma OneLinkFurther(net: Network, src: RouterId, u: RouterId, l: LsLink)
    requires LinksClosed(net) && u in net && l in net[u].links && Reachable(net, src, u)
    ensures Reachable(net, src, l.remote)
  {
    var p :| IsWalk(net, src, p, u);
    OneMoreLink(net, Igp, src, p, l);
  }

  /** An error met while expanding `u` is one the caller may conclude from. */
  lemma ExpansionError(net: Network, t: MetricType, src: RouterId, dst: RouterId, s: Table, u: RouterId, e: SpfError)
    requires LinksClosed(net) && u in net && u in s && Reachable(net, src, u)
    requires forall l | l in net[u].links :: l.remote in net
    requires RelaxLinks(net, s, u, net[u].links, t) == Err(e)
    ensures SpfSpec(net, t, src, dst, Err(e))
  {
    RelaxLinksFails(net, t, s, u, net[u].links);
    if e.NoSegment? {
      var l :| l in net[u].links && NodeSegment(net[l.remote]) == Err(e.sidError);
      OneLinkFurther(net, src, u, l);
    }
  }
}
