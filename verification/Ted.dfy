/** The traffic-engineering database as a value, and what one update does to it
    (pkg/table/ted.go). `TedObjects` has the objects that are updated in place. */
module Ted {
  import opened Bytes
  import opened Netip
  import opened Segments
  import opened Wrappers

  type RouterId = string

  datatype MetricType = Unspecified | Igp | Te | Delay | Hopcount

  datatype Metric = Metric(mtype: MetricType, value: u32)

  datatype SidStructure = SidStructure(block: byte, node: byte, func: byte, arg: byte)

  datatype EndXSid = EndXSid(behavior: u16, sids: seq<SidText>, structure: SidStructure)

  datatype LsLink = LsLink(
    local: RouterId, remote: RouterId, localIP: Addr, remoteIP: Addr,
    metrics: seq<Metric>, adjSid: u32, endX: Option<EndXSid>)

  datatype IpPrefix = IpPrefix(addr: Addr, bits: nat)

  datatype LsPrefix = LsPrefix(prefix: IpPrefix, sidIndex: u32, hasSidIndex: bool)

  datatype LsSrv6Sid = LsSrv6Sid(
    sids: seq<SidText>, behavior: u16, flags: byte, algorithm: byte,
    structure: SidStructure, multiTopoIds: seq<u32>)

  /** What a BGP-LS node record says about a router besides its key. */
  datatype NodeAttrs = NodeAttrs(hostname: string, area: string, srgbBegin: u32, srgbEnd: u32)

  const NO_ATTRS := NodeAttrs("", "", 0, 0)

  datatype LsNode = LsNode(
    asn: u32, id: RouterId, attrs: NodeAttrs,
    links: seq<LsLink>, prefixes: seq<LsPrefix>, sids: seq<LsSrv6Sid>)

  type Network = map<RouterId, LsNode>

  /** Keys name their node, every node is in the configured AS, a link hangs on its local node,
      its far end is in the map, and no node lists a prefix twice. */
  ghost predicate Closed(net: Network, asn: u32) {
    && (forall id | id in net :: net[id].id == id && net[id].asn == asn)
    && LinksClosed(net)
    && (forall id | id in net :: DistinctPrefixes(net[id].prefixes))
  }

  ghost predicate LinksClosed(net: Network) {
    forall id, l | id in net && l in net[id].links :: l.local == id && l.remote in net
  }

  ghost predicate DistinctPrefixes(ps: seq<LsPrefix>) {
    forall i, j | 0 <= i < j < |ps| :: ps[i].prefix != ps[j].prefix
  }

  /** `LsLink.Metric`: the first metric of the asked type. */
  function FirstMetric(ms: seq<Metric>, t: MetricType): Option<u32> {
    if ms == [] then None
    else if ms[0].mtype == t then Some(ms[0].value)
    else FirstMetric(ms[1..], t)
  }

  function LinkMetric(l: LsLink, t: MetricType): Option<u32> {
    FirstMetric(l.metrics, t)
  }

  datatype SidError = NoNodeSid | BadSidText

  function FirstPrefixSid(ps: seq<LsPrefix>): (r: Option<LsPrefix>)
    ensures r.Some? ==> r.value in ps && r.value.hasSidIndex
    ensures r.None? <==> forall p | p in ps :: !p.hasSidIndex
  {
    if ps == [] then None
    else if ps[0].hasSidIndex then Some(ps[0])
    else
      var r := FirstPrefixSid(ps[1..]);
      assert forall p :: p in ps <==> p == ps[0] || p in ps[1..];
      r
  }

  function FirstSrv6Sid(ss: seq<LsSrv6Sid>): (r: Option<LsSrv6Sid>)
    ensures r.Some? ==> r.value in ss && |r.value.sids| > 0
    ensures r.None? <==> forall s | s in ss :: |s.sids| == 0
  {
    if ss == [] then None
    else if |ss[0].sids| > 0 then Some(ss[0])
    else
      var r := FirstSrv6Sid(ss[1..]);
      assert forall s :: s in ss <==> s == ss[0] || s in ss[1..];
      r
  }

  /** `NewSegmentSRv6WithNodeInfo`: local address and structure come from the node's first SID. */
  function SegmentWithNodeInfo(sid: Addr, n: LsNode): Result<Segment, SidError> {
    match FirstSrv6Sid(n.sids)
    case None => Err(NoNodeSid)
    case Some(s) =>
      match ParseAddr(s.sids[0])
      case None => Err(BadSidText)
      case Some(local) =>
        var st := s.structure;
        Ok(SRv6(sid, local, Invalid, Some([st.block, st.node, st.func, st.arg]),
                s.behavior == BEHAVIOR_UN || s.behavior == BEHAVIOR_UA))
  }

  /** `LsNode.NodeSegment`: the first Prefix-SID wins over any SRv6 SID; the label sum is a
      32-bit addition. */
  function NodeSegment(n: LsNode): Result<Segment, SidError> {
    match FirstPrefixSid(n.prefixes)
    case Some(p) => Ok(NewSegmentSRMPLS(ToU32(n.attrs.srgbBegin + p.sidIndex)))
    case None =>
      match FirstSrv6Sid(n.sids)
      case None => Err(NoNodeSid)
      case Some(s) =>
        match ParseAddr(s.sids[0])
        case None => Err(BadSidText)
        case Some(a) => SegmentWithNodeInfo(a, n)
  }

  /** One record of the BGP-LS feed. */
  datatype TedElem =
    | NodeElem(asn: u32, id: RouterId, attrs: NodeAttrs)
    | LinkElem(localAsn: u32, remoteAsn: u32, link: LsLink)
    | PrefixElem(asn: u32, id: RouterId, prefix: LsPrefix)
    | SidElem(asn: u32, id: RouterId, sid: LsSrv6Sid)

  /** A router first heard of through a link, a prefix or a SID gets a bare node. */
  function WithStub(net: Network, asn: u32, id: RouterId): Network {
    if id in net then net else net[id := LsNode(asn, id, NO_ATTRS, [], [], [])]
  }

  /** The four `UpdateTED` methods. */
  function UpdateTED(net: Network, e: TedElem, cfgAsn: u32): Network {
    match e
    case NodeElem(asn, id, attrs) =>
      if asn != cfgAsn then net
      else if id in net then net[id := net[id].(attrs := attrs)]
      else net[id := LsNode(asn, id, attrs, [], [], [])]
    case LinkElem(localAsn, remoteAsn, l) =>
      if localAsn != cfgAsn || remoteAsn != cfgAsn then net
      else
        var n := WithStub(WithStub(net, localAsn, l.local), remoteAsn, l.remote);
        n[l.local := n[l.local].(links := n[l.local].links + [l])]
    case PrefixElem(asn, id, p) =>
      if asn != cfgAsn then net
      else
        var n := WithStub(net, asn, id);
        if exists q | q in n[id].prefixes :: q.prefix == p.prefix then n
        else n[id := n[id].(prefixes := n[id].prefixes + [p])]
    case SidElem(asn, id, s) =>
      if asn != cfgAsn then net
      else
        var n := WithStub(net, asn, id);
        n[id := n[id].(sids := n[id].sids + [s])]
  }

  /** `LsTED.Update`: a fold in arrival order. */
  function Update(net: Network, es: seq<TedElem>, cfgAsn: u32): Network {
    if es == [] then net else UpdateTED(Update(net, es[..|es| - 1], cfgAsn), es[|es| - 1], cfgAsn)
  }

  lemma UpdateOneMore(net: Network, es: seq<TedElem>, i: nat, cfgAsn: u32)
    requires i < |es|
    ensures Update(net, es[..i + 1], cfgAsn) == UpdateTED(Update(net, es[..i], cfgAsn), es[i], cfgAsn)
  {
    assert es[..i + 1][..i] == es[..i];
  }

  function Build(es: seq<TedElem>, cfgAsn: u32): Network {
    Update(map[], es, cfgAsn)
  }

  /** What closure asks of a single node. */
  ghost predicate NodeClosed(net: Network, n: LsNode, id: RouterId, asn: u32) {
    && n.id == id && n.asn == asn
    && (forall l | l in n.links :: l.local == id && l.remote in net)
    && DistinctPrefixes(n.prefixes)
  }

  lemma ClosedNodeByNode(net: Network, asn: u32)
    ensures Closed(net, asn) <==> forall id | id in net :: NodeClosed(net, net[id], id, asn)
  {
  }

  lemma PutKeepsClosed(net: Network, id: RouterId, n: LsNode, asn: u32)
    requires Closed(net, asn)
    requires NodeClosed(net[id := n], n, id, asn)
    ensures Closed(net[id := n], asn)
  {
    var net' := net[id := n];
    forall k | k in net' ensures NodeClosed(net', net'[k], k, asn) {
      if k != id {
        ClosedNodeByNode(net, asn);
        assert NodeClosed(net, net[k], k, asn);
      }
    }
    ClosedNodeByNode(net', asn);
  }

  lemma StubKeepsClosed(net: Network, asn: u32, id: RouterId)
    requires Closed(net, asn)
    ensures Closed(WithStub(net, asn, id), asn)
    ensures WithStub(net, asn, id).Keys == net.Keys + {id}
  {
    if id !in net {
      PutKeepsClosed(net, id, LsNode(asn, id, NO_ATTRS, [], [], []), asn);
    }
  }

  lemma {:induction false} UpdateKeepsClosed(net: Network, e: TedElem, cfgAsn: u32)
    requires Closed(net, cfgAsn)
    ensures Closed(UpdateTED(net, e, cfgAsn), cfgAsn)
  {
    match e
    case NodeElem(asn, id, attrs) =>
      if asn == cfgAsn {
        var n := if id in net then net[id].(attrs := attrs) else LsNode(asn, id, attrs, [], [], []);
        PutKeepsClosed(net, id, n, asn);
      }
    case LinkElem(localAsn, remoteAsn, l) =>
      if localAsn == cfgAsn && remoteAsn == cfgAsn {
        StubKeepsClosed(net, cfgAsn, l.local);
        var n1 := WithStub(net, cfgAsn, l.local);
        StubKeepsClosed(n1, cfgAsn, l.remote);
        var n2 := WithStub(n1, cfgAsn, l.remote);
        PutKeepsClosed(n2, l.local, n2[l.local].(links := n2[l.local].links + [l]), cfgAsn);
      }
    case PrefixElem(asn, id, p) =>
      if asn == cfgAsn {
        StubKeepsClosed(net, asn, id);
        var n := WithStub(net, asn, id);
        if !exists q | q in n[id].prefixes :: q.prefix == p.prefix {
          PutKeepsClosed(n, id, n[id].(prefixes := n[id].prefixes + [p]), asn);
        }
      }
    case SidElem(asn, id, s) =>
      if asn == cfgAsn {
        StubKeepsClosed(net, asn, id);
        var n := WithStub(net, asn, id);
        PutKeepsClosed(n, id, n[id].(sids := n[id].sids + [s]), asn);
      }
  }

  lemma {:induction false} UpdatesKeepClosed(net: Network, es: seq<TedElem>, cfgAsn: u32)
    requires Closed(net, cfgAsn)
    ensures Closed(Update(net, es, cfgAsn), cfgAsn)
  {
    if es != [] {
      UpdatesKeepClosed(net, es[..|es| - 1], cfgAsn);
      UpdateKeepsClosed(Update(net, es[..|es| - 1], cfgAsn), es[|es| - 1], cfgAsn);
    }
  }

  /** Whatever the feed sends and in whatever order, the TED it builds is closed. */
  lemma {:induction false} BuildIsClosed(es: seq<TedElem>, cfgAsn: u32)
    ensures Closed(Build(es, cfgAsn), cfgAsn)
  {
    UpdatesKeepClosed(map[], es, cfgAsn);
  }
}
