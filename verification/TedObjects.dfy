/** The TED as the program keeps it: node objects in a map, links and SIDs that point back at
    them, all updated in place (pkg/table/ted.go). Each method is proved against `Ted`. */
module TedObjects {
  import opened Bytes
  import opened Netip
  import opened Ted
  import opened Wrappers

  class Node {
    const asn: u32
    const id: RouterId
    var isisAreaID: string
    var hostname: string
    var srgbBegin: u32
    var srgbEnd: u32
    var links: seq<Link>
    var prefixes: seq<LsPrefix>
    var srv6SIDs: seq<Srv6Sid>

    /** `NewLsNode`. */
    constructor (asn: u32, id: RouterId)
      ensures this.asn == asn && this.id == id && Attrs() == NO_ATTRS
      ensures links == [] && prefixes == [] && srv6SIDs == []
    {
      this.asn, this.id := asn, id;
      isisAreaID, hostname, srgbBegin, srgbEnd := "", "", 0, 0;
      links, prefixes, srv6SIDs := [], [], [];
    }

    function Attrs(): NodeAttrs
      reads this
    {
      NodeAttrs(hostname, isisAreaID, srgbBegin, srgbEnd)
    }

    method AddLink(link: Link)
      modifies this`links
      ensures links == old(links) + [link]
    {
      links := links + [link];
    }

    method AddSrv6SID(s: Srv6Sid)
      modifies this`srv6SIDs
      ensures srv6SIDs == old(srv6SIDs) + [s]
    {
      srv6SIDs := srv6SIDs + [s];
    }
  }

  class Link {
    var localNode: Node
    var remoteNode: Node
    const localIP: Addr
    const remoteIP: Addr
    const metrics: seq<Metric>
    const adjSid: u32
    const srv6EndXSID: Option<EndXSid>

    constructor (localNode: Node, remoteNode: Node, rest: LsLink)
      ensures View() == rest.(local := localNode.id, remote := remoteNode.id)
      ensures this.localNode == localNode && this.remoteNode == remoteNode
    {
      this.localNode, this.remoteNode := localNode, remoteNode;
      localIP, remoteIP, metrics := rest.localIP, rest.remoteIP, rest.metrics;
      adjSid, srv6EndXSID := rest.adjSid, rest.endX;
    }

    function View(): LsLink
      reads this
    {
      LsLink(localNode.id, remoteNode.id, localIP, remoteIP, metrics, adjSid, srv6EndXSID)
    }
  }

  class Srv6Sid {
    var localNode: Node
    const value: LsSrv6Sid

    constructor (localNode: Node, value: LsSrv6Sid)
      ensures this.localNode == localNode && this.value == value
    {
      this.localNode, this.value := localNode, value;
    }
  }

  /** One element handed to `LsTED.Update`. A prefix is never written to, so it is a value. */
  datatype Elem =
    | NodeE(n: Node)
    | LinkE(l: Link)
    | PrefixE(localNode: Node, p: LsPrefix)
    | SidE(s: Srv6Sid)
  {
    ghost function Objects(): set<object> {
      match this
      case NodeE(n) => {n}
      case LinkE(l) => {l}
      case PrefixE(_, _) => {}
      case SidE(s) => {s}
    }

    ghost function View(): TedElem
      reads Objects()
    {
      match this
      case NodeE(n) => NodeElem(n.asn, n.id, n.Attrs())
      case LinkE(l) => LinkElem(l.localNode.asn, l.remoteNode.asn, l.View())
      case PrefixE(n, p) => PrefixElem(n.asn, n.id, p)
      case SidE(s) => SidElem(s.localNode.asn, s.localNode.id, s.value)
    }
  }

  ghost function WithLink(net: Network, l: LsLink): Network
    requires l.local in net
  {
    net[l.local := net[l.local].(links := net[l.local].links + [l])]
  }

  ghost function WithSid(net: Network, id: RouterId, s: LsSrv6Sid): Network
    requires id in net
  {
    net[id := net[id].(sids := net[id].sids + [s])]
  }

  class LsTED {
    var nodes: map<RouterId, Node>
    ghost var contents: Network  // what the objects say
    ghost var theNodes: set<Node>  // the node objects of the map
    ghost var theLinks: set<Link>  // the link objects below the nodes
    ghost var theSids: set<Srv6Sid>  // and the SID objects

    constructor ()
      ensures Valid() && contents == map[] && nodes == map[] && theLinks == {} && theSids == {}
    {
      nodes, contents, theNodes, theLinks, theSids := map[], map[], {}, {}, {};
    }

    /** The objects say what `contents` says, and both ends of every link are nodes of the map. */
    ghost predicate Valid()
      reads this, theNodes, theLinks, theSids
    {
      && nodes.Keys == contents.Keys
      && (forall id | id in nodes :: nodes[id] in theNodes && nodes[id].id == id)
      && (forall id {:trigger NodeValid(id)} | id in nodes :: NodeValid(id))
    }

    ghost predicate NodeValid(id: RouterId)
      requires id in nodes && id in contents
      reads this, theNodes, theLinks, theSids
    {
      var n, v := nodes[id], contents[id];
      && n in theNodes && v == LsNode(n.asn, id, n.Attrs(), v.links, n.prefixes, v.sids)
      && LinksValid(n, v.links) && SidsValid(n, v.sids)
    }

    ghost predicate LinksValid(n: Node, vs: seq<LsLink>)
      reads this, n, theLinks
    {
      && |n.links| == |vs|
      && forall i | 0 <= i < |vs| ::
           var l := n.links[i];
           && l in theLinks && l.View() == vs[i] && l.localNode == n
           && l.remoteNode.id in nodes && nodes[l.remoteNode.id] == l.remoteNode
    }

    ghost predicate SidsValid(n: Node, vs: seq<LsSrv6Sid>)
      reads this, n, theSids
    {
      && |n.srv6SIDs| == |vs|
      && forall i | 0 <= i < |vs| ::
           var s := n.srv6SIDs[i];
           s in theSids && s.value == vs[i] && s.localNode == n
    }

    /** An element the feed has just built: not part of the TED yet. */
    ghost predicate Detached(e: Elem)
      reads this, theNodes, e.Objects()
    {
      match e
      case NodeE(n) => n !in theNodes && n.links == [] && n.prefixes == [] && n.srv6SIDs == []
      case LinkE(l) => l !in theLinks
      case PrefixE(_, _) => true
      case SidE(s) => s !in theSids
    }

    twostate predicate OldLinksAndSidsKept()
      reads this, theLinks, theSids
    {
      && old(theLinks) <= theLinks && old(theSids) <= theSids
      && (forall l: Link | l in old(theLinks) :: l.localNode == old(l.localNode) && l.remoteNode == old(l.remoteNode))
      && (forall s: Srv6Sid | s in old(theSids) :: s.localNode == old(s.localNode))
    }

    /** A node nobody wrote to stays valid while the map and the attached objects grow. */
    twostate lemma UntouchedNodeStaysValid(id: RouterId)
      requires id in old(nodes) && id in old(contents) && old(NodeValid(id))
      requires old(nodes.Keys) <= nodes.Keys && nodes[id] == old(nodes[id])
      requires forall k | k in old(nodes) :: nodes[k] == old(nodes)[k]
      requires id in contents && contents[id] == old(contents[id])
      requires nodes[id] in theNodes && unchanged(old(nodes[id])) && OldLinksAndSidsKept()
      ensures NodeValid(id)
    {
      var n, v := nodes[id], contents[id];
      assert LinksValid(n, v.links) by {
        forall i | 0 <= i < |v.links|
          ensures n.links[i] in theLinks && n.links[i].View() == v.links[i] && n.links[i].localNode == n
          ensures n.links[i].remoteNode.id in nodes && nodes[n.links[i].remoteNode.id] == n.links[i].remoteNode
        {
          assert old(n.links[i] in theLinks);
        }
      }
      assert SidsValid(n, v.sids);
    }

    /** A method that writes to one node of the map and to no attached object. */
    twostate lemma OtherNodesStayValid(id: RouterId)
      requires old(Valid()) && old(nodes.Keys) <= nodes.Keys
      requires forall k | k in old(nodes) :: nodes[k] == old(nodes)[k]
      requires nodes.Keys == contents.Keys
      requires OldLinksAndSidsKept()
      requires old(theNodes) <= theNodes
      requires forall k | k in nodes && k != id ::
                 k in old(nodes) && contents[k] == old(contents[k]) && unchanged(old(nodes[k]))
      ensures forall k {:trigger NodeValid(k)} | k in nodes && k != id :: NodeValid(k)
    {
      forall k | k in nodes && k != id ensures NodeValid(k) {
        assert old(NodeValid(k));
        UntouchedNodeStaysValid(k);
      }
    }

    method AddStub(asn: u32, id: RouterId)
      requires Valid()
      modifies this
      ensures Valid() && contents == WithStub(old(contents), asn, id) && id in nodes
      ensures theLinks == old(theLinks) && theSids == old(theSids)
      ensures fresh(theNodes - old(theNodes))
    {
      if id !in nodes {
        var n := new Node(asn, id);
        KeepNode(n);
      }
    }

    /** `LsNode.UpdateTED`: merge into the node already there, or keep this very object. */
    method UpdateNode(n: Node, cfgASN: u32)
      requires Valid() && Detached(NodeE(n))
      modifies this, theNodes
      ensures Valid() && contents == UpdateTED(old(contents), old(NodeE(n).View()), cfgASN)
      ensures theLinks == old(theLinks) && theSids == old(theSids)
      ensures theNodes <= old(theNodes) + {n}
    {
      if n.asn == cfgASN {
        if n.id in nodes {
          MergeNode(nodes[n.id], n);
        } else {
          KeepNode(n);
        }
      }
    }

    method MergeNode(node: Node, n: Node)
      requires Valid() && n.id in nodes && nodes[n.id] == node && n != node
      modifies `contents, node
      ensures Valid() && contents == old(contents)[n.id := old(contents)[n.id].(attrs := n.Attrs())]
    {
      assert NodeValid(n.id);
      node.hostname := n.hostname;
      node.isisAreaID := n.isisAreaID;
      node.srgbBegin := n.srgbBegin;
      node.srgbEnd := n.srgbEnd;
      contents := contents[n.id := contents[n.id].(attrs := n.Attrs())];
      assert NodeValid(n.id);
      OtherNodesStayValid(n.id);
    }

    method KeepNode(n: Node)
      requires Valid() && Detached(NodeE(n)) && n.id !in nodes
      modifies this
      ensures Valid() && contents == old(contents)[n.id := LsNode(n.asn, n.id, n.Attrs(), [], [], [])]
      ensures nodes == old(nodes)[n.id := n] && theNodes == old(theNodes) + {n}
      ensures theLinks == old(theLinks) && theSids == old(theSids)
    {
      nodes := nodes[n.id := n];
      theNodes := theNodes + {n};
      contents := contents[n.id := LsNode(n.asn, n.id, n.Attrs(), [], [], [])];
      assert NodeValid(n.id);
      OtherNodesStayValid(n.id);
    }

    /** `LsLink.UpdateTED`: both ends become the map's nodes, and the link hangs on the local one. */
    method UpdateLink(l: Link, cfgASN: u32)
      requires Valid() && Detached(LinkE(l))
      modifies this, theNodes, l
      ensures Valid() && contents == UpdateTED(old(contents), old(LinkE(l).View()), cfgASN)
      ensures theLinks <= old(theLinks) + {l} && theSids == old(theSids)
      ensures fresh(theNodes - old(theNodes))
    {
      if l.localNode.asn == cfgASN && l.remoteNode.asn == cfgASN {
        ghost var v := l.View();
        AddStub(cfgASN, l.localNode.id);
        AddStub(cfgASN, l.remoteNode.id);
        ghost var stubbed := contents;
        AttachLink(l);
        assert contents == WithLink(stubbed, v);
      }
    }

    method AttachLink(l: Link)
      requires Valid() && Detached(LinkE(l)) && l.localNode.id in nodes && l.remoteNode.id in nodes
      modifies `contents, `theLinks, nodes[l.localNode.id], l
      ensures Valid()
      ensures contents == old(WithLink(contents, l.View()))
      ensures theLinks == old(theLinks) + {l}
    {
      var local, remote := nodes[l.localNode.id], nodes[l.remoteNode.id];
      ghost var v, id := l.View(), l.localNode.id;
      assert NodeValid(id);
      assert NodeValid(remote.id);
      ghost var vs := contents[id].links;
      l.localNode := local;
      l.remoteNode := remote;
      local.AddLink(l);
      theLinks := theLinks + {l};
      contents := contents[id := contents[id].(links := vs + [v])];
      assert l.View() == v;
      forall i | 0 <= i < |vs|
        ensures local.links[i] in theLinks && local.links[i].View() == vs[i] && local.links[i].localNode == local
        ensures local.links[i].remoteNode.id in nodes && nodes[local.links[i].remoteNode.id] == local.links[i].remoteNode
      {
        assert old(local.links[i] in theLinks);
      }
      assert LinksValid(local, vs + [v]);
      assert NodeValid(id);
      OtherNodesStayValid(id);
    }

    /** `LsPrefix.UpdateTED`: the first record of a prefix is kept. */
    method UpdatePrefix(localNode: Node, p: LsPrefix, cfgASN: u32)
      requires Valid()
      modifies this, theNodes
      ensures Valid() && contents == UpdateTED(old(contents), PrefixElem(localNode.asn, localNode.id, p), cfgASN)
      ensures theLinks == old(theLinks) && theSids == old(theSids)
      ensures fresh(theNodes - old(theNodes))
    {
      if localNode.asn == cfgASN {
        AddStub(cfgASN, localNode.id);
        AttachPrefix(localNode.id, p);
      }
    }

    method AttachPrefix(id: RouterId, p: LsPrefix)
      requires Valid() && id in nodes
      modifies `contents, nodes[id]
      ensures Valid()
      ensures contents == if exists q | q in old(contents)[id].prefixes :: q.prefix == p.prefix then old(contents)
                          else old(contents)[id := old(contents)[id].(prefixes := old(contents)[id].prefixes + [p])]
    {
      var node := nodes[id];
      assert NodeValid(id);
      for i := 0 to |node.prefixes|
        invariant forall j | 0 <= j < i :: node.prefixes[j].prefix != p.prefix
      {
        if node.prefixes[i].prefix == p.prefix {
          assert node.prefixes[i] in contents[id].prefixes;
          return;
        }
      }
      node.prefixes := node.prefixes + [p];
      contents := contents[id := contents[id].(prefixes := contents[id].prefixes + [p])];
      OtherNodesStayValid(id);
      assert NodeValid(id);
    }

    /** `LsSrv6SID.UpdateTED`. */
    method UpdateSrv6Sid(s: Srv6Sid, cfgASN: u32)
      requires Valid() && Detached(SidE(s))
      modifies this, theNodes, s
      ensures Valid() && contents == UpdateTED(old(contents), old(SidE(s).View()), cfgASN)
      ensures theLinks == old(theLinks) && theSids <= old(theSids) + {s}
      ensures fresh(theNodes - old(theNodes))
    {
      if s.localNode.asn == cfgASN {
        AddStub(cfgASN, s.localNode.id);
        AttachSid(s);
      }
    }

    method AttachSid(s: Srv6Sid)
      requires Valid() && Detached(SidE(s)) && s.localNode.id in nodes
      modifies `contents, `theSids, nodes[s.localNode.id], s
      ensures Valid()
      ensures contents == old(WithSid(contents, s.localNode.id, s.value))
      ensures theSids == old(theSids) + {s}
    {
      ghost var id := s.localNode.id;
      assert NodeValid(id);
      s.localNode := nodes[s.localNode.id];
      s.localNode.AddSrv6SID(s);
      contents := contents[id := contents[id].(sids := contents[id].sids + [s.value])];
      theSids := theSids + {s};
      OtherNodesStayValid(id);
      assert NodeValid(id);
    }

    method UpdateElem(e: Elem, cfgASN: u32)
      requires Valid() && Detached(e)
      modifies this, theNodes, e.Objects()
      ensures Valid() && contents == UpdateTED(old(contents), old(e.View()), cfgASN)
      ensures forall n | n in theNodes :: n in old(theNodes) || n in e.Objects() || fresh(n)
      ensures forall l | l in theLinks :: l in old(theLinks) || l in e.Objects()
      ensures forall s | s in theSids :: s in old(theSids) || s in e.Objects()
    {
      match e
      case NodeE(n) => UpdateNode(n, cfgASN);
      case LinkE(l) => UpdateLink(l, cfgASN);
      case PrefixE(n, p) => UpdatePrefix(n, p, cfgASN);
      case SidE(s) => UpdateSrv6Sid(s, cfgASN);
    }

    ghost predicate AllDetached(elems: seq<Elem>)
      reads this, theNodes, ElemObjects(elems)
    {
      forall e | e in elems :: e.Objects() <= ElemObjects(elems) && Detached(e)
    }

    /** Elements that share no object with `e` are as new after `e` went in. */
    method UpdateBefore(e: Elem, ghost rest: seq<Elem>, cfgASN: u32)
      requires Valid() && Detached(e) && AllDetached(rest) && e.Objects() !! ElemObjects(rest)
      modifies this, theNodes, e.Objects()
      ensures Valid() && contents == UpdateTED(old(contents), old(e.View()), cfgASN)
      ensures AllDetached(rest) && ElemViews(rest) == old(ElemViews(rest))
      ensures forall n | n in theNodes :: n in old(theNodes) || n in e.Objects() || fresh(n)
    {
      UpdateElem(e, cfgASN);
      forall x | x in rest ensures Detached(x) && x.View() == old(x.View()) {
        assert x.Objects() <= ElemObjects(rest);
        assert old(Detached(x));
      }
    }

    /** The elements from index `i` on are as the feed built them. */
    ghost predicate Pending(elems: seq<Elem>, i: nat, views: seq<TedElem>)
      requires i <= |elems| == |views|
      reads this, theNodes, ElemObjects(elems[i..])
    {
      AllDetached(elems[i..]) && ElemViews(elems[i..]) == views[i..]
    }

    method UpdateNext(elems: seq<Elem>, i: nat, cfgASN: u32, ghost views: seq<TedElem>)
      requires i < |elems| == |views| && Separate(elems)
      requires Valid() && Pending(elems, i, views)
      modifies this, theNodes, ElemObjects(elems)
      ensures Valid() && Pending(elems, i + 1, views)
      ensures contents == UpdateTED(old(contents), views[i], cfgASN)
      ensures forall n | n in theNodes :: n in old(theNodes) || n in ElemObjects(elems) || fresh(n)
    {
      PendingSplits(elems, i);
      assert elems[i].Objects() <= ElemObjects(elems);
      UpdateBefore(elems[i], elems[i + 1..], cfgASN);
    }

    /** `LsTED.Update`: the elements of one feed, in order. */
    method Update(elems: seq<Elem>, cfgASN: u32)
      requires Valid() && AllDetached(elems) && Separate(elems)
      modifies this, theNodes, ElemObjects(elems)
      ensures Valid() && contents == Ted.Update(old(contents), old(ElemViews(elems)), cfgASN)
    {
      ghost var net, views := contents, ElemViews(elems);
      assert elems[0..] == elems && views[0..] == views;
      for i := 0 to |elems|
        invariant Valid() && Pending(elems, i, views)
        invariant contents == Ted.Update(net, views[..i], cfgASN)
        invariant forall n | n in theNodes :: n in old(theNodes) || n in ElemObjects(elems) || fresh(n)
      {
        UpdateNext(elems, i, cfgASN, views);
        UpdateOneMore(net, views, i, cfgASN);
      }
      assert views[..|elems|] == views;
    }
  }

  ghost predicate Separate(elems: seq<Elem>) {
    forall i, j | 0 <= i < j < |elems| :: elems[i].Objects() !! elems[j].Objects()
  }

  lemma PendingSplits(elems: seq<Elem>, i: nat)
    requires i < |elems| && Separate(elems)
    ensures elems[i].Objects() !! ElemObjects(elems[i + 1..])
    ensures ElemObjects(elems[i..]) == elems[i].Objects() + ElemObjects(elems[i + 1..])
    ensures ElemObjects(elems[i..]) <= ElemObjects(elems)
    ensures elems[i] in elems[i..] && forall x | x in elems[i + 1..] :: x in elems[i..]
    ensures ElemViews(elems[i..]) == [elems[i].View()] + ElemViews(elems[i + 1..])
  {
    assert elems[i..] == [elems[i]] + elems[i + 1..];
  }

  ghost function ElemObjects(elems: seq<Elem>): set<object> {
    set e, o | e in elems && o in e.Objects() :: o
  }

  ghost function ElemViews(elems: seq<Elem>): (vs: seq<TedElem>)
    reads ElemObjects(elems)
    ensures |vs| == |elems| && forall i | 0 <= i < |elems| :: vs[i] == elems[i].View()
  {
    seq(|elems|, i requires 0 <= i < |elems| reads ElemObjects(elems) => elems[i].View())
  }
}
