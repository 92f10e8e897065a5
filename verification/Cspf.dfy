/** The path computation itself: node objects in a map, updated in place, and the back-pointer
    walk with its list reversed in place (pkg/cspf/cspf.go). */
module Cspf {
  import opened Bytes
  import opened FoundPaths
  import opened Rounds
  import opened Segments
  import opened ShortestPath
  import opened Ted
  import opened Walks
  import opened Wrappers

  class Node {
    const id: RouterId
    var calculated: bool
    var cost: u32
    var prevNode: RouterId
    const nodeSegment: Segment

    constructor (id: RouterId, cost: u32, prevNode: RouterId, nodeSegment: Segment)
      ensures this.id == id && View() == NodeState(false, cost, prevNode, nodeSegment)
    {
      this.id, this.cost, this.prevNode, this.nodeSegment := id, cost, prevNode, nodeSegment;
      calculated := false;
    }

    function View(): NodeState
      reads this
    {
      NodeState(calculated, cost, prevNode, nodeSegment)
    }
  }

  /** The `calculatingNodes` map, which is filled and updated by reference. */
  class NodeMap {
    var nodes: map<RouterId, Node>
    ghost var table: Table  // what the node objects say
    ghost var repr: set<Node>

    constructor (start: Node)
      ensures Valid() && fresh(this) && repr == {start} && table == map[start.id := start.View()]
    {
      nodes, repr, table := map[start.id := start], {start}, map[start.id := start.View()];
    }

    ghost predicate Valid()
      reads this, repr
    {
      && nodes.Keys == table.Keys
      && (forall k | k in nodes :: nodes[k] in repr && nodes[k].id == k)
      && (forall k {:trigger table[k]} | k in nodes :: nodes[k].View() == table[k])
    }

    /** `nextNode`: map iteration order decides between nodes of equal cost. The empty ID stands
        for "none yet", so no node may be called that. */
    method NextNode() returns (next: RouterId)
      requires Valid() && "" !in nodes
      ensures next == "" ==> forall k | k in table :: table[k].calculated
      ensures next != "" ==> IsNext(table, next)
    {
      next := "";
      var todo := nodes.Keys;
      while todo != {}
        invariant todo <= nodes.Keys
        invariant next == "" ==> forall k | k in nodes && k !in todo :: table[k].calculated
        invariant next != "" ==>
                    && next in nodes && !table[next].calculated
                    && forall k | k in nodes && k !in todo && !table[k].calculated :: table[next].cost <= table[k].cost
      {
        var k :| k in todo;
        todo := todo - {k};
        assert nodes[k].View() == table[k];
        if nodes[k].calculated {
          continue;
        }
        if next == "" || nodes[next].cost > nodes[k].cost {
          next := k;
        }
      }
    }

    method Improve(id: RouterId, cost: u32, prev: RouterId)
      requires Valid() && id in nodes
      modifies this`table, nodes[id]
      ensures Valid() && table == old(table)[id := old(table)[id].(cost := cost, prev := prev)]
    {
      assert nodes[id].View() == table[id];
      nodes[id].cost := cost;
      nodes[id].prevNode := prev;
      table := table[id := table[id].(cost := cost, prev := prev)];
    }

    method Add(node: Node)
      requires Valid() && node.id !in nodes && node !in repr
      modifies this
      ensures Valid() && repr == old(repr) + {node} && table == old(table)[node.id := node.View()]
    {
      nodes, repr, table := nodes[node.id := node], repr + {node}, table[node.id := node.View()];
    }

    method Mark(id: RouterId)
      requires Valid() && id in nodes
      modifies this, repr
      ensures Valid() && repr == old(repr) && table == Settle(old(table), id)
    {
      assert nodes[id].View() == table[id];
      nodes[id].calculated := true;
      table := Settle(table, id);
    }

    /** The body of the loop in `updateNeighborCosts`. */
    method UpdateNeighborCost(calcNodeID: RouterId, net: Network, l: LsLink, t: MetricType)
        returns (err: Option<SpfError>)
      requires Valid() && calcNodeID in nodes && l.remote in net
      modifies this, repr
      ensures Valid() && forall n | n in repr :: n in old(repr) || fresh(n)
      ensures Reports(RelaxLink(net, old(table), calcNodeID, l, t), err)
    {
      assert nodes[calcNodeID].View() == table[calcNodeID];
      var metric := LinkMetric(l, t);
      if metric.None? {
        return Some(MetricUndefined);
      }
      var cost := Add32(nodes[calcNodeID].cost, metric.value);
      if l.remote in nodes {
        assert nodes[l.remote].View() == table[l.remote];
        if cost < nodes[l.remote].cost {
          Improve(l.remote, cost, calcNodeID);
        }
      } else {
        var seg := NodeSegment(net[l.remote]);
        if seg.Err? {
          return Some(NoSegment(seg.error));
        }
        var remoteNode := new Node(l.remote, cost, calcNodeID, seg.value);
        Add(remoteNode);
      }
      return None;
    }

    /** The outcome of a relaxation is the state of this map, or the error returned. */
    ghost predicate Reports(r: Result<Table, SpfError>, err: Option<SpfError>)
      reads this
    {
      match r
      case Ok(s) => err.None? && table == s
      case Err(e) => err == Some(e)
    }

    /** `updateNeighborCosts`, up to the first error. */
    method UpdateNeighborCosts(calcNodeID: RouterId, net: Network, t: MetricType) returns (err: Option<SpfError>)
      requires Valid() && calcNodeID in nodes && calcNodeID in net
      requires forall l | l in net[calcNodeID].links :: l.remote in net
      modifies this, repr
      ensures Valid() && forall n | n in repr :: n in old(repr) || fresh(n)
      ensures Reports(RelaxLinks(net, old(table), calcNodeID, net[calcNodeID].links, t), err)
      ensures err.None? ==> calcNodeID in nodes
    {
      var links := net[calcNodeID].links;
      for i := 0 to |links|
        invariant Valid() && calcNodeID in nodes && forall n | n in repr :: n in old(repr) || fresh(n)
        invariant RelaxLinks(net, old(table), calcNodeID, links, t) == RelaxLinks(net, table, calcNodeID, links[i..], t)
      {
        err := UpdateNeighborCost(calcNodeID, net, links[i], t);
        if err.Some? {
          return;
        }
      }
      return None;
    }

    /** The rest of the loop body of `spf` once `nextNode` has named a node: relax its links and
        mark it. */
    method Expand(calcNodeID: RouterId, net: Network, t: MetricType) returns (err: Option<SpfError>)
      requires Valid() && calcNodeID in nodes && calcNodeID in net && LinksClosed(net)
      modifies this, repr
      ensures Valid() && forall n | n in repr :: n in old(repr) || fresh(n)
      ensures Expanded(net, t, old(table), calcNodeID, table, err)
    {
      err := UpdateNeighborCosts(calcNodeID, net, t);
      if err.None? {
        Mark(calcNodeID);
      }
    }

    /** The loop of `spf`: it goes on until the destination is the next node. */
    method Search(ghost src: RouterId, dst: RouterId, t: MetricType, net: Network) returns (err: Option<SpfError>)
      requires LinksClosed(net) && "" !in net && CostsFit(net, t, src, dst) && Valid() && Reached(net, t, src, dst, table)
      modifies this, repr
      ensures Valid()
      ensures err.None? ==> Reached(net, t, src, dst, table) && IsNext(table, dst)
      ensures err.Some? ==> SpfSpec(net, t, src, dst, Err(err.value))
    {
      FittingCostsNeverWrap(net, t, src, dst);
      while true
        invariant Valid() && forall n | n in repr :: n in old(repr) || fresh(n)
        invariant Reached(net, t, src, dst, table)
        decreases Remaining(net, table)
      {
        ghost var s := table;
        ReachedTable(net, t, src, dst, s);
        var calcNodeID := NextNode();
        if calcNodeID == "" {
          ExhaustedIsUnreachable(net, t, src, dst, s);
          return Some(NextNodeNotFound);
        }
        if calcNodeID == dst {
          return None;
        }
        err := Expand(calcNodeID, net, t);
        PassIsSound(net, t, src, dst, s, calcNodeID, table, err);
        if err.Some? {
          return;
        }
      }
    }

    /** `buildSegmentListFromPath`: the back-pointers follow the walk `p`, so the loop reaches
        the source after |p| steps. */
    method BuildSegmentListFromPath(src: RouterId, dst: RouterId, ghost p: seq<LsLink>) returns (segs: seq<Segment>)
      requires Valid() && src in nodes && dst in nodes && Follows(src, table, p, dst)
      ensures |segs| == |p| && forall i | 0 <= i < |p| :: p[i].remote in table && segs[i] == table[p[i].remote].seg
    {
      var pathNode := nodes[dst];
      ghost var k := |p|;
      var list: seq<Segment> := [];
      if |p| > 0 { FollowsBack(src, table, p, dst, |p|); }
      while pathNode.id != src
        invariant 0 <= k <= |p| && |list| == |p| - k
        invariant pathNode.id in nodes && pathNode == nodes[pathNode.id]
        invariant pathNode.id == src ==> k == 0
        invariant pathNode.id == (if k == 0 then src else p[k - 1].remote)
        invariant forall i | k <= i < |p| :: p[i].remote in table && list[|p| - 1 - i] == table[p[i].remote].seg
        decreases k
      {
        FollowsBack(src, table, p, dst, k);
        assert pathNode.View() == table[pathNode.id];
        list := list + [pathNode.nodeSegment];
        k := k - 1;
        pathNode := nodes[pathNode.prevNode];
      }
      var segmentList := new Segment[|list|](i requires 0 <= i < |list| => list[i]);
      ReverseInPlace(segmentList);
      segs := segmentList[..];
    }
  }

  /** The last link of a followed path leads back to the one before. */
  lemma {:induction false} FollowsBack(src: RouterId, s: Table, p: seq<LsLink>, dst: RouterId, k: nat)
    requires Follows(src, s, p, dst) && 0 < k <= |p|
    ensures p[k - 1].remote in s && p[k - 1].remote != src
    ensures k > 1 ==> p[k - 2].remote in s && p[k - 2].remote != src
    ensures s[p[k - 1].remote].prev == if k == 1 then src else p[k - 2].remote
  {
    assert FollowsAt(src, s, p, k - 1);
    assert k > 1 ==> FollowsAt(src, s, p, k - 2);
  }

  /** The segments of the nodes on a path that can be found are a result. */
  lemma {:induction false} FoundPathIsResult(net: Network, t: MetricType, src: RouterId, dst: RouterId, s: Table, p: seq<LsLink>, segs: seq<Segment>)
    requires Finds(net, t, src, dst, p) && HasSegments(net, s)
    requires |segs| == |p| && forall i | 0 <= i < |p| :: p[i].remote in s && segs[i] == s[p[i].remote].seg
    ensures SpfSpec(net, t, src, dst, Ok(segs))
  {
    assert AreSegmentsOf(net, p, segs);
  }

  method ReverseInPlace(a: array<Segment>)
    modifies a
    ensures forall k | 0 <= k < a.Length :: a[k] == old(a[a.Length - 1 - k])
  {
    var i, j := 0, a.Length - 1;
    while i < j
      invariant 0 <= i && j == a.Length - 1 - i && i <= j + 1
      invariant forall k | 0 <= k < i :: a[k] == old(a[a.Length - 1 - k]) && a[a.Length - 1 - k] == old(a[k])
      invariant forall k | i <= k <= j :: a[k] == old(a[k])
    {
      a[i], a[j] := a[j], a[i];
      i, j := i + 1, j - 1;
    }
  }

  /** `spf`, which `CSPF` calls on the nodes of the TED. */
  method Spf(src: RouterId, dst: RouterId, t: MetricType, net: Network)
      returns (r: Result<seq<Segment>, SpfError>)
    requires LinksClosed(net) && src in net && "" !in net && CostsFit(net, t, src, dst)
    ensures SpfSpec(net, t, src, dst, r)
  {
    var startNodeSeg := NodeSegment(net[src]);
    if startNodeSeg.Err? {
      assert IsWalk(net, src, [], src);
      return Err(NoSegment(startNodeSeg.error));
    }
    var startNode := new Node(src, 0, "", startNodeSeg.value);
    var calculatingNodes := new NodeMap(startNode);
    StartIsReached(net, t, src, dst);
    var err := calculatingNodes.Search(src, dst, t, net);
    if err.Some? {
      return Err(err.value);
    }
    FittingCostsNeverWrap(net, t, src, dst);
    ghost var p := NextIsDestination(net, t, src, dst, calculatingNodes.table);
    var segs := calculatingNodes.BuildSegmentListFromPath(src, dst, p);
    FoundPathIsResult(net, t, src, dst, calculatingNodes.table, p, segs);
    return Ok(segs);
  }

  /** `CSPF`. */
  method CSPF(src: RouterId, dst: RouterId, t: MetricType, ted: Network)
      returns (r: Result<seq<Segment>, SpfError>)
    requires LinksClosed(ted) && src in ted && "" !in ted && CostsFit(ted, t, src, dst)
    ensures SpfSpec(ted, t, src, dst, r)
  {
    r := Spf(src, dst, t, ted);
  }
}
