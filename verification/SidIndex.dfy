/** The lookup structure over the SIDs a TED advertises (pkg/table/sid_validate.go), and what it
    is meant to answer: whether some node, prefix, link or SID of the TED accounts for a segment. */
module SidIndex {
  import opened Bytes
  import opened Netip
  import opened Segments
  import opened Ted
  import opened Wrappers

  const MPLS_LABEL_MAX: u32 := 0xF_FFFF

  // ----- the meaning: direct quantification over the TED

  /** `srgbLabel`: SRGB base plus index, if that is a 20-bit label inside the SRGB. */
  function SrgbLabel(attrs: NodeAttrs, sidIndex: u32): Option<u32> {
    var lbl := attrs.srgbBegin + sidIndex;
    if lbl > MPLS_LABEL_MAX then None
    else if attrs.srgbEnd > attrs.srgbBegin && lbl >= attrs.srgbEnd then None
    else Some(lbl)
  }

  predicate PrefixLabel(attrs: NodeAttrs, p: LsPrefix, lbl: u32) {
    attrs.srgbBegin != 0 && p.hasSidIndex && SrgbLabel(attrs, p.sidIndex) == Some(lbl)
  }

  predicate ListsLabel(attrs: NodeAttrs, ps: seq<LsPrefix>, lbl: u32) {
    exists p | p in ps :: PrefixLabel(attrs, p, lbl)
  }

  predicate ListsAdjacency(ls: seq<LsLink>, lbl: u32) {
    lbl != 0 && exists l | l in ls :: l.adjSid == lbl
  }

  predicate NodeLabel(n: LsNode, lbl: u32) {
    || ListsLabel(n.attrs, n.prefixes, lbl)
    || ListsAdjacency(n.links, lbl)
  }

  /** A SID list with the structure it is advertised under. */
  datatype SidSource = SidSource(sids: seq<SidText>, structure: SidStructure) {
    predicate Lists(a: Addr) {
      a.Is6() && exists t | t in sids :: ParseAddr(t) == Some(a)
    }

    function LocatorBits(): nat {
      structure.block + structure.node
    }

    /** A locator of 1 to 128 bits; other lengths are ignored. */
    predicate HasLocator() {
      0 < LocatorBits() <= 128
    }
  }

  function LinkSources(ls: seq<LsLink>): set<SidSource> {
    set l | l in ls && l.endX.Some? :: SidSource(l.endX.value.sids, l.endX.value.structure)
  }

  function SidSources(ss: seq<LsSrv6Sid>): set<SidSource> {
    set s | s in ss :: SidSource(s.sids, s.structure)
  }

  function Sources(n: LsNode): set<SidSource> {
    LinkSources(n.links) + SidSources(n.sids)
  }

  predicate SomeLists(srcs: set<SidSource>, a: Addr) {
    exists src | src in srcs :: src.Lists(a)
  }

  ghost predicate LocatorOf(src: SidSource, a: Addr, p: Prefix6) {
    src.Lists(a) && src.HasLocator() && p == PrefixOf(a, src.LocatorBits())
  }

  ghost predicate YieldsLocator(src: SidSource, p: Prefix6) {
    exists a :: LocatorOf(src, a, p)
  }

  ghost predicate SomeYields(srcs: set<SidSource>, p: Prefix6) {
    exists src | src in srcs :: YieldsLocator(src, p)
  }

  function DeclaredLocatorBits(seg: Segment): nat
    requires seg.SRv6?
  {
    if seg.structure.Some? && |seg.structure.value| == 4
    then (seg.structure.value[0] as int) + seg.structure.value[1] else 0
  }

  /** `a` and `b` start with the same `n` bits. */
  predicate SameLeadingBits(a: Addr, b: Addr, n: nat)
    requires a.Is6() && n <= 128
  {
    b.Is6() && forall i | 0 <= i < n :: BitAt(a.b16, i) == BitAt(b.b16, i)
  }

  /** A uSID container fits an advertised locator no longer than the one it declares. */
  ghost predicate FitsLocator(n: LsNode, seg: Segment)
    requires seg.SRv6?
  {
    exists src, a | src in Sources(n) :: CarriesContainer(src, a, seg)
  }

  ghost predicate CarriesContainer(src: SidSource, a: Addr, seg: Segment)
    requires seg.SRv6?
  {
    && src.Lists(a) && src.HasLocator()
    && SameLeadingBits(a, seg.sid6, src.LocatorBits())
    && (DeclaredLocatorBits(seg) == 0 || src.LocatorBits() <= DeclaredLocatorBits(seg))
  }

  ghost predicate NodeKnows(n: LsNode, seg: Segment) {
    match seg
    case SRMPLS(lbl, _, _, _, _, _) => NodeLabel(n, lbl)
    case SRv6(sid, _, _, _, usid) => SomeLists(Sources(n), sid) || (usid && FitsLocator(n, seg))
  }

  ghost predicate Known(net: Network, seg: Segment) {
    exists id | id in net :: NodeKnows(net[id], seg)
  }

  // ----- the structure

  class SIDIndex {
    var mplsSIDs: set<u32>
    var srv6SIDs: set<Addr>
    var srv6Locators: set<Prefix6>

    constructor ()
      ensures mplsSIDs == {} && srv6SIDs == {} && srv6Locators == {}
    {
      mplsSIDs, srv6SIDs, srv6Locators := {}, {}, {};
    }

    /** The index holds what the nodes named by `ids` advertise. */
    ghost predicate Holds(net: Network, ids: set<RouterId>)
      requires ids <= net.Keys
      reads this
    {
      && (forall x :: x in mplsSIDs <==> exists id | id in ids :: NodeLabel(net[id], x))
      && (forall a :: a in srv6SIDs <==> exists id | id in ids :: SomeLists(Sources(net[id]), a))
      && (forall p :: p in srv6Locators <==> exists id | id in ids :: SomeYields(Sources(net[id]), p))
    }

    method AddNodePrefixSIDs(n: LsNode)
      modifies this`mplsSIDs
      ensures forall x :: x in mplsSIDs <==>
                x in old(mplsSIDs) || ListsLabel(n.attrs, n.prefixes, x)
    {
      if n.attrs.srgbBegin == 0 {
        return;
      }
      for i := 0 to |n.prefixes|
        invariant forall x :: x in mplsSIDs <==>
                    x in old(mplsSIDs) || ListsLabel(n.attrs, n.prefixes[..i], x)
      {
        var p := n.prefixes[i];
        ListsLabelSnoc(n.attrs, n.prefixes, i);
        if p.hasSidIndex {
          var lbl := SrgbLabel(n.attrs, p.sidIndex);
          if lbl.Some? {
            mplsSIDs := mplsSIDs + {lbl.value};
          }
        }
      }
      assert n.prefixes[..|n.prefixes|] == n.prefixes;
    }

    method AddSRv6(sids: seq<SidText>, st: SidStructure)
      modifies this`srv6SIDs, this`srv6Locators
      ensures forall a :: a in srv6SIDs <==> a in old(srv6SIDs) || SidSource(sids, st).Lists(a)
      ensures forall p :: p in srv6Locators <==>
                p in old(srv6Locators) || YieldsLocator(SidSource(sids, st), p)
    {
      var locBits := st.block + st.node;
      for i := 0 to |sids|
        invariant forall a :: a in srv6SIDs <==> a in old(srv6SIDs) || SidSource(sids[..i], st).Lists(a)
        invariant forall p :: p in srv6Locators <==>
                    p in old(srv6Locators) || YieldsLocator(SidSource(sids[..i], st), p)
      {
        ListsSnoc(sids, i, st);
        SingleSid(sids[i], st);
        var parsed := ParseAddr(sids[i]);
        if parsed.Some? && parsed.value.Is6() {
          var addr := parsed.value;
          srv6SIDs := srv6SIDs + {addr};
          if 0 < locBits <= 128 {
            var loc := PrefixOf(addr, locBits);
            srv6Locators := srv6Locators + {loc};
          }
        }
      }
      assert sids[..|sids|] == sids;
    }

    method AddLinkSIDs(n: LsNode)
      modifies this
      ensures forall x :: x in mplsSIDs <==> x in old(mplsSIDs) || ListsAdjacency(n.links, x)
      ensures forall a :: a in srv6SIDs <==> a in old(srv6SIDs) || SomeLists(LinkSources(n.links), a)
      ensures forall p :: p in srv6Locators <==> p in old(srv6Locators) || SomeYields(LinkSources(n.links), p)
    {
      for i := 0 to |n.links|
        invariant forall x :: x in mplsSIDs <==> x in old(mplsSIDs) || ListsAdjacency(n.links[..i], x)
        invariant forall a :: a in srv6SIDs <==> a in old(srv6SIDs) || SomeLists(LinkSources(n.links[..i]), a)
        invariant forall p :: p in srv6Locators <==> p in old(srv6Locators) || SomeYields(LinkSources(n.links[..i]), p)
      {
        LinksSnoc(n.links, i);
        var l := n.links[i];
        if l.adjSid != 0 {
          mplsSIDs := mplsSIDs + {l.adjSid};
        }
        if l.endX.Some? {
          AddSRv6(l.endX.value.sids, l.endX.value.structure);
        }
      }
      assert n.links[..|n.links|] == n.links;
    }

    method AddSRv6NodeSIDs(n: LsNode)
      modifies this`srv6SIDs, this`srv6Locators
      ensures forall a :: a in srv6SIDs <==> a in old(srv6SIDs) || SomeLists(SidSources(n.sids), a)
      ensures forall p :: p in srv6Locators <==> p in old(srv6Locators) || SomeYields(SidSources(n.sids), p)
    {
      for i := 0 to |n.sids|
        invariant forall a :: a in srv6SIDs <==> a in old(srv6SIDs) || SomeLists(SidSources(n.sids[..i]), a)
        invariant forall p :: p in srv6Locators <==> p in old(srv6Locators) || SomeYields(SidSources(n.sids[..i]), p)
      {
        SidsSnoc(n.sids, i);
        AddSRv6(n.sids[i].sids, n.sids[i].structure);
      }
      assert n.sids[..|n.sids|] == n.sids;
    }

    ghost predicate Answer(seg: Segment)
      reads this
    {
      match seg
      case SRMPLS(lbl, _, _, _, _, _) => lbl in mplsSIDs
      case SRv6(sid, _, _, _, usid) =>
        sid in srv6SIDs || (usid && exists p | p in srv6Locators :: Covers(p, seg))
    }

    /** `SIDIndex.Has`. */
    method Has(seg: Segment) returns (found: bool)
      ensures found <==> Answer(seg)
    {
      match seg
      case SRMPLS(lbl, _, _, _, _, _) => found := lbl in mplsSIDs;
      case SRv6(_, _, _, _, _) => found := HasSRv6(seg);
    }

    method HasSRv6(seg: Segment) returns (found: bool)
      requires seg.SRv6?
      ensures found <==> Answer(seg)
    {
      if seg.sid6 in srv6SIDs {
        return true;
      }
      if !seg.usid {
        return false;
      }
      var locBits := DeclaredLocatorBits(seg);
      var todo := srv6Locators;
      while todo != {}
        invariant todo <= srv6Locators
        invariant forall p | p in srv6Locators && p !in todo :: !Covers(p, seg)
      {
        var loc :| loc in todo;
        todo := todo - {loc};
        if !Contains(loc, seg.sid6) {
          continue;
        }
        // Reject a request whose declared locator is shorter than the TED's.
        if locBits > 0 && |loc| > locBits {
          continue;
        }
        return true;
      }
      return false;
    }
  }

  predicate Covers(p: Prefix6, seg: Segment)
    requires seg.SRv6?
  {
    Contains(p, seg.sid6) && (DeclaredLocatorBits(seg) == 0 || |p| <= DeclaredLocatorBits(seg))
  }

  function TedNodes(ted: Option<Network>): Network {
    if ted.Some? then ted.value else map[]
  }

  /** `NewSIDIndex`: the nodes of the map in any order; without a TED the index is empty. */
  method NewSIDIndex(ted: Option<Network>) returns (idx: SIDIndex)
    ensures fresh(idx)
    ensures idx.Holds(TedNodes(ted), TedNodes(ted).Keys)
  {
    idx := new SIDIndex();
    if ted.None? {
      return;
    }
    var net := ted.value;
    var todo := net.Keys;
    while todo != {}
      invariant todo <= net.Keys && idx.Holds(net, net.Keys - todo)
    {
      var id :| id in todo;
      idx.AddNodePrefixSIDs(net[id]);
      idx.AddLinkSIDs(net[id]);
      idx.AddSRv6NodeSIDs(net[id]);
      todo := todo - {id};
      assert forall k :: k in net.Keys - todo <==> k == id || k in net.Keys - todo - {id};
    }
    assert net.Keys - todo == net.Keys;
  }

  // ----- the structure answers what the TED says

  lemma CoversLikeTheAddress(src: SidSource, a: Addr, seg: Segment)
    requires seg.SRv6? && src.Lists(a) && src.HasLocator()
    ensures Covers(PrefixOf(a, src.LocatorBits()), seg) <==> CarriesContainer(src, a, seg)
  {
    if seg.sid6.Is6() {
      ContainsPrefixOf(a, src.LocatorBits(), seg.sid6);
    }
  }

  lemma LocatorsCoverContainers(srcs: set<SidSource>, seg: Segment)
    requires seg.SRv6?
    ensures (exists p :: SomeYields(srcs, p) && Covers(p, seg))
            <==> exists src, a | src in srcs :: CarriesContainer(src, a, seg)
  {
    if p :| SomeYields(srcs, p) && Covers(p, seg) {
      var src :| src in srcs && YieldsLocator(src, p);
      var a :| LocatorOf(src, a, p);
      CoversLikeTheAddress(src, a, seg);
    }
    if src, a :| src in srcs && CarriesContainer(src, a, seg) {
      CoversLikeTheAddress(src, a, seg);
      var p := PrefixOf(a, src.LocatorBits());
      assert LocatorOf(src, a, p);
      assert YieldsLocator(src, p);
      assert SomeYields(srcs, p);
    }
  }

  /** An index over a whole TED answers, for every segment, whether some node of the TED accounts
      for it: a label, a SID, or a locator that the declared one is long enough for. */
  lemma {:induction false} AnswerIsKnown(idx: SIDIndex, net: Network, seg: Segment)
    requires idx.Holds(net, net.Keys)
    ensures idx.Answer(seg) <==> Known(net, seg)
  {
    if seg.SRv6? {
      if idx.Answer(seg) && seg.sid6 !in idx.srv6SIDs {
        var p :| p in idx.srv6Locators && Covers(p, seg);
        var id :| id in net && SomeYields(Sources(net[id]), p);
        LocatorsCoverContainers(Sources(net[id]), seg);
        assert NodeKnows(net[id], seg);
      }
      if id :| id in net && NodeKnows(net[id], seg) {
        if !SomeLists(Sources(net[id]), seg.sid6) {
          LocatorsCoverContainers(Sources(net[id]), seg);
          var p :| SomeYields(Sources(net[id]), p) && Covers(p, seg);
          assert p in idx.srv6Locators;
        }
      }
    }
  }

  datatype MissingSegment = MissingSegment(hop: nat, segment: Option<Segment>)

  ghost predicate IsMissing(net: Network, seg: Option<Segment>) {
    seg.None? || !Known(net, seg.value)
  }

  /** The unknown segments, in order, with positions counted from one. */
  ghost function MissingOf(net: Network, segs: seq<Option<Segment>>): seq<MissingSegment> {
    if segs == [] then []
    else
      var last := |segs| - 1;
      MissingOf(net, segs[..last])
      + if IsMissing(net, segs[last]) then [MissingSegment(last + 1, segs[last])] else []
  }

  /** `MissingSegments`; a segment may be nil. */
  method MissingSegments(ted: Option<Network>, segs: seq<Option<Segment>>) returns (missing: seq<MissingSegment>)
    ensures missing == MissingOf(TedNodes(ted), segs)
  {
    ghost var net := TedNodes(ted);
    var idx := NewSIDIndex(ted);
    missing := [];
    for i := 0 to |segs|
      invariant idx.Holds(net, net.Keys) && missing == MissingOf(net, segs[..i])
    {
      assert segs[..i + 1][..i] == segs[..i];
      var found := false;
      if segs[i].Some? {
        found := idx.Has(segs[i].value);
        AnswerIsKnown(idx, net, segs[i].value);
      }
      if !found {
        missing := missing + [MissingSegment(i + 1, segs[i])];
      }
    }
    assert segs[..|segs|] == segs;
  }

  /** Nothing is reported exactly when everything is known. */
  lemma {:induction false} NothingMissing(net: Network, segs: seq<Option<Segment>>)
    ensures MissingOf(net, segs) == [] <==> forall s | s in segs :: !IsMissing(net, s)
  {
    if segs != [] {
      var last := |segs| - 1;
      NothingMissing(net, segs[..last]);
      assert forall s :: s in segs <==> s in segs[..last] || s == segs[last];
    }
  }

  /** `HasMixedSegmentTypes`: the first segment that is not nil sets the family. */
  method HasMixedSegmentTypes(segs: seq<Option<Segment>>) returns (mixed: bool)
    ensures mixed <==> exists i, j :: 0 <= i < |segs| && 0 <= j < |segs| && IsFamily(segs[i], true) && IsFamily(segs[j], false)
  {
    var family: Option<bool> := None;
    for i := 0 to |segs|
      invariant family.None? ==> forall k | 0 <= k < i :: segs[k].None?
      invariant family.Some? ==> forall k | 0 <= k < i :: !IsFamily(segs[k], !family.value)
      invariant family.Some? ==> exists k | 0 <= k < i :: IsFamily(segs[k], family.value)
    {
      if segs[i].Some? {
        var current := segs[i].value.SRMPLS?;
        if family.None? {
          family := Some(current);
          assert IsFamily(segs[i], current);
        } else if family.value != current {
          assert IsFamily(segs[i], current);
          return true;
        }
      }
    }
    return false;
  }

  /** The segment is there, and it is SR-MPLS or not. */
  predicate IsFamily(seg: Option<Segment>, mpls: bool) {
    seg.Some? && seg.value.SRMPLS? == mpls
  }

  // ----- every segment that path computation emits

  /** What makes a node's own segment findable. */
  predicate NodeSidInRange(n: LsNode) {
    match FirstPrefixSid(n.prefixes)
    case Some(p) => n.attrs.srgbBegin != 0 && SrgbLabel(n.attrs, p.sidIndex).Some?
    case None =>
      match FirstSrv6Sid(n.sids)
      case None => false
      case Some(s) => s.sids[0].Text6?
  }

  /** The segment a node contributes to a path is known to the TED it came from. */
  lemma {:induction false} NodeSegmentIsKnown(net: Network, id: RouterId)
    requires id in net && NodeSidInRange(net[id])
    ensures NodeSegment(net[id]).Ok? && Known(net, NodeSegment(net[id]).value)
  {
    var n := net[id];
    match FirstPrefixSid(n.prefixes)
    case Some(p) =>
      assert PrefixLabel(n.attrs, p, NodeSegment(n).value.sid);
      assert NodeKnows(n, NodeSegment(n).value);
    case None =>
      var s := FirstSrv6Sid(n.sids).value;
      assert SidSource(s.sids, s.structure) in Sources(n);
      assert s.sids[0] in s.sids;
      assert SidSource(s.sids, s.structure).Lists(NodeSegment(n).value.sid6);
      assert NodeKnows(n, NodeSegment(n).value);
  }

  /** Apart from the Prefix-SID that node `id` takes its own segment from, a prefix or an adjacency
      of the TED has that label. */
  ghost predicate ListedElsewhere(net: Network, id: RouterId)
    requires id in net
  {
    match (FirstPrefixSid(net[id].prefixes), NodeSegment(net[id]))
    case (Some(own), Ok(seg)) =>
      exists k | k in net :: HasLabelBeside(net[k], if k == id then Some(own) else None, seg.sid)
    case _ => false
  }

  ghost predicate HasLabelBeside(n: LsNode, own: Option<LsPrefix>, lbl: u32) {
    || (exists p | p in n.prefixes :: Some(p) != own && PrefixLabel(n.attrs, p, lbl))
    || ListsAdjacency(n.links, lbl)
  }

  lemma {:induction false} NodeLabelSplits(n: LsNode, own: LsPrefix, lbl: u32)
    requires own in n.prefixes
    ensures NodeLabel(n, lbl) <==> PrefixLabel(n.attrs, own, lbl) || HasLabelBeside(n, Some(own), lbl)
  {
  }

  lemma {:induction false} OtherNodeLabel(n: LsNode, lbl: u32)
    ensures NodeLabel(n, lbl) <==> HasLabelBeside(n, None, lbl)
  {
  }

  lemma {:induction false} MplsSegmentIsKnownExactlyWhen(net: Network, id: RouterId, own: LsPrefix)
    requires id in net && FirstPrefixSid(net[id].prefixes) == Some(own)
    ensures NodeSegment(net[id]).Ok?
    ensures Known(net, NodeSegment(net[id]).value) <==> NodeSidInRange(net[id]) || ListedElsewhere(net, id)
  {
    var seg := NodeSegment(net[id]).value;
    assert PrefixLabel(net[id].attrs, own, seg.sid) <==> NodeSidInRange(net[id]);
    NodeLabelSplits(net[id], own, seg.sid);
    forall k | k in net
      ensures NodeKnows(net[k], seg) <==>
              HasLabelBeside(net[k], if k == id then Some(own) else None, seg.sid) || (k == id && NodeSidInRange(net[id]))
    {
      OtherNodeLabel(net[k], seg.sid);
    }
  }

  /** Nothing of a TED accounts for an IPv4 SID. */
  lemma {:induction false} IPv4SidIsUnknown(net: Network, seg: Segment)
    requires seg.SRv6? && !seg.sid6.Is6()
    ensures !Known(net, seg)
  {
  }

  lemma {:induction false} SRv6SegmentIsKnownExactlyWhen(net: Network, id: RouterId)
    requires id in net && FirstPrefixSid(net[id].prefixes).None? && NodeSegment(net[id]).Ok?
    ensures Known(net, NodeSegment(net[id]).value) <==> NodeSidInRange(net[id])
  {
    if NodeSidInRange(net[id]) {
      NodeSegmentIsKnown(net, id);
    } else {
      IPv4SidIsUnknown(net, NodeSegment(net[id]).value);
    }
  }

  /** What a node contributes to a path is in the index exactly when its SID is in range, or its
      label happens to be listed for something else as well. */
  ghost predicate SidIsIndexed(net: Network, id: RouterId)
    requires id in net
  {
    NodeSidInRange(net[id]) || ListedElsewhere(net, id)
  }

  lemma {:induction false} NodeSegmentIsKnownExactlyWhen(net: Network, id: RouterId)
    requires id in net && NodeSegment(net[id]).Ok?
    ensures Known(net, NodeSegment(net[id]).value) <==> SidIsIndexed(net, id)
  {
    match FirstPrefixSid(net[id].prefixes)
    case Some(own) => MplsSegmentIsKnownExactlyWhen(net, id, own);
    case None => SRv6SegmentIsKnownExactlyWhen(net, id);
  }

  lemma ListsLabelSnoc(attrs: NodeAttrs, ps: seq<LsPrefix>, i: nat)
    requires i < |ps|
    ensures forall x :: ListsLabel(attrs, ps[..i + 1], x) <==>
              ListsLabel(attrs, ps[..i], x) || PrefixLabel(attrs, ps[i], x)
  {
    assert forall q :: q in ps[..i + 1] <==> q in ps[..i] || q == ps[i];
  }

  lemma ListsSnoc(sids: seq<SidText>, i: nat, st: SidStructure)
    requires i < |sids|
    ensures forall a :: SidSource(sids[..i + 1], st).Lists(a) <==>
              SidSource(sids[..i], st).Lists(a) || SidSource([sids[i]], st).Lists(a)
    ensures forall p :: YieldsLocator(SidSource(sids[..i + 1], st), p) <==>
              YieldsLocator(SidSource(sids[..i], st), p) || YieldsLocator(SidSource([sids[i]], st), p)
  {
    assert forall t :: t in sids[..i + 1] <==> t in sids[..i] || t == sids[i];
    var init, all, last := SidSource(sids[..i], st), SidSource(sids[..i + 1], st), SidSource([sids[i]], st);
    assert forall a :: all.Lists(a) <==> init.Lists(a) || last.Lists(a);
    assert forall a, p :: LocatorOf(all, a, p) <==> LocatorOf(init, a, p) || LocatorOf(last, a, p);
  }

  lemma SingleSid(t: SidText, st: SidStructure)
    ensures forall a :: SidSource([t], st).Lists(a) <==> a.Is6() && ParseAddr(t) == Some(a)
    ensures forall p :: YieldsLocator(SidSource([t], st), p) <==>
              ParseAddr(t).Some? && ParseAddr(t).value.Is6() && SidSource([t], st).HasLocator()
              && p == PrefixOf(ParseAddr(t).value, SidSource([t], st).LocatorBits())
  {
    var src := SidSource([t], st);
    assert t in src.sids;
    var parsed := ParseAddr(t);
    assert forall a :: src.Lists(a) <==> a.Is6() && parsed == Some(a);
    if parsed.Some? && parsed.value.Is6() && src.HasLocator() {
      assert LocatorOf(src, parsed.value, PrefixOf(parsed.value, src.LocatorBits()));
    }
  }

  lemma LinksSnoc(ls: seq<LsLink>, i: nat)
    requires i < |ls|
    ensures forall x :: ListsAdjacency(ls[..i + 1], x) <==>
              ListsAdjacency(ls[..i], x) || (x != 0 && ls[i].adjSid == x)
    ensures LinkSources(ls[..i + 1]) == LinkSources(ls[..i]) + LinkSources([ls[i]])
    ensures LinkSources([ls[i]]) == if ls[i].endX.None? then {}
                                    else {SidSource(ls[i].endX.value.sids, ls[i].endX.value.structure)}
  {
    assert forall l :: l in ls[..i + 1] <==> l in ls[..i] || l == ls[i];
    assert ls[..i + 1] == ls[..i] + [ls[i]];
    if ls[i].adjSid != 0 {
      assert ListsAdjacency(ls[..i + 1], ls[i].adjSid) by {
        assert ls[i] in ls[..i + 1];
      }
    }
  }

  lemma SidsSnoc(ss: seq<LsSrv6Sid>, i: nat)
    requires i < |ss|
    ensures SidSources(ss[..i + 1]) == SidSources(ss[..i]) + {SidSource(ss[i].sids, ss[i].structure)}
  {
    assert forall s :: s in ss[..i + 1] <==> s in ss[..i] || s == ss[i];
  }
}
