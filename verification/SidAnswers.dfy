/** What the SID index answers, in arithmetic on what the TED advertises: labels inside SRGBs,
    adjacency labels, SIDs, and leading bits of locators (pkg/table/sid_validate.go). */
module SidAnswers {
  import opened Bytes
  import opened Netip
  import opened NodeSegments
  import opened Segments
  import opened SidIndex
  import opened Ted
  import opened Wrappers

  // ----- leading bits

  /** The first `j` of eight bits, as a number, are what is left when the others are divided off. */
  function Below(j: nat): nat
    requires j <= 8
    ensures Below(j) > 0
  {
    [256, 128, 64, 32, 16, 8, 4, 2, 1][j]
  }

  predicate BitOf(x: byte, i: nat)
    requires i < 8
  {
    x / Below(i + 1) % 2 == 1
  }

  lemma {:induction false} UpperBits(x: byte)
    ensures x / 128 == x / 128 % 2 && x / 64 == 2 * (x / 128) + x / 64 % 2
    ensures x / 32 == 2 * (x / 64) + x / 32 % 2 && x / 16 == 2 * (x / 32) + x / 16 % 2
  {
  }

  lemma {:induction false} LowerBits(x: byte)
    ensures x / 8 == 2 * (x / 16) + x / 8 % 2 && x / 4 == 2 * (x / 8) + x / 4 % 2
    ensures x / 2 == 2 * (x / 4) + x / 2 % 2 && x == 2 * (x / 2) + x % 2
  {
  }

  lemma {:induction false} OneMoreBit(x: byte, j: nat)
    requires j < 8
    ensures x / Below(j + 1) == 2 * (x / Below(j)) + if BitOf(x, j) then 1 else 0
  {
    UpperBits(x);
    LowerBits(x);
  }

  lemma {:induction false} ByteBits(x: byte, y: byte, j: nat)
    requires j <= 8
    ensures x / Below(j) == y / Below(j) <==> forall i | 0 <= i < j :: BitOf(x, i) == BitOf(y, i)
  {
    if j > 0 {
      ByteBits(x, y, j - 1);
      OneMoreBit(x, j - 1);
      OneMoreBit(y, j - 1);
    }
  }

  lemma {:induction false} BitAtIsBitOf(b: Bytes16, k: nat, i: nat)
    requires k < 16 && i < 8
    ensures BitAt(b, 8 * k + i) <==> BitOf(b[k], i)
  {
    assert (8 * k + i) / 8 == k && (8 * k + i) % 8 == i;
  }

  /** The first `n` bits agree: whole bytes, and the upper bits of the next one. */
  predicate AgreeOn(a: Bytes16, b: Bytes16, n: nat)
    requires n <= 128
  {
    a[..n / 8] == b[..n / 8] && (n % 8 > 0 ==> a[n / 8] / Below(n % 8) == b[n / 8] / Below(n % 8))
  }

  lemma {:induction false} PartOfByte(a: Bytes16, b: Bytes16, k: nat, m: nat)
    requires k < 16 && m <= 8 && forall i | 8 * k <= i < 8 * k + m :: BitAt(a, i) == BitAt(b, i)
    ensures a[k] / Below(m) == b[k] / Below(m)
  {
    forall i | 0 <= i < m
      ensures BitOf(a[k], i) == BitOf(b[k], i)
    {
      assert BitAt(a, 8 * k + i) == BitAt(b, 8 * k + i);
      BitAtIsBitOf(a, k, i);
      BitAtIsBitOf(b, k, i);
    }
    ByteBits(a[k], b[k], m);
  }

  lemma {:induction false} SameBytes(a: Bytes16, b: Bytes16, n: nat)
    requires n <= 128 && forall i | 0 <= i < n :: BitAt(a, i) == BitAt(b, i)
    ensures AgreeOn(a, b, n)
  {
    forall k | 0 <= k < n / 8
      ensures a[k] == b[k]
    {
      PartOfByte(a, b, k, 8);
    }
    if n % 8 > 0 {
      PartOfByte(a, b, n / 8, n % 8);
    }
  }

  lemma {:induction false} SameBits(a: Bytes16, b: Bytes16, n: nat, i: nat)
    requires n <= 128 && AgreeOn(a, b, n) && i < n
    ensures BitAt(a, i) == BitAt(b, i)
  {
    var k := i / 8;
    BitAtIsBitOf(a, k, i % 8);
    BitAtIsBitOf(b, k, i % 8);
    if k < n / 8 {
      assert a[k] == a[..n / 8][k] && b[k] == b[..n / 8][k];
    } else {
      ByteBits(a[k], b[k], n % 8);
    }
  }

  /** Bits are counted from the top of the first byte. */
  lemma {:induction false} LeadingBitsAgree(a: Bytes16, b: Bytes16, n: nat)
    requires n <= 128
    ensures (forall i | 0 <= i < n :: BitAt(a, i) == BitAt(b, i)) <==> AgreeOn(a, b, n)
  {
    if AgreeOn(a, b, n) {
      forall i | 0 <= i < n
        ensures BitAt(a, i) == BitAt(b, i)
      {
        SameBits(a, b, n, i);
      }
    } else if forall i | 0 <= i < n :: BitAt(a, i) == BitAt(b, i) {
      SameBytes(a, b, n);
    }
  }

  // ----- labels

  /** The label of a Prefix-SID: SRGB base plus index, in 20 bits and below the SRGB's end, if it has
      one. Without a base there is none. */
  predicate IsPrefixLabel(attrs: NodeAttrs, p: LsPrefix, x: nat) {
    && attrs.srgbBegin != 0 && p.hasSidIndex && x == attrs.srgbBegin + p.sidIndex && x <= 0xF_FFFF
    && (attrs.srgbEnd > attrs.srgbBegin ==> x < attrs.srgbEnd)
  }

  lemma {:induction false} PrefixLabelMeans(attrs: NodeAttrs, p: LsPrefix, x: u32)
    ensures PrefixLabel(attrs, p, x) <==> IsPrefixLabel(attrs, p, x)
  {
  }

  /** Some node of the TED has a Prefix-SID or an adjacency with this label. */
  ghost predicate LabelIsAdvertised(net: Network, x: u32) {
    || (exists id, p :: id in net && p in net[id].prefixes && IsPrefixLabel(net[id].attrs, p, x))
    || (x != 0 && exists id, l :: id in net && l in net[id].links && l.adjSid == x)
  }

  /** A label is answered with yes exactly when it is advertised. */
  lemma {:induction false} LabelIsAnsweredExactlyWhen(idx: SIDIndex, net: Network, seg: Segment)
    requires idx.Holds(net, net.Keys) && seg.SRMPLS?
    ensures idx.Answer(seg) <==> LabelIsAdvertised(net, seg.sid)
  {
    AnswerIsKnown(idx, net, seg);
    forall id, p | id in net && p in net[id].prefixes
      ensures PrefixLabel(net[id].attrs, p, seg.sid) <==> IsPrefixLabel(net[id].attrs, p, seg.sid)
    {
      PrefixLabelMeans(net[id].attrs, p, seg.sid);
    }
    if idx.Answer(seg) {
      var id :| id in net && NodeLabel(net[id], seg.sid);
      if ListsLabel(net[id].attrs, net[id].prefixes, seg.sid) {
        var p :| p in net[id].prefixes && PrefixLabel(net[id].attrs, p, seg.sid);
      }
    }
    if LabelIsAdvertised(net, seg.sid) {
      if id, p :| id in net && p in net[id].prefixes && IsPrefixLabel(net[id].attrs, p, seg.sid) {
        assert NodeKnows(net[id], seg);
      } else {
        var id, l :| id in net && l in net[id].links && l.adjSid == seg.sid;
        assert NodeKnows(net[id], seg);
      }
    }
  }

  // ----- SRv6 SIDs

  /** The node advertises these SIDs under this structure: as its own, or for an adjacency. */
  ghost predicate Advertises(n: LsNode, sids: seq<SidText>, st: SidStructure) {
    || (exists s :: s in n.sids && s.sids == sids && s.structure == st)
    || (exists l :: l in n.links && l.endX.Some? && l.endX.value.sids == sids && l.endX.value.structure == st)
  }

  /** An advertised IPv6 SID accounts for the segment: it is the segment's SID; or the segment is a
      uSID container that begins with the SID's locator, block and node bits of 1 to 128, and that
      declares no shorter one. */
  predicate Accounts(a: Bytes16, st: SidStructure, seg: Segment)
    requires seg.SRv6?
  {
    seg.sid6.V6? &&
    var bits := (st.block as nat) + st.node;
    || seg.sid6.b16 == a
    || (seg.usid && 0 < bits <= 128 && AgreeOn(a, seg.sid6.b16, bits) && DeclaresAtLeast(seg, bits))
  }

  /** Four structure bytes declare a locator by their first two, unless these are 0. */
  predicate DeclaresAtLeast(seg: Segment, bits: nat)
    requires seg.SRv6?
  {
    seg.structure.Some? && |seg.structure.value| == 4 ==>
      var declared := (seg.structure.value[0] as nat) + seg.structure.value[1];
      declared > 0 ==> bits <= declared
  }

  ghost predicate IsAccountedFor(n: LsNode, seg: Segment)
    requires seg.SRv6?
  {
    exists sids, st, a: Bytes16 :: Advertises(n, sids, st) && Text6(a) in sids && Accounts(a, st, seg)
  }

  lemma {:induction false} SourceIsAdvertised(n: LsNode, sids: seq<SidText>, st: SidStructure)
    ensures SidSource(sids, st) in Sources(n) <==> Advertises(n, sids, st)
  {
  }

  lemma {:induction false} SourceLists(src: SidSource, a: Addr)
    ensures src.Lists(a) <==> a.V6? && Text6(a.b16) in src.sids
  {
    if src.Lists(a) {
      var t :| t in src.sids && ParseAddr(t) == Some(a);
      assert t == Text6(a.b16);
    }
  }

  lemma {:induction false} ContainerMeans(src: SidSource, a: Addr, seg: Segment)
    requires seg.SRv6? && src.Lists(a)
    ensures a.V6?
    ensures (seg.sid6 == a || (seg.usid && CarriesContainer(src, a, seg))) <==> Accounts(a.b16, src.structure, seg)
  {
    var bits := src.LocatorBits();
    if seg.sid6.V6? && bits <= 128 {
      LeadingBitsAgree(a.b16, seg.sid6.b16, bits);
    }
  }

  lemma {:induction false} NodeAccounts(n: LsNode, seg: Segment)
    requires seg.SRv6?
    ensures NodeKnows(n, seg) <==> IsAccountedFor(n, seg)
  {
    if SomeLists(Sources(n), seg.sid6) {
      var src :| src in Sources(n) && src.Lists(seg.sid6);
      SourceAccounts(n, src, seg.sid6, seg);
    } else if seg.usid && FitsLocator(n, seg) {
      var src, a :| src in Sources(n) && CarriesContainer(src, a, seg);
      SourceAccounts(n, src, a, seg);
    }
    if IsAccountedFor(n, seg) {
      var sids, st, a: Bytes16 :| Advertises(n, sids, st) && Text6(a) in sids && Accounts(a, st, seg);
      SourceIsAdvertised(n, sids, st);
      SourceLists(SidSource(sids, st), V6(a));
      ContainerMeans(SidSource(sids, st), V6(a), seg);
    }
  }

  lemma {:induction false} SourceAccounts(n: LsNode, src: SidSource, a: Addr, seg: Segment)
    requires seg.SRv6? && src in Sources(n) && src.Lists(a)
    requires seg.sid6 == a || (seg.usid && CarriesContainer(src, a, seg))
    ensures IsAccountedFor(n, seg)
  {
    SourceLists(src, a);
    SourceIsAdvertised(n, src.sids, src.structure);
    ContainerMeans(src, a, seg);
    assert Advertises(n, src.sids, src.structure) && Text6(a.b16) in src.sids;
  }

  /** An SRv6 segment is answered with yes exactly when an advertised SID accounts for it. */
  lemma {:induction false} SidIsAnsweredExactlyWhen(idx: SIDIndex, net: Network, seg: Segment)
    requires idx.Holds(net, net.Keys) && seg.SRv6?
    ensures idx.Answer(seg) <==> exists id :: id in net && IsAccountedFor(net[id], seg)
  {
    AnswerIsKnown(idx, net, seg);
    forall id | id in net
      ensures NodeKnows(net[id], seg) <==> IsAccountedFor(net[id], seg)
    {
      NodeAccounts(net[id], seg);
    }
  }

  // ----- a router's own SID

  /** A router's own SID is in range: its first Prefix-SID has a label, or, without one, its first SRv6
      SID is an IPv6 address. */
  lemma {:induction false} NodeSidIsInRangeExactlyWhen(n: LsNode)
    ensures NodeSidInRange(n) <==>
            || (exists i: nat :: IsFirstIndexed(n.prefixes, i) && IsPrefixLabel(n.attrs, n.prefixes[i], n.attrs.srgbBegin + n.prefixes[i].sidIndex))
            || ((forall p | p in n.prefixes :: !p.hasSidIndex) && exists i: nat :: IsFirstWithSids(n.sids, i) && n.sids[i].sids[0].Text6?)
  {
    if exists p :: p in n.prefixes && p.hasSidIndex {
      var i := FirstIndexed(n.prefixes);
      PrefixSidIsFirst(n.prefixes, i);
      assert n.prefixes[i] in n.prefixes;
      assert forall j: nat | IsFirstIndexed(n.prefixes, j) :: j == i;
    } else if exists s :: s in n.sids && |s.sids| > 0 {
      var i := FirstWithSids(n.sids);
      Srv6SidIsFirst(n.sids, i);
      assert forall j: nat | IsFirstWithSids(n.sids, j) :: j == i;
      assert forall j: nat | j < |n.prefixes| :: n.prefixes[j] in n.prefixes;
    } else {
      assert forall j: nat | j < |n.prefixes| :: n.prefixes[j] in n.prefixes;
      assert forall j: nat | j < |n.sids| :: n.sids[j] in n.sids;
    }
  }
}
