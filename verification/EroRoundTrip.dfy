/** Which segment lists survive an explicit route object. */
module EroRoundTrip {
  import opened Bytes
  import opened Netip
  import opened Segments
  import opened Wrappers
  import opened Ero

  /** A route object can be built and serialized for the segment. */
  predicate Sendable(seg: Segment) {
    match seg
    case SRMPLS(_, _, _, _, localAddr, remoteAddr) =>
      var local, remote := localAddr.Unmap(), remoteAddr.Unmap();
      remote.IsValid() ==>
        && local.IsValid() && local.Is4() == remote.Is4()
        && (local.Is4() || !(local.IsLinkLocalUnicast() || remote.IsLinkLocalUnicast()))
    case SRv6(_, localAddr, _, _, _) => localAddr.IsValid()
  }

  /** Its bytes are as long as the lengths in the subobject say. */
  predicate Framed(seg: Segment) {
    match seg
    case SRMPLS(_, _, _, _, _, _) => true
    case SRv6(sid, local, remote, structure, _) =>
      sid.V6? && local.V6? && !remote.V4? && (structure.Some? ==> |structure.value| == 4)
  }

  /** What the wire keeps of a segment: 20 label bits, 3 TC bits, and addresses unmapped. */
  function OnWire(seg: Segment): Segment {
    match seg
    case SRMPLS(sid, ttl, tc, s, local, remote) =>
      SRMPLS(sid % 0x10_0000, ttl, tc % 8, s, local.Unmap(), remote.Unmap())
    case SRv6(_, _, _, _, _) => seg
  }

  predicate Kept(seg: Segment) {
    Framed(seg) && OnWire(seg) == seg
  }

  /** The same in the caller's terms. */
  lemma {:induction false} KeptMeans(seg: Segment)
    ensures Kept(seg) <==>
            match seg
            case SRMPLS(sid, _, tc, _, local, remote) =>
              sid < 0x10_0000 && tc < 8 && !local.Is4In6() && !remote.Is4In6()
            case SRv6(sid, local, remote, structure, _) =>
              sid.V6? && local.V6? && !remote.V4? && (structure.Some? ==> |structure.value| == 4)
  {
  }

  /** Which addresses an MPLS NAI of this type carries. */
  predicate CarriesLocal(naiType: byte) {
    naiType in {NAI_IPV4_NODE, NAI_IPV6_NODE, NAI_IPV4_ADJACENCY, NAI_IPV6_ADJACENCY_GLOBAL}
  }

  predicate CarriesRemote(naiType: byte) {
    naiType in {NAI_IPV4_ADJACENCY, NAI_IPV6_ADJACENCY_GLOBAL}
  }

  /** What decoding makes of a subobject: an MPLS hop keeps what its flags and NAI type announce. */
  function WireForm(o: Subobject): Subobject {
    match o
    case SR(l, length, nai, f, s, c, m, SRMPLS(sid, ttl, tc, bottom, local, remote)) =>
      var local' := if !f && CarriesLocal(nai) then local.Unmap() else Invalid;
      var remote' := if !f && CarriesRemote(nai) then remote.Unmap() else Invalid;
      SR(l, length, nai, f, s, c, m,
         if c then SRMPLS(sid % 0x10_0000, ttl, tc % 8, bottom, local', remote')
         else SRMPLS(sid % 0x10_0000, 0, 0, false, local', remote'))
    case _ => o
  }

  /** A subobject whose bytes are what its flags announce, whether a constructor made it or not. */
  predicate OnTheWire(o: Subobject) {
    match o
    case SR(_, _, nai, f, _, _, _, seg) => seg.SRMPLS? && nai < 16 && SerializeNAI(o).Some? && (f || NaiLength(nai).Some?)
    case SRv6Hop(_, _, nai, _, t, f, s, seg) =>
      && seg.SRv6? && !f && t == seg.structure.Some? && (t ==> |seg.structure.value| == 4)
      && (if s then seg.sid6.Invalid? else seg.sid6.V6?) && seg.localAddr.V6?
      && ((nai == NAI_IPV6_NODE && seg.remoteAddr.Invalid?) || (nai == NAI_IPV6_ADJACENCY_GLOBAL && seg.remoteAddr.V6?))
    case RSVPIPv4Prefix(_, a, n) => a.V4? && n <= 32
  }

  /** What the constructors return for a framed segment is such a subobject, and keeps the segment
      as the wire does. */
  lemma {:induction false} ConstructedIsOnTheWire(seg: Segment)
    requires Sendable(seg) && Framed(seg)
    ensures NewEroSubobject(seg).Some? && OnTheWire(NewEroSubobject(seg).value)
    ensures ToSegment(WireForm(NewEroSubobject(seg).value)) == Some(OnWire(seg))
  {
  }

  // ----- bit fields

  lemma FourFlagsRead(f8: bool, f4: bool, f2: bool, f1: bool)
    ensures var b := FourFlags(f8, f4, f2, f1); Flag(b, 8) == f8 && Flag(b, 4) == f4 && Flag(b, 2) == f2 && Flag(b, 1) == f1
  {
  }

  lemma SidWordRead(seg: Segment, c: bool)
    requires seg.SRMPLS?
    ensures var w := SidWord(seg, c);
            && w / 0x1000 == seg.sid % 0x10_0000
            && (c ==> w % 0x100 == seg.ttl && w / 0x200 % 8 == seg.tc % 8 && (w / 0x100 % 2 == 1 <==> seg.s))
  {
    if c {
      WordFields(seg.sid % 0x10_0000, seg.tc % 8, Bit(seg.s), seg.ttl);
    }
  }

  lemma {:induction false} WordFields(sid: nat, tc: nat, s: nat, ttl: nat)
    requires tc < 8 && s < 2 && ttl < 0x100
    ensures var w := sid * 0x1000 + tc * 0x200 + 0x100 * s + ttl;
            w / 0x1000 == sid && w % 0x100 == ttl && w / 0x200 % 8 == tc && w / 0x100 % 2 == s
  {
    var w := sid * 0x1000 + tc * 0x200 + 0x100 * s + ttl;
    assert w / 0x100 == sid * 0x10 + tc * 2 + s;
    assert w / 0x200 == sid * 8 + tc;
  }

  /** The first four bytes of a subobject. */
  lemma {:induction false} FirstFourRead(kind: byte, l: bool, length: byte, nai: byte, flags: byte)
    requires kind < 0x80 && nai < 16
    ensures var b := FirstFour(kind, l, length, nai, flags);
            b[0] % 0x80 == kind && Flag(b[0], 0x80) == l && b[1] == length && b[2] / 16 == nai && b[3] == flags
  {
  }

  // ----- one subobject

  lemma {:induction false} NaiIsRead(o: Subobject)
    requires o.SR? && OnTheWire(o)
    ensures var nai := SerializeNAI(o).value;
            && (if o.fFlag then Some(0) else NaiLength(o.naiType)) == Some(|nai|)
            && Len(o) == Some(8 + |nai|)
            && ReadNAISR(nai, |nai|) == (WireForm(o).segment.localAddr, WireForm(o).segment.remoteAddr)
  {
  }

  lemma {:induction false} SRDecodes(o: Subobject, rest: bytes)
    requires o.SR? && OnTheWire(o)
    ensures SerializeSR(o).Some?
    ensures Len(o) == Some(|SerializeSR(o).value|)
    ensures DecodeSubobject(SerializeSR(o).value + rest) == Some(WireForm(o))
  {
    NaiIsRead(o);
    var nai := SerializeNAI(o).value;
    var flags := FourFlags(o.fFlag, o.sFlag, o.cFlag, o.mFlag);
    var first := FirstFour(EROSR, o.lFlag, o.length, o.naiType, flags);
    var word := U32Bytes(SidWord(o.segment, o.cFlag));
    var b := SerializeSR(o).value + rest;
    assert b == first + word + (nai + rest);
    U32RoundTrip(first, SidWord(o.segment, o.cFlag), nai + rest);
    SidWordRead(o.segment, o.cFlag);
    FourFlagsRead(o.fFlag, o.sFlag, o.cFlag, o.mFlag);
    FirstFourRead(EROSR, o.lFlag, o.length, o.naiType, flags);
    assert b[8..8 + |nai|] == nai;
    assert b[..4] == first;
  }

  lemma {:induction false} SRv6NaiRead(o: Subobject)
    requires o.SRv6Hop? && OnTheWire(o)
    ensures var seg := o.segment;
            var nai := seg.localAddr.AsSlice() + seg.remoteAddr.AsSlice();
            && NaiLengthSRv6(o.naiType) == Some(|nai|)
            && Len(o) == Some(8 + |seg.sid6.AsSlice()| + |nai| + if o.tFlag then 8 else 0)
            && ReadNAI(nai, |nai|) == (seg.localAddr, seg.remoteAddr)
  {
    var seg := o.segment;
    if seg.remoteAddr.V6? {
      var nai := seg.localAddr.AsSlice() + seg.remoteAddr.AsSlice();
      assert nai[..16] == seg.localAddr.b16 && nai[16..32] == seg.remoteAddr.b16;
    } else {
      assert seg.localAddr.AsSlice() + seg.remoteAddr.AsSlice() == seg.localAddr.b16;
    }
  }

  lemma {:induction false} USidIsBehavior(seg: Segment)
    requires seg.SRv6? && seg.localAddr.IsValid()
    ensures Behavior(seg).Some?
    ensures (Behavior(seg).value == BEHAVIOR_UN || Behavior(seg).value == BEHAVIOR_UA) == seg.usid
  {
  }

  lemma {:induction false} MiddlePart(x: bytes, y: bytes, z: bytes)
    ensures (x + y + z)[|x|..|x| + |y|] == y
  {
  }

  lemma {:induction false} FourParts(head: bytes, x: bytes, y: bytes, z: bytes, rest: bytes)
    ensures var b, i, j, k := head + (x + y + z + rest), |head| + |x|, |head| + |x| + |y|, |head| + |x| + |y| + |z|;
            b[|head|..i] == x && b[i..j] == y && b[j..k] == z
  {
    var b := head + (x + y + z + rest);
    MiddlePart(head, x, y + z + rest);
    MiddlePart(head + x, y, z + rest);
    MiddlePart(head + x + y, z, rest);
    assert b == head + x + (y + z + rest);
    assert b == head + x + y + (z + rest);
    assert b == head + x + y + z + rest;
  }

  lemma {:induction false} SliceOfSlice(b: bytes, i: nat, part: bytes, n: nat)
    requires i + |part| <= |b| && b[i..i + |part|] == part && n <= |part|
    ensures b[i..i + n] == part[..n]
  {
  }

  /** The eight bytes in front of an SRv6 SID. */
  function SRv6Head(o: Subobject, behavior: u16): (b: bytes)
    requires o.SRv6Hop?
    ensures |b| == 8
  {
    FirstFour(EROSRV6, o.lFlag, o.length, o.naiType, FourFlags(o.vFlag, o.tFlag, o.fFlag, o.sFlag)) + [0, 0] + U16Bytes(behavior)
  }

  lemma {:induction false} SRv6HeadIsRead(o: Subobject, behavior: u16, tail: bytes)
    requires o.SRv6Hop? && o.naiType < 16
    ensures var b := SRv6Head(o, behavior) + tail;
            && b[..4] == FirstFour(EROSRV6, o.lFlag, o.length, o.naiType, FourFlags(o.vFlag, o.tFlag, o.fFlag, o.sFlag))
            && ReadU16(b, 6) == behavior
  {
    var first := FirstFour(EROSRV6, o.lFlag, o.length, o.naiType, FourFlags(o.vFlag, o.tFlag, o.fFlag, o.sFlag));
    assert SRv6Head(o, behavior) + tail == (first + [0, 0]) + U16Bytes(behavior) + tail;
    U16RoundTrip(first + [0, 0], behavior, tail);
  }

  function StructureBytes(seg: Segment): bytes
    requires seg.SRv6?
  {
    if seg.structure.Some? then seg.structure.value + Zeros(4) else []
  }

  lemma {:induction false} SRv6Parts(o: Subobject, rest: bytes)
    requires o.SRv6Hop? && OnTheWire(o)
    ensures SerializeSRv6(o).Some? && Behavior(o.segment).Some?
    ensures var seg := o.segment;
            var nai := seg.localAddr.AsSlice() + seg.remoteAddr.AsSlice();
            && SerializeSRv6(o).value + rest
               == SRv6Head(o, Behavior(seg).value) + (seg.sid6.AsSlice() + nai + StructureBytes(seg) + rest)
            && |SerializeSRv6(o).value| == 8 + |seg.sid6.AsSlice()| + |nai| + |StructureBytes(seg)|
  {
  }

  /** Where the parts of an SRv6 subobject lie. */
  lemma {:induction false} SRv6Layout(o: Subobject, rest: bytes)
    requires o.SRv6Hop? && OnTheWire(o)
    ensures SerializeSRv6(o).Some?
    ensures var seg, b := o.segment, SerializeSRv6(o).value + rest;
            var nai := seg.localAddr.AsSlice() + seg.remoteAddr.AsSlice();
            var sidEnd := 8 + |seg.sid6.AsSlice()|;
            var naiEnd := sidEnd + |nai|;
            && |SerializeSRv6(o).value| == naiEnd + (if o.tFlag then 8 else 0)
            && b[..4] == FirstFour(EROSRV6, o.lFlag, o.length, o.naiType, FourFlags(o.vFlag, o.tFlag, o.fFlag, o.sFlag))
            && Behavior(seg) == Some(ReadU16(b, 6))
            && b[8..sidEnd] == seg.sid6.AsSlice() && b[sidEnd..naiEnd] == nai
            && (o.tFlag ==> b[naiEnd..naiEnd + 4] == seg.structure.value)
  {
    var seg := o.segment;
    var sid, nai, structure := seg.sid6.AsSlice(), seg.localAddr.AsSlice() + seg.remoteAddr.AsSlice(), StructureBytes(seg);
    var behavior := Behavior(seg).value;
    SRv6Parts(o, rest);
    SRv6HeadIsRead(o, behavior, sid + nai + structure + rest);
    FourParts(SRv6Head(o, behavior), sid, nai, structure, rest);
    if o.tFlag {
      SliceOfSlice(SerializeSRv6(o).value + rest, 8 + |sid| + |nai|, structure, 4);
      assert structure[..4] == seg.structure.value;
    }
  }

  /** The first eight bytes, field by field. */
  lemma {:induction false} SRv6FieldsRead(o: Subobject, rest: bytes)
    requires o.SRv6Hop? && OnTheWire(o)
    ensures SerializeSRv6(o).Some?
    ensures var b := SerializeSRv6(o).value + rest;
            && b[0] % 0x80 == EROSRV6 && Flag(b[0], 0x80) == o.lFlag && b[1] == o.length && b[2] / 16 == o.naiType
            && Flag(b[3], 8) == o.vFlag && Flag(b[3], 4) == o.tFlag && Flag(b[3], 2) == o.fFlag && Flag(b[3], 1) == o.sFlag
            && (ReadU16(b, 6) == BEHAVIOR_UN || ReadU16(b, 6) == BEHAVIOR_UA) == o.segment.usid
  {
    var flags := FourFlags(o.vFlag, o.tFlag, o.fFlag, o.sFlag);
    SRv6Layout(o, rest);
    FourFlagsRead(o.vFlag, o.tFlag, o.fFlag, o.sFlag);
    USidIsBehavior(o.segment);
    FirstFourRead(EROSRV6, o.lFlag, o.length, o.naiType, flags);
    var b := SerializeSRv6(o).value + rest;
    assert b[3] == b[..4][3] && b[2] == b[..4][2] && b[1] == b[..4][1] && b[0] == b[..4][0];
  }

  lemma {:induction false} SRv6Decodes(o: Subobject, rest: bytes)
    requires o.SRv6Hop? && OnTheWire(o)
    ensures SerializeSRv6(o).Some?
    ensures Len(o) == Some(|SerializeSRv6(o).value|)
    ensures DecodeSubobject(SerializeSRv6(o).value + rest) == Some(o)
  {
    SRv6Layout(o, rest);
    SRv6FieldsRead(o, rest);
    SRv6NaiRead(o);
  }

  lemma {:induction false} RSVPDecodes(o: Subobject, rest: bytes)
    requires o.RSVPIPv4Prefix? && OnTheWire(o)
    ensures SerializeRSVP(o).Some? && |SerializeRSVP(o).value| == 8
    ensures DecodeSubobject(SerializeRSVP(o).value + rest) == Some(o)
  {
    var b := SerializeRSVP(o).value + rest;
    assert b[2..6] == o.address.b4;
  }

  lemma {:induction false} OneDecodes(o: Subobject, rest: bytes)
    requires OnTheWire(o)
    ensures Typed(o) && Serialize(o).Some?
    ensures Len(o) == Some(|Serialize(o).value|) && Len(WireForm(o)) == Len(o)
    ensures DecodeSubobject(Serialize(o).value + rest) == Some(WireForm(o))
  {
    match o
    case SR(_, _, _, _, _, _, _, _) => SRDecodes(o, rest);
    case SRv6Hop(_, _, _, _, _, _, _, _) => SRv6Decodes(o, rest);
    case RSVPIPv4Prefix(_, _, _) => RSVPDecodes(o, rest);
  }

  lemma {:induction false} HopHasLen(o: Subobject)
    requires OnTheWire(o)
    ensures Len(o).Some?
  {
    OneDecodes(o, []);
  }

  // ----- lengths

  /** What follows the first eight bytes: as announced, and as written. */
  function AnnouncedTail(seg: Segment): nat
    requires seg.SRv6?
  {
    16 + (if seg.remoteAddr.IsValid() then 32 else 16) + if seg.structure.Some? then 8 else 0
  }

  function WrittenTail(seg: Segment): nat
    requires seg.SRv6?
  {
    |seg.sid6.AsSlice()| + |seg.localAddr.AsSlice()| + |seg.remoteAddr.AsSlice()|
    + if seg.structure.Some? then |seg.structure.value| + 4 else 0
  }

  /** `Len` of a constructed SR-MPLS subobject is its size; that of an SRv6 one is if and only if
      its addresses and its structure make up what the flags announce. */
  lemma {:induction false} LenIsSizeExactlyWhen(seg: Segment)
    requires Sendable(seg)
    ensures NewEroSubobject(seg).Some? && Serialize(NewEroSubobject(seg).value).Some?
    ensures Len(NewEroSubobject(seg).value) == Some(|Serialize(NewEroSubobject(seg).value).value|)
            <==> (seg.SRv6? ==> AnnouncedTail(seg) == WrittenTail(seg))
  {
    if seg.SRMPLS? {
      ConstructedIsOnTheWire(seg);
      SRDecodes(NewEroSubobject(seg).value, []);
    }
  }

  // ----- lists

  function WireForms(os: seq<Subobject>): seq<Subobject> {
    if os == [] then [] else [WireForm(os[0])] + WireForms(os[1..])
  }

  function OnWireAll(segs: seq<Segment>): seq<Segment> {
    if segs == [] then [] else [OnWire(segs[0])] + OnWireAll(segs[1..])
  }

  /** What `EroObject.Len` adds up, before its 16 bits cut it. */
  function BodyLength(os: seq<Subobject>): nat {
    if os == [] then 0
    else (match Len(os[0]) case None => 0 case Some(n) => n) + BodyLength(os[1..])
  }

  /** Such a subobject in front of others. */
  lemma {:induction false} HopInFront(o: Subobject, rest: bytes)
    requires OnTheWire(o) && Typed(o)
    ensures Serialize(o).Some? && Len(o) == Some(|Serialize(o).value|)
    ensures DecodeBody(Serialize(o).value + rest) ==
            match DecodeBody(rest) case None => None case Some(os) => Some([WireForm(o)] + os)
  {
    OneDecodes(o, rest);
    var one := Serialize(o).value;
    assert (one + rest)[|one|..] == rest;
  }

  /** Any list of hops, RSVP hops among them, is decoded subobject by subobject. */
  lemma {:induction false} BodyRoundTrip(os: seq<Subobject>)
    requires forall o | o in os :: OnTheWire(o) && Typed(o)
    ensures SerializeBody(os).Some? && |SerializeBody(os).value| == BodyLength(os)
    ensures DecodeBody(SerializeBody(os).value) == Some(WireForms(os))
  {
    if os == [] {
      assert SerializeBody(os) == Some([]);
    } else {
      BodyRoundTrip(os[1..]);
      HopInFront(os[0], SerializeBody(os[1..]).value);
    }
  }

  /** The route a list of segments becomes, and the list a route is read as. */
  function Encode(segs: seq<Segment>): Option<bytes> {
    match NewEroSubobjects(segs)
    case None => None
    case Some(os) => SerializeBody(os)
  }

  function Decode(b: bytes): Option<seq<Segment>> {
    match DecodeBody(b)
    case None => None
    case Some(os) => Some(ToSegmentList(os))
  }

  /** Only an MPLS segment can fail to become a subobject; an SRv6 one fails when it is serialized. */
  lemma {:induction false} OneConstructs(seg: Segment)
    ensures NewEroSubobject(seg).Some? <==> seg.SRv6? || Sendable(seg)
  {
  }

  lemma {:induction false} ConstructsExactlyWhen(segs: seq<Segment>)
    ensures NewEroSubobjects(segs).Some? <==> forall seg | seg in segs :: seg.SRv6? || Sendable(seg)
  {
    if segs != [] {
      OneConstructs(segs[0]);
      ConstructsExactlyWhen(segs[1..]);
      assert forall seg | seg in segs :: seg == segs[0] || seg in segs[1..];
    }
  }

  lemma {:induction false} OneEncodes(seg: Segment)
    ensures Sendable(seg) <==> NewEroSubobject(seg).Some? && Serialize(NewEroSubobject(seg).value).Some?
  {
  }

  /** The first segment and the others. */
  lemma EncodeFront(segs: seq<Segment>)
    requires segs != [] && Encode(segs).Some?
    ensures Sendable(segs[0]) && Encode(segs[1..]).Some?
    ensures Encode(segs).value == Serialize(NewEroSubobject(segs[0]).value).value + Encode(segs[1..]).value
  {
    OneEncodes(segs[0]);
    var os := NewEroSubobjects(segs).value;
    assert os[1..] == NewEroSubobjects(segs[1..]).value;
  }

  lemma {:induction false} EncodesExactlyWhenSendable(segs: seq<Segment>)
    ensures Encode(segs).Some? <==> forall seg | seg in segs :: Sendable(seg)
  {
    if segs == [] {
      assert Encode(segs) == Some([]);
    } else {
      EncodesExactlyWhenSendable(segs[1..]);
      OneEncodes(segs[0]);
      if Encode(segs).Some? {
        EncodeFront(segs);
      } else if NewEroSubobjects(segs).Some? {
        var os := NewEroSubobjects(segs).value;
        assert os[1..] == NewEroSubobjects(segs[1..]).value;
      }
      assert forall seg | seg in segs :: seg == segs[0] || seg in segs[1..];
    }
  }

  /** Decoding what stands behind a framed first segment. */
  lemma {:induction false} DecodeFront(seg: Segment, rest: bytes)
    requires Sendable(seg) && Framed(seg)
    ensures NewEroSubobject(seg).Some? && Serialize(NewEroSubobject(seg).value).Some?
    ensures Decode(Serialize(NewEroSubobject(seg).value).value + rest) ==
            match Decode(rest) case None => None case Some(segs) => Some([OnWire(seg)] + segs)
  {
    ConstructedIsOnTheWire(seg);
    var o := NewEroSubobject(seg).value;
    OneDecodes(o, rest);
    var one := Serialize(o).value;
    var b := one + rest;
    assert b[|one|..] == rest;
    assert ToSegment(WireForm(o)) == Some(OnWire(seg));
    if DecodeBody(rest).Some? {
      var os := DecodeBody(rest).value;
      assert DecodeBody(b) == Some([WireForm(o)] + os);
      assert ([WireForm(o)] + os)[1..] == os;
    }
  }

  lemma {:induction false} FirstArrives(segs: seq<Segment>)
    requires segs != [] && Encode(segs).Some? && Framed(segs[0])
    ensures Encode(segs[1..]).Some?
    ensures Decode(Encode(segs).value) ==
            match Decode(Encode(segs[1..]).value) case None => None case Some(rest) => Some([OnWire(segs[0])] + rest)
  {
    EncodeFront(segs);
    DecodeFront(segs[0], Encode(segs[1..]).value);
  }

  /** A list with proper lengths arrives whole, each segment as the wire keeps it. */
  lemma {:induction false} FramedListArrives(segs: seq<Segment>)
    requires forall seg | seg in segs :: Sendable(seg) && Framed(seg)
    ensures Encode(segs).Some? && Decode(Encode(segs).value) == Some(OnWireAll(segs))
  {
    EncodesExactlyWhenSendable(segs);
    if segs == [] {
      assert Encode(segs) == Some([]);
    } else {
      FirstArrives(segs);
      FramedListArrives(segs[1..]);
    }
  }

  /** A segment with an address or a structure of the wrong size is read back as another one,
      whatever follows it. */
  lemma {:induction false} UnframedIsNotRead(seg: Segment, rest: bytes)
    requires Sendable(seg) && !Framed(seg)
    ensures NewEroSubobject(seg).Some? && Serialize(NewEroSubobject(seg).value).Some?
    ensures forall o | DecodeSubobject(Serialize(NewEroSubobject(seg).value).value + rest) == Some(o) ::
              ToSegment(o).Some? && ToSegment(o) != Some(seg)
  {
    OneEncodes(seg);
    var o := NewEroSubobject(seg).value;
    var flags := FourFlags(o.vFlag, o.tFlag, o.fFlag, o.sFlag);
    FourFlagsRead(o.vFlag, o.tFlag, o.fFlag, o.sFlag);
    FirstFourRead(EROSRV6, false, o.length, o.naiType, flags);
    var b := Serialize(o).value + rest;
    assert b[..4] == FirstFour(EROSRV6, false, o.length, o.naiType, flags);
    assert b[0] % 0x80 == EROSRV6 && b[3] == flags && b[2] / 16 == o.naiType;
  }

  lemma {:induction false} OnlyKeptSurvive(segs: seq<Segment>)
    requires Encode(segs).Some? && Decode(Encode(segs).value) == Some(segs)
    ensures forall seg | seg in segs :: Kept(seg)
  {
    if segs != [] {
      EncodeFront(segs);
      var rest := Encode(segs[1..]).value;
      if Framed(segs[0]) {
        DecodeFront(segs[0], rest);
        assert segs[1..] == Decode(rest).value;
        OnlyKeptSurvive(segs[1..]);
      } else {
        UnframedIsNotRead(segs[0], rest);
      }
      assert forall seg | seg in segs :: seg == segs[0] || seg in segs[1..];
    }
  }

  lemma {:induction false} KeptListIsUnchanged(segs: seq<Segment>)
    requires forall seg | seg in segs :: Kept(seg)
    ensures OnWireAll(segs) == segs
  {
    if segs != [] {
      assert segs[0] in segs;
      KeptListIsUnchanged(segs[1..]);
    }
  }

  /** The main result: a segment list survives being sent as an explicit route exactly when each
      segment can be sent and loses nothing on the wire. */
  lemma {:induction false} SurvivesExactlyWhenKept(segs: seq<Segment>)
    ensures Encode(segs).Some? && Decode(Encode(segs).value) == Some(segs)
            <==> forall seg | seg in segs :: Sendable(seg) && Kept(seg)
  {
    EncodesExactlyWhenSendable(segs);
    if Encode(segs).Some? && Decode(Encode(segs).value) == Some(segs) {
      OnlyKeptSurvive(segs);
    }
    if forall seg | seg in segs :: Sendable(seg) && Kept(seg) {
      FramedListArrives(segs);
      KeptListIsUnchanged(segs);
    }
  }

  lemma {:induction false} WireFormsAreKept(segs: seq<Segment>)
    requires forall seg | seg in segs :: Sendable(seg) && Framed(seg)
    ensures forall seg | seg in OnWireAll(segs) :: Sendable(seg) && Kept(seg)
  {
    if segs != [] {
      assert segs[0] in segs;
      UnmapTwice(segs[0]);
      WireFormsAreKept(segs[1..]);
    }
  }

  /** A second trip changes nothing. */
  lemma {:induction false} WireFormIsStable(segs: seq<Segment>)
    requires forall seg | seg in segs :: Sendable(seg) && Framed(seg)
    ensures Encode(OnWireAll(segs)).Some? && Decode(Encode(OnWireAll(segs)).value) == Some(OnWireAll(segs))
  {
    WireFormsAreKept(segs);
    SurvivesExactlyWhenKept(OnWireAll(segs));
  }

  lemma {:induction false} UnmapTwice(seg: Segment)
    requires Sendable(seg) && Framed(seg)
    ensures Sendable(OnWire(seg)) && Kept(OnWire(seg))
  {
  }
}
