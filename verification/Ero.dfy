/** Explicit routes: SR-ERO (section 4.3.1 of RFC 8664), SRv6-ERO (section 4.3.1 of RFC 9603) and
    RSVP IPv4 prefix hops (section 4.3.3.1 of RFC 3209), from segments to bytes and back
    (pkg/packet/pcep/object.go). The subobject type is the constructor; an error is `None`.
    Disjoint bit fields joined by `|` are sums. */
module Ero {
  import opened Bytes
  import opened Netip
  import opened Segments
  import opened Wrappers

  const EROSR: byte := 0x24
  const EROSRV6: byte := 0x28
  const EROIPV4_PREFIX: byte := 0x01

  const NAI_ABSENT: byte := 0
  const NAI_IPV4_NODE: byte := 1
  const NAI_IPV6_NODE: byte := 2
  const NAI_IPV4_ADJACENCY: byte := 3
  const NAI_IPV6_ADJACENCY_GLOBAL: byte := 4
  const NAI_IPV6_ADJACENCY_LINK_LOCAL: byte := 6

  datatype Subobject =
    | SR(lFlag: bool, length: byte, naiType: byte, fFlag: bool, sFlag: bool, cFlag: bool, mFlag: bool, segment: Segment)
    | SRv6Hop(lFlag: bool, length: byte, naiType: byte, vFlag: bool, tFlag: bool, fFlag: bool, sFlag: bool, segment: Segment)
    | RSVPIPv4Prefix(lFlag: bool, address: Addr, prefixLen: byte)

  /** Each kind of subobject holds its kind of segment. */
  predicate Typed(o: Subobject) {
    (o.SR? ==> o.segment.SRMPLS?) && (o.SRv6Hop? ==> o.segment.SRv6?)
  }

  // ----- lengths

  function NaiLength(naiType: byte): Option<nat> {
    if naiType == NAI_ABSENT then Some(0)
    else if naiType == NAI_IPV4_NODE then Some(4)
    else if naiType == NAI_IPV6_NODE then Some(16)
    else if naiType == NAI_IPV4_ADJACENCY then Some(8)
    else if naiType == NAI_IPV6_ADJACENCY_GLOBAL then Some(32)
    else None
  }

  function NaiLengthSRv6(naiType: byte): Option<nat> {
    if naiType == NAI_IPV6_NODE then Some(16)
    else if naiType == NAI_IPV6_ADJACENCY_GLOBAL then Some(32)
    else if naiType == NAI_IPV6_ADJACENCY_LINK_LOCAL then Some(40)
    else None
  }

  function LenSR(naiType: byte, fFlag: bool): (r: Option<nat>)
    ensures r.Some? ==> 8 <= r.value <= 40
  {
    if fFlag then Some(8) else (match NaiLength(naiType) case None => None case Some(n) => Some(8 + n))
  }

  function LenSRv6(naiType: byte, tFlag: bool, fFlag: bool, sFlag: bool): (r: Option<nat>)
    ensures r.Some? ==> 8 <= r.value <= 72
  {
    var fixed := 8 + (if sFlag then 0 else 16) + if tFlag then 8 else 0;
    if fFlag then Some(fixed) else (match NaiLengthSRv6(naiType) case None => None case Some(n) => Some(fixed + n))
  }

  function Len(o: Subobject): (r: Option<nat>)
    ensures r.Some? ==> 8 <= r.value <= 72
  {
    match o
    case SR(_, _, naiType, fFlag, _, _, _, _) => LenSR(naiType, fFlag)
    case SRv6Hop(_, _, naiType, _, tFlag, fFlag, sFlag, _) => LenSRv6(naiType, tFlag, fFlag, sFlag)
    case RSVPIPv4Prefix(_, _, _) => Some(8)
  }

  // ----- from a segment

  /** `naiTypeSRFor`: what the addresses of an MPLS segment say about it. */
  function NaiTypeSRFor(seg: Segment): (r: Option<byte>)
    requires seg.SRMPLS?
  {
    var local, remote := seg.localAddr.Unmap(), seg.remoteAddr.Unmap();
    if !local.IsValid() then if remote.IsValid() then None else Some(NAI_ABSENT)
    else if !remote.IsValid() then Some(if local.Is4() then NAI_IPV4_NODE else NAI_IPV6_NODE)
    else if local.Is4() != remote.Is4() then None
    else if local.Is4() then Some(NAI_IPV4_ADJACENCY)
    else if local.IsLinkLocalUnicast() || remote.IsLinkLocalUnicast() then None
    else Some(NAI_IPV6_ADJACENCY_GLOBAL)
  }

  function NewSREroSubobject(seg: Segment): Option<Subobject>
    requires seg.SRMPLS?
  {
    match NaiTypeSRFor(seg)
    case None => None
    case Some(naiType) =>
      var f := naiType == NAI_ABSENT;
      match LenSR(naiType, f)
      case None => None
      case Some(length) => Some(SR(false, length, naiType, f, false, HasMPLSStackEntryAttrs(seg), true, seg))
  }

  function NewSRv6EroSubobject(seg: Segment): Subobject
    requires seg.SRv6?
  {
    var f := !seg.localAddr.IsValid();
    var naiType :=
      if f then NAI_ABSENT
      else if seg.remoteAddr.IsValid() then NAI_IPV6_ADJACENCY_GLOBAL
      else NAI_IPV6_NODE;
    var t := seg.structure.Some?;
    SRv6Hop(false, LenSRv6(naiType, t, f, false).value, naiType, false, t, f, false, seg)
  }

  function NewEroSubobject(seg: Segment): (r: Option<Subobject>)
    ensures r.Some? ==> Typed(r.value) && !r.value.RSVPIPv4Prefix? && r.value.segment == seg
  {
    if seg.SRMPLS? then NewSREroSubobject(seg) else Some(NewSRv6EroSubobject(seg))
  }

  function NewEroSubobjects(segs: seq<Segment>): (r: Option<seq<Subobject>>)
    ensures r.Some? ==> forall o | o in r.value :: Typed(o)
  {
    if segs == [] then Some([])
    else
      match NewEroSubobject(segs[0])
      case None => None
      case Some(o) =>
        match NewEroSubobjects(segs[1..])
        case None => None
        case Some(os) => Some([o] + os)
  }

  // ----- to bytes

  function FirstFour(kind: byte, lFlag: bool, length: byte, naiType: byte, flags: byte): (b: bytes)
    requires kind < 0x80
    ensures |b| == 4
  {
    [kind + 0x80 * Bit(lFlag), length, naiType * 16 % 0x100, flags]
  }

  function FourFlags(f8: bool, f4: bool, f2: bool, f1: bool): byte {
    8 * Bit(f8) + 4 * Bit(f4) + 2 * Bit(f2) + Bit(f1)
  }

  /** Label, and with the C flag also TC, S and TTL. */
  function SidWord(seg: Segment, cFlag: bool): u32
    requires seg.SRMPLS?
  {
    var labelField := seg.sid % 0x10_0000 * 0x1000;
    if cFlag then labelField + seg.tc % 8 * 0x200 + 0x100 * Bit(seg.s) + seg.ttl else labelField
  }

  function SerializeNAI(o: Subobject): Option<bytes>
    requires o.SR? && Typed(o)
  {
    var local, remote := o.segment.localAddr.Unmap(), o.segment.remoteAddr.Unmap();
    if o.fFlag || o.naiType == NAI_ABSENT then Some([])
    else if o.naiType == NAI_IPV4_NODE then if local.Is4() then Some(local.AsSlice()) else None
    else if o.naiType == NAI_IPV6_NODE then if local.Is6() then Some(local.AsSlice()) else None
    else if o.naiType == NAI_IPV4_ADJACENCY then
      if local.Is4() && remote.Is4() then Some(local.AsSlice() + remote.AsSlice()) else None
    else if o.naiType == NAI_IPV6_ADJACENCY_GLOBAL then
      if local.Is6() && remote.Is6() then Some(local.AsSlice() + remote.AsSlice()) else None
    else None
  }

  function SerializeSR(o: Subobject): Option<bytes>
    requires o.SR? && Typed(o)
  {
    match SerializeNAI(o)
    case None => None
    case Some(nai) =>
      Some(FirstFour(EROSR, o.lFlag, o.length, o.naiType, FourFlags(o.fFlag, o.sFlag, o.cFlag, o.mFlag))
           + U32Bytes(SidWord(o.segment, o.cFlag)) + nai)
  }

  /** The SRv6 serializer writes what the segment has, whatever the flags say. */
  function SerializeSRv6(o: Subobject): Option<bytes>
    requires o.SRv6Hop? && Typed(o)
  {
    var seg := o.segment;
    match Behavior(seg)
    case None => None
    case Some(behavior) =>
      var structure := if seg.structure.Some? then seg.structure.value + Zeros(4) else [];
      Some(FirstFour(EROSRV6, o.lFlag, o.length, o.naiType, FourFlags(o.vFlag, o.tFlag, o.fFlag, o.sFlag))
           + [0, 0] + U16Bytes(behavior)
           + seg.sid6.AsSlice() + seg.localAddr.AsSlice() + seg.remoteAddr.AsSlice() + structure)
  }

  function SerializeRSVP(o: Subobject): Option<bytes>
    requires o.RSVPIPv4Prefix?
  {
    if !o.address.Is4() || o.prefixLen > 32 then None
    else Some([EROIPV4_PREFIX + 0x80 * Bit(o.lFlag), 8] + o.address.b4 + [o.prefixLen, 0])
  }

  function Serialize(o: Subobject): Option<bytes>
    requires Typed(o)
  {
    match o
    case SR(_, _, _, _, _, _, _, _) => SerializeSR(o)
    case SRv6Hop(_, _, _, _, _, _, _, _) => SerializeSRv6(o)
    case RSVPIPv4Prefix(_, _, _) => SerializeRSVP(o)
  }

  /** The body of an ERO object. */
  function SerializeBody(os: seq<Subobject>): Option<bytes>
    requires forall o | o in os :: Typed(o)
  {
    if os == [] then Some([])
    else
      match Serialize(os[0])
      case None => None
      case Some(b) =>
        match SerializeBody(os[1..])
        case None => None
        case Some(rest) => Some(b + rest)
  }

  // ----- from bytes

  predicate Flag(b: byte, mask: nat)
    requires mask > 0
  {
    IsBitSet(b, mask)
  }

  /** Local and remote address of an MPLS NAI of `n` bytes. */
  function ReadNAISR(b: bytes, n: nat): (Addr, Addr)
    requires n == |b| && n in {0, 4, 8, 16, 32}
  {
    if n == 0 then (Invalid, Invalid)
    else if n == 4 || n == 16 then (AddrFromSlice(b), Invalid)
    else (AddrFromSlice(b[..n / 2]), AddrFromSlice(b[n / 2..]))
  }

  function DecodeSR(b: bytes): (r: Option<Subobject>)
    ensures r.Some? ==> Typed(r.value) && r.value.SR?
  {
    if |b| < 8 then None
    else
      var naiType, f, c := b[2] / 16, Flag(b[3], 8), Flag(b[3], 2);
      var word := ReadU32(b, 4);
      match (if f then Some(0) else NaiLength(naiType))
      case None => None
      case Some(n) =>
        if |b| < 8 + n then None
        else
          var nai := ReadNAISR(b[8..8 + n], n);
          var seg :=
            if c then SRMPLS(word / 0x1000, word % 0x100, word / 0x200 % 8, word / 0x100 % 2 == 1, nai.0, nai.1)
            else SRMPLS(word / 0x1000, 0, 0, false, nai.0, nai.1);
          Some(SR(Flag(b[0], 0x80), b[1], naiType, f, Flag(b[3], 4), c, Flag(b[3], 1), seg))
  }

  /** Local and remote address of an SRv6 NAI of `n` bytes. */
  function ReadNAI(b: bytes, n: nat): (Addr, Addr)
    requires n == |b| && n in {0, 16, 32, 40}
  {
    if n == 0 then (Invalid, Invalid)
    else if n == 16 then (V6(b[..16]), Invalid)
    else if n == 32 then (V6(b[..16]), V6(b[16..32]))
    else (V6(b[..16]), V6(b[20..36]))
  }

  function DecodeSRv6(b: bytes): (r: Option<Subobject>)
    ensures r.Some? ==> Typed(r.value) && r.value.SRv6Hop?
  {
    if |b| < 8 then None
    else
      var naiType, t, f, s := b[2] / 16, Flag(b[3], 4), Flag(b[3], 2), Flag(b[3], 1);
      var behavior := ReadU16(b, 6);
      var sidEnd := if s then 8 else 24;
      var n := if f then 0 else (match NaiLengthSRv6(naiType) case None => 0 case Some(n) => n);
      var naiEnd := sidEnd + n;
      if |b| < sidEnd || |b| < naiEnd || (t && |b| < naiEnd + 8) then None
      else
        var sid := if s then Invalid else V6(b[8..24]);
        var nai := ReadNAI(b[sidEnd..naiEnd], n);
        var structure := if t then Some(b[naiEnd..naiEnd + 4]) else None;
        var usid := behavior == BEHAVIOR_UN || behavior == BEHAVIOR_UA;
        Some(SRv6Hop(Flag(b[0], 0x80), b[1], naiType, Flag(b[3], 8), t, f, s,
                     SRv6(sid, nai.0, nai.1, structure, usid)))
  }

  function DecodeRSVP(b: bytes): (r: Option<Subobject>)
    ensures r.Some? ==> r.value.RSVPIPv4Prefix?
  {
    if |b| < 8 || b[1] != 8 || b[6] > 32 then None
    else Some(RSVPIPv4Prefix(Flag(b[0], 0x80), V4(b[2..6]), b[6]))
  }

  function DecodeSubobject(b: bytes): (r: Option<Subobject>)
    requires b != []
    ensures r.Some? ==> Typed(r.value)
  {
    var kind := b[0] % 0x80;
    if kind == EROSR then DecodeSR(b)
    else if kind == EROSRV6 then DecodeSRv6(b)
    else if kind == EROIPV4_PREFIX then DecodeRSVP(b)
    else None
  }

  /** `EroObject.DecodeFromBytes`: each subobject says how far to go on. */
  function DecodeBody(body: bytes): (r: Option<seq<Subobject>>)
    ensures r.Some? ==> forall o | o in r.value :: Typed(o)
    decreases |body|
  {
    if body == [] then Some([])
    else
      match DecodeSubobject(body)
      case None => None
      case Some(o) =>
        match Len(o)
        case None => None
        case Some(n) =>
          if n > |body| then None
          else
            match DecodeBody(body[n..])
            case None => None
            case Some(os) => Some([o] + os)
  }

  function ToSegment(o: Subobject): Option<Segment> {
    match o
    case SR(_, _, _, _, _, _, _, seg) => Some(seg)
    case SRv6Hop(_, _, _, _, _, _, _, seg) => Some(seg)
    case RSVPIPv4Prefix(_, _, _) => None
  }

  /** Hops that are no segments are left out. */
  function ToSegmentList(os: seq<Subobject>): seq<Segment> {
    if os == [] then []
    else (match ToSegment(os[0]) case None => [] case Some(seg) => [seg]) + ToSegmentList(os[1..])
  }
}
