/** The wire format in numbers: which TLV types there are and which values their decoders accept, and
    what a hop begins with (pkg/packet/pcep/tlv.go, pkg/packet/pcep/object.go). */
module WireFormat {
  import opened Bytes
  import opened Netip
  import opened Segments
  import opened Tlv
  import opened Wrappers
  import Ero

  // ----- TLVs

  /** The TLV a type stands for. */
  predicate HasType(t: Tlv, typ: u16) {
    match t
    case VendorInformation(_, _) => typ == 7
    case StatefulPCECapability(_) => typ == 16
    case SymbolicPathName(_) => typ == 17
    case IPv4LSPIdentifiers(_, _) => typ == 18
    case IPv6LSPIdentifiers(_, _) => typ == 19
    case LSPDBVersion(_) => typ == 23
    case SRPCECapability(_, _, _) => typ == 26
    case SRv6PCECapability(_) => typ == 27
    case PathSetupType(_) => typ == 28
    case ExtendedAssociationID(_, _) => typ == 31
    case PathSetupTypeCapability(_, _) => typ == 34
    case AssocTypeList(_) => typ == 35
    case CPathIdentifier(_) => typ == 57
    case CPathPreference(_) => typ == 59
    case MultipathCapability(_, _) => typ == 60
    case Color(_) => typ == 67
    case ExtendedAssociationIDJuniper(_, _) => typ == 65507
    case CPathIdentifierJuniper(_) => typ == 65508
    case CPathPreferenceJuniper(_) => typ == 65509
    case UnknownTLV(x, _, _) => typ == x && !IsKnown(typ)
  }

  predicate IsKnown(typ: u16) {
    typ in {7, 16, 17, 18, 19, 23, 26, 27, 28, 31, 34, 35, 57, 59, 60, 67, 65507, 65508, 65509}
  }

  /** Which values are accepted: of fixed sizes, at least four bytes for vendor information and the
      SRv6 capability, UTF-8 for a name, pairs of bytes for association types; anything else for a
      type that is not known. */
  predicate Accepts(typ: u16, v: bytes) {
    if typ in {16, 26, 28, 59, 60, 67, 65509} then |v| == 4
    else if typ in {23, 65507} then |v| == 8
    else if typ == 18 then |v| == 16
    else if typ == 19 then |v| == 52
    else if typ in {57, 65508} then |v| == 28
    else if typ == 31 then |v| == 8 || |v| == 20
    else if typ in {7, 27} then |v| >= 4
    else if typ == 35 then |v| % 2 == 0
    else typ == 17 ==> Utf8Valid(v)
  }

  /** Each type has its decoder, which accepts these values and no others. */
  lemma {:induction false} LeafIsAcceptedExactlyWhen(typ: u16, v: bytes)
    requires |v| < 0x1_0000 && typ != 34
    ensures DecodeLeaf(typ, v).Some? <==> Accepts(typ, v)
    ensures forall t | DecodeLeaf(typ, v) == Some(t) :: HasType(t, typ)
  {
  }

  /** What is written begins with the type. */
  lemma {:induction false} TypeIsWritten(t: Tlv)
    requires IsEmitted(t) && (t.UnknownTLV? ==> !IsKnown(t.typ))
    ensures |Serialize(t)| >= 4 && HasType(t, ReadU16(Serialize(t), 0))
  {
    U16RoundTrip([], TypeOf(t), U16Bytes(LengthField(t)) + ValueOf(t) + Zeros(PaddingOf(t)));
    assert Serialize(t) == [] + U16Bytes(TypeOf(t)) + (U16Bytes(LengthField(t)) + ValueOf(t) + Zeros(PaddingOf(t)));
  }

  /** A TLV that is handed over with its padding is decoded only for types of variable length: vendor
      information, names, association types, and those that are not known. */
  lemma {:induction false} PaddedIsAcceptedExactlyWhen(data: bytes)
    requires |data| >= 4 && ReadU16(data, 0) != 34
    ensures var typ: u16, length: nat := ReadU16(data, 0), ReadU16(data, 2);
            DecodeTLV(data, Standard).Some? <==>
              && |data| >= 4 + length && Accepts(typ, data[4..4 + length])
              && (|data| > 4 + length ==>
                    && (typ in {7, 17, 35} || !IsKnown(typ))
                    && |data| % 4 == 0 && |data| < 4 + length + 4 && AllZero(data[4 + length..]))
  {
    var typ: u16, length: nat := ReadU16(data, 0), ReadU16(data, 2);
    if |data| >= 4 + length {
      LeafIsAcceptedExactlyWhen(typ, data[4..4 + length]);
    }
  }

  // ----- what is lost

  /** Of more than 255 path setup types only the first 255 are written. */
  lemma {:induction false} OnlySoManySetupTypes(psts: bytes, subs: seq<Tlv>)
    requires |psts| > 255
    ensures Serialize(PathSetupTypeCapability(psts, subs)) == Serialize(PathSetupTypeCapability(psts[..255], subs))
  {
    assert SentPsts(psts) == psts[..255] && SentPsts(psts[..255]) == psts[..255];
  }

  /** An originator is read back as it is, except that none is read as 0.0.0.0, and an IPv6 one that
      begins with twelve zero bytes as the IPv4 one behind them. */
  lemma {:induction false} OriginatorIsRead(a: Addr)
    ensures ReadOriginator(OriginatorBytes(a)) ==
            match a
            case Invalid => V4([0, 0, 0, 0])
            case V4(b) => V4(b)
            case V6(b) => if forall i | 0 <= i < 12 :: b[i] == 0 then V4(b[12..]) else V6(b)
  {
    if a.V4? {
      assert OriginatorBytes(a)[12..] == a.b4;
    } else if a.Invalid? {
      assert Zeros(16)[12..] == [0, 0, 0, 0];
    } else {
      assert forall i | 0 <= i < 12 :: a.b16[..12][i] == a.b16[i];
    }
  }

  // ----- hops

  /** The NAI type of a segment: none, an IPv4 or IPv6 node, or an adjacency between two of them. */
  function NaiTypeOf(seg: Segment): byte {
    var local, remote := if seg.SRMPLS? then seg.localAddr.Unmap() else seg.localAddr, if seg.SRMPLS? then seg.remoteAddr.Unmap() else seg.remoteAddr;
    if local.Invalid? then 0
    else if seg.SRv6? then if remote.Invalid? then 2 else 4
    else if remote.Invalid? then if local.V4? then 1 else 2
    else if local.V4? then 3 else 4
  }

  /** An SR hop begins with its kind, 36, its length, its NAI type in the upper half of the third byte,
      and its flags: F (8) without a NAI, C (2) with TC, S or TTL, and M (1). */
  lemma {:induction false} SrHopBegins(seg: Segment, b: bytes)
    requires seg.SRMPLS? && Ero.NewEroSubobject(seg).Some? && Ero.Serialize(Ero.NewEroSubobject(seg).value) == Some(b)
    ensures |b| >= 8 && b[0] == 36 && Ero.Len(Ero.NewEroSubobject(seg).value) == Some(b[1]) && b[2] == 16 * NaiTypeOf(seg)
    ensures b[3] == (if NaiTypeOf(seg) == 0 then 8 else 0) + (if seg.tc != 0 || seg.s || seg.ttl != 0 then 2 else 0) + 1
  {
  }

  /** An SRv6 hop likewise, of kind 40; of its flags only T (4) is ever set, with a structure, and the
      endpoint behavior is in the seventh and eighth byte. */
  lemma {:induction false} Srv6HopBegins(seg: Segment, b: bytes)
    requires seg.SRv6? && Ero.Serialize(Ero.NewSRv6EroSubobject(seg)) == Some(b)
    ensures |b| >= 8 && b[0] == 40 && Ero.Len(Ero.NewSRv6EroSubobject(seg)) == Some(b[1]) && b[2] == 16 * NaiTypeOf(seg)
    ensures b[3] == (if seg.structure.Some? then 4 else 0) && Some(ReadU16(b, 6)) == Behavior(seg)
  {
    var o := Ero.NewSRv6EroSubobject(seg);
    var head := Ero.FirstFour(40, false, o.length, o.naiType, Ero.FourFlags(o.vFlag, o.tFlag, o.fFlag, o.sFlag)) + [0, 0];
    U16RoundTrip(head, Behavior(seg).value, b[8..]);
    assert b == head + U16Bytes(Behavior(seg).value) + b[8..];
  }

  /** Bytes of a NAI: of an SR hop, for types that it has, and of an SRv6 hop. */
  function SrNaiSize(nai: nat): Option<nat> {
    if nai == 0 then Some(0) else if nai == 1 then Some(4) else if nai == 2 then Some(16) else if nai == 3 then Some(8)
    else if nai == 4 then Some(32) else None
  }

  function Srv6NaiSize(nai: nat): nat {
    if nai == 2 then 16 else if nai == 4 then 32 else if nai == 6 then 40 else 0
  }

  /** Which bytes are read as a hop: an SR hop with room for the NAI, whose type must be known unless
      the F flag is set; an SRv6 hop with room for the SID unless the S flag is set, the NAI unless the F
      flag is, and the structure if the T flag is; an IPv4 prefix of length 8 and at most 32 bits. */
  lemma {:induction false} HopIsAcceptedExactlyWhen(b: bytes)
    requires |b| >= 8
    ensures Ero.DecodeSubobject(b).Some? <==>
            var kind, nai, f8, f4, f2, f1 := b[0] % 128, b[2] / 16, b[3] / 8 % 2 == 1, b[3] / 4 % 2 == 1, b[3] / 2 % 2 == 1, b[3] % 2 == 1;
            if kind == 36 then f8 || (SrNaiSize(nai).Some? && |b| >= 8 + SrNaiSize(nai).value)
            else if kind == 40 then
              |b| >= 8 + (if f1 then 0 else 16) + (if f2 then 0 else Srv6NaiSize(nai)) + if f4 then 8 else 0
            else kind == 1 && b[1] == 8 && b[6] <= 32
    ensures b[0] % 128 == 1 ==>
              forall o | Ero.DecodeSubobject(b) == Some(o) :: o == Ero.RSVPIPv4Prefix(b[0] >= 128, V4(b[2..6]), b[6])
  {
  }
}
