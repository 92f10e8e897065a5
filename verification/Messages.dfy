/** Messages made of objects: PCInitiate, PCUpd and PCErr (pkg/packet/pcep/message.go;
    section 6.1 of RFC 5440). */
module Messages {
  import opened Bytes
  import opened Netip
  import opened Wrappers
  import opened Segments
  import opened Objects
  import opened Tlv
  import opened TlvFrames
  import Ero
  import EroRoundTrip
  import ObjectRoundTrip

  const MESSAGE_ERROR: byte := 0x06
  const MESSAGE_UPDATE: byte := 0x0b
  const MESSAGE_LSP_INIT_REQ: byte := 0x0c

  /** An object as a message holds it. */
  datatype Object =
    | SrpObject(srp: Srp)
    | LspObject(lsp: Lsp)
    | EndpointsObject(endpoints: Endpoints)
    | RouteObject(route: Route)
    | AssociationObject(association: Association)
    | VendorObject(vendor: VendorInfo)
    | ErrorObject(error: PcepError)

  predicate Typed(o: Object) {
    o.RouteObject? ==> forall h | h in o.route.hops :: Ero.Typed(h)
  }

  function ClassOf(o: Object): byte {
    match o
    case SrpObject(_) => SRP
    case LspObject(_) => LSP
    case EndpointsObject(_) => ENDPOINTS
    case RouteObject(_) => ERO
    case AssociationObject(_) => ASSOCIATION
    case VendorObject(_) => VENDOR
    case ErrorObject(_) => PCEP_ERROR
  }

  function TypOf(o: Object): byte {
    match o
    case SrpObject(x) => x.typ
    case LspObject(x) => x.typ
    case EndpointsObject(x) => x.typ
    case RouteObject(x) => x.typ
    case AssociationObject(x) => x.typ
    case VendorObject(x) => x.typ
    case ErrorObject(x) => x.typ
  }

  function BodyOf(o: Object): Option<bytes>
    requires Typed(o)
  {
    match o
    case SrpObject(x) => Some(SrpBody(x))
    case LspObject(x) => Some(LspBody(x))
    case EndpointsObject(x) => Some(EndpointsBody(x))
    case RouteObject(x) => Ero.SerializeBody(x.hops)
    case AssociationObject(x) => Some(AssociationBody(x))
    case VendorObject(x) => Some(VendorBody(x))
    case ErrorObject(x) => Some(ErrorBody(x))
  }

  /** The sum of the subobjects' lengths, in 16 bits. */
  function HopsLen(hops: seq<Ero.Subobject>): Option<u16> {
    if hops == [] then Some(0)
    else
      match (Ero.Len(hops[0]), HopsLen(hops[1..]))
      case (Some(n), Some(rest)) => Some(ToU16(n + rest))
      case _ => None
  }

  /** `Len` of each object: a 16-bit sum, and an error for addresses without a common family. */
  function LenOf(o: Object): Option<u16> {
    match o
    case SrpObject(x) => Some(ToU16(4 + 8 + LenAll(x.tlvs)))
    case LspObject(x) => Some(ToU16(4 + 4 + LenAll(x.tlvs)))
    case EndpointsObject(x) =>
      if x.src.Is4() && x.dst.Is4() then Some(12) else if x.src.Is6() && x.dst.Is6() then Some(36) else None
    case RouteObject(x) => (match HopsLen(x.hops) case None => None case Some(n) => Some(ToU16(4 + n)))
    case AssociationObject(x) =>
      if x.assocSrc.Is4() then Some(ToU16(4 + 12 + LenAll(x.tlvs)))
      else if x.assocSrc.Is6() then Some(ToU16(4 + 24 + LenAll(x.tlvs))) else None
    case VendorObject(x) => Some(ToU16(4 + 4 + LenAll(x.tlvs)))
    case ErrorObject(x) => Some(ToU16(4 + 4 + LenAll(x.tlvs)))
  }

  function SerializeObject(o: Object): Option<bytes>
    requires Typed(o)
  {
    match (LenOf(o), BodyOf(o))
    case (Some(n), Some(body)) => Some(HeaderBytes(ClassOf(o), TypOf(o), 0, false, false, n) + body)
    case _ => None
  }

  function SerializeObjects(os: seq<Object>): Option<bytes>
    requires forall o | o in os :: Typed(o)
  {
    if os == [] then Some([])
    else
      match (SerializeObject(os[0]), SerializeObjects(os[1..]))
      case (Some(b), Some(rest)) => Some(b + rest)
      case _ => None
  }

  function LenOfObjects(os: seq<Object>): Option<u16> {
    if os == [] then Some(0)
    else
      match (LenOf(os[0]), LenOfObjects(os[1..]))
      case (Some(n), Some(rest)) => Some(ToU16(n as nat + rest))
      case _ => None
  }

  /** `CommonHeader.Serialize` for version 1 without flags. */
  function MessageHeader(typ: byte, length: u16): (b: bytes)
    ensures |b| == 4
  {
    [1 * 32, typ] + U16Bytes(length)
  }

  /** The common header, then the objects. */
  function SerializeMessage(typ: byte, os: seq<Object>): Option<bytes>
    requires forall o | o in os :: Typed(o)
  {
    match (LenOfObjects(os), SerializeObjects(os))
    case (Some(n), Some(b)) => Some(MessageHeader(typ, ToU16(4 + n as nat)) + b)
    case _ => None
  }

  // ----- framing of one object

  predicate PartsAreWire(o: Object) {
    match o
    case SrpObject(x) => AllFramable(x.tlvs)
    case LspObject(x) => AllFramable(x.tlvs)
    case EndpointsObject(x) => (x.src.V4? && x.dst.V4?) || (x.src.V6? && x.dst.V6?)
    case RouteObject(x) => forall h | h in x.hops :: EroRoundTrip.OnTheWire(h) && Ero.Typed(h)
    case AssociationObject(x) => x.assocSrc.IsValid() && AllFramable(x.tlvs)
    case VendorObject(x) => AllFramable(x.tlvs)
    case ErrorObject(x) => AllFramable(x.tlvs)
  }

  /** A single object within the 16 bits of its length field. */
  predicate IsWire(o: Object) {
    Typed(o) && TypOf(o) < 16 && PartsAreWire(o) && (BodyOf(o).Some? ==> |BodyOf(o).value| + 4 < 0x1_0000)
  }

  function RawOf(o: Object): RawObject
    requires Typed(o) && BodyOf(o).Some?
  {
    RawObject(ClassOf(o), TypOf(o), 0, false, false, BodyOf(o).value)
  }

  lemma AddWrapped(a: nat, b: nat)
    ensures ToU16(a + ToU16(b)) == ToU16(a + b)
    ensures ToU16(a + b) == a + b <==> a + b < 0x1_0000
  {
    DropMultiple(a + ToU16(b), b / 0x1_0000);
  }

  lemma {:induction false} FirstHopLen(hops: seq<Ero.Subobject>, n: nat, rest: nat)
    requires hops != [] && Ero.Len(hops[0]) == Some(n)
    requires HopsLen(hops[1..]) == Some(ToU16(rest))
    ensures HopsLen(hops) == Some(ToU16(n + rest))
  {
    AddWrapped(n, rest);
  }

  lemma {:induction false} HopsLenIsSize(hops: seq<Ero.Subobject>)
    requires forall h | h in hops :: EroRoundTrip.OnTheWire(h) && Ero.Typed(h)
    ensures HopsLen(hops) == Some(ToU16(EroRoundTrip.BodyLength(hops)))
  {
    if hops != [] {
      HopsLenIsSize(hops[1..]);
      EroRoundTrip.HopHasLen(hops[0]);
      FirstHopLen(hops, Ero.Len(hops[0]).value, EroRoundTrip.BodyLength(hops[1..]));
    }
  }

  lemma CountsTlvs(fixed: nat, ts: seq<Tlv>)
    requires AllFramable(ts) && 4 + fixed + |SerializeAll(ts)| < 0x1_0000
    ensures ToU16(4 + fixed + LenAll(ts)) == 4 + fixed + |SerializeAll(ts)|
  {
    LenIsSize(ts);
  }

  lemma CountsHops(hops: seq<Ero.Subobject>)
    requires forall h | h in hops :: EroRoundTrip.OnTheWire(h) && Ero.Typed(h)
    ensures Ero.SerializeBody(hops).Some?
    ensures HopsLen(hops) == Some(ToU16(|Ero.SerializeBody(hops).value|))
  {
    EroRoundTrip.BodyRoundTrip(hops);
    HopsLenIsSize(hops);
  }

  lemma FitsAfterHeader(n: nat)
    requires n + 4 < 0x1_0000
    ensures ToU16(4 + ToU16(n) as nat) == 4 + n
  {
  }

  lemma RouteLenIsSize(x: Route)
    requires IsWire(RouteObject(x))
    ensures BodyOf(RouteObject(x)).Some? && LenOf(RouteObject(x)) == Some(4 + |BodyOf(RouteObject(x)).value|)
  {
    CountsHops(x.hops);
    FitsAfterHeader(|Ero.SerializeBody(x.hops).value|);
  }

  lemma {:induction false} AssociationLenIsSize(x: Association)
    requires IsWire(AssociationObject(x))
    ensures LenOf(AssociationObject(x)) == Some(4 + |AssociationBody(x)|)
  {
    CountsTlvs(if x.assocSrc.Is4() then 12 else 24, x.tlvs);
  }

  /** `Len` is the object's size. */
  lemma {:induction false} LenOfIsSize(o: Object)
    requires IsWire(o)
    ensures BodyOf(o).Some? && LenOf(o) == Some(4 + |BodyOf(o).value|)
  {
    match o
    case SrpObject(x) => CountsTlvs(8, x.tlvs);
    case LspObject(x) => CountsTlvs(4, x.tlvs);
    case EndpointsObject(_) =>
    case RouteObject(x) => RouteLenIsSize(x);
    case AssociationObject(x) => AssociationLenIsSize(x);
    case VendorObject(x) => CountsTlvs(4, x.tlvs);
    case ErrorObject(x) => CountsTlvs(4, x.tlvs);
  }

  lemma ObjectIsFrame(o: Object)
    requires IsWire(o)
    ensures BodyOf(o).Some? && RawFits(RawOf(o)) && SerializeObject(o) == Some(Objects.Frame(RawOf(o)))
  {
    LenOfIsSize(o);
  }

  function RawsOf(os: seq<Object>): seq<RawObject>
    requires forall o | o in os :: Typed(o) && BodyOf(o).Some?
  {
    seq(|os|, i requires 0 <= i < |os| => assert os[i] in os; RawOf(os[i]))
  }

  lemma {:induction false} EachIsFrame(os: seq<Object>)
    requires forall o | o in os :: IsWire(o)
    ensures forall o | o in os :: Typed(o) && BodyOf(o).Some? && RawFits(RawOf(o))
    ensures forall r | r in RawsOf(os) :: RawFits(r)
  {
    forall o | o in os
      ensures Typed(o) && BodyOf(o).Some? && RawFits(RawOf(o))
    {
      ObjectIsFrame(o);
    }
    forall r | r in RawsOf(os)
      ensures RawFits(r)
    {
      var i :| 0 <= i < |os| && r == RawsOf(os)[i];
      assert os[i] in os;
    }
  }

  lemma {:induction false} ObjectsAreFrames(os: seq<Object>)
    requires forall o | o in os :: IsWire(o)
    ensures forall o | o in os :: Typed(o) && BodyOf(o).Some? && RawFits(RawOf(o))
    ensures forall r | r in RawsOf(os) :: RawFits(r)
    ensures SerializeObjects(os) == Some(FrameAll(RawsOf(os)))
    ensures LenOfObjects(os) == Some(ToU16(|FrameAll(RawsOf(os))|))
  {
    EachIsFrame(os);
    if os != [] {
      ObjectsAreFrames(os[1..]);
      ObjectIsFrame(os[0]);
      LenOfIsSize(os[0]);
      assert RawsOf(os) == [RawOf(os[0])] + RawsOf(os[1..]);
      AddWrapped(|Objects.Frame(RawOf(os[0]))|, |FrameAll(RawsOf(os[1..]))|);
    }
  }

  /** The header announces the byte count, as far as 16 bits can; behind it lie the objects. */
  predicate Walks(b: bytes, typ: byte, raws: seq<RawObject>) {
    && |b| >= 4 && b[1] == typ
    && (ReadU16(b, 2) == |b| <==> |b| < 0x1_0000)
    && Objects.Objects(b[4..]) == Some(raws)
  }

  // ----- exactly which objects can be walked over

  /** The object's serializer returns bytes. */
  predicate Serializable(o: Object) {
    Typed(o) && LenOf(o).Some? && BodyOf(o).Some?
  }

  predicate AllSerializable(os: seq<Object>) {
    forall o | o in os :: Typed(o) && LenOf(o).Some? && BodyOf(o).Some?
  }

  /** Its length field is its size, and its type fits the header's four bits. */
  predicate IsFramed(o: Object) {
    Serializable(o) && LenOf(o).value as nat == 4 + |BodyOf(o).value| && TypOf(o) < 16
  }

  lemma {:induction false} HeaderIsRead(class_: byte, typ: byte, n: u16, rest: bytes)
    ensures var b := HeaderBytes(class_, typ, 0, false, false, n) + rest;
            |b| >= 4 && ReadU16(b, 2) == n && b[1] / 16 == typ % 16
  {
    var flags: byte := typ % 16 * 16;
    FlagByte(typ % 16, 0, 0, 0);
    U16RoundTrip([class_, flags], n, rest);
    assert HeaderBytes(class_, typ, 0, false, false, n) + rest == [class_, flags] + U16Bytes(n) + rest;
  }

  /** A header with another length or type is read as another object, whatever follows. */
  lemma {:induction false} UnframedIsNotTaken(o: Object, rest: bytes)
    requires Serializable(o) && !IsFramed(o)
    ensures forall r | TakeObject(SerializeObject(o).value + rest) == Some(r) :: r.0 != RawOf(o)
  {
    var body := BodyOf(o).value;
    var b := SerializeObject(o).value + rest;
    HeaderIsRead(ClassOf(o), TypOf(o), LenOf(o).value, body + rest);
    assert b == HeaderBytes(ClassOf(o), TypOf(o), 0, false, false, LenOf(o).value) + (body + rest);
  }

  lemma {:induction false} FramedIsTaken(o: Object, rest: bytes)
    requires IsFramed(o)
    ensures TakeObject(SerializeObject(o).value + rest) == Some((RawOf(o), rest))
  {
    TakeFrame(RawOf(o), rest);
    assert SerializeObject(o).value == Objects.Frame(RawOf(o));
  }

  lemma {:induction false} SerializedFirst(os: seq<Object>)
    requires os != [] && AllSerializable(os)
    requires SerializeObjects(os[1..]).Some?
    ensures SerializeObjects(os) == Some(SerializeObject(os[0]).value + SerializeObjects(os[1..]).value)
    ensures RawsOf(os) == [RawOf(os[0])] + RawsOf(os[1..])
  {
  }

  /** The walk over a first object, and whether it may still give back all of them. */
  lemma {:induction false} WalkFirst(o: Object, rest: bytes, raws: seq<RawObject>)
    requires Serializable(o)
    ensures Objects.Objects(SerializeObject(o).value + rest) == Some([RawOf(o)] + raws)
            <==> IsFramed(o) && Objects.Objects(rest) == Some(raws)
  {
    var b := SerializeObject(o).value + rest;
    assert b != [];
    assert ([RawOf(o)] + raws)[0] == RawOf(o) && ([RawOf(o)] + raws)[1..] == raws;
    if IsFramed(o) {
      FramedIsTaken(o, rest);
      if Objects.Objects(rest).Some? {
        var behind := Objects.Objects(rest).value;
        assert ([RawOf(o)] + behind)[1..] == behind;
      }
    } else {
      UnframedIsNotTaken(o, rest);
      if Objects.Objects(b).Some? {
        assert Objects.Objects(b).value[0] == TakeObject(b).value.0;
      }
    }
  }

  lemma {:induction false} ObjectsAreWalkedExactlyWhen(os: seq<Object>)
    requires AllSerializable(os)
    ensures SerializeObjects(os).Some?
    ensures Objects.Objects(SerializeObjects(os).value) == Some(RawsOf(os)) <==> forall o | o in os :: IsFramed(o)
  {
    if os != [] {
      ObjectsAreWalkedExactlyWhen(os[1..]);
      SerializedFirst(os);
      WalkFirst(os[0], SerializeObjects(os[1..]).value, RawsOf(os[1..]));
      assert os[0] in os && forall o | o in os[1..] :: o in os;
      assert forall o | o in os :: o == os[0] || o in os[1..];
    } else {
      assert RawsOf(os) == [];
    }
  }

  lemma {:induction false} SomeLength(os: seq<Object>)
    requires AllSerializable(os)
    ensures LenOfObjects(os).Some?
  {
    if os != [] {
      SomeLength(os[1..]);
    }
  }

  lemma {:induction false} MessageHeaderIsRead(typ: byte, length: u16, b: bytes)
    ensures forall m | m == MessageHeader(typ, length) + b :: |m| == 4 + |b| && m[1] == typ && m[4..] == b && ReadU16(m, 2) == length
  {
    U16RoundTrip([32, typ], length, b);
    assert MessageHeader(typ, length) + b == [32, typ] + U16Bytes(length) + b;
    assert (MessageHeader(typ, length) + b)[4..] == b;
  }

  lemma {:induction false} MessageIsHeaderAndBody(typ: byte, os: seq<Object>, b: bytes, n: u16)
    requires (forall o | o in os :: Typed(o)) && SerializeObjects(os) == Some(b) && LenOfObjects(os) == Some(n)
    ensures SerializeMessage(typ, os) == Some(MessageHeader(typ, ToU16(4 + n as nat)) + b)
  {
  }

  lemma {:induction false} MessageBody(typ: byte, os: seq<Object>, b: bytes, n: u16)
    requires (forall o | o in os :: Typed(o)) && SerializeObjects(os) == Some(b) && LenOfObjects(os) == Some(n)
    ensures SerializeMessage(typ, os).Some?
    ensures forall m | SerializeMessage(typ, os) == Some(m) ::
              |m| == 4 + |b| && m[1] == typ && m[4..] == b && ReadU16(m, 2) == ToU16(4 + n as nat)
  {
    MessageIsHeaderAndBody(typ, os, b, n);
    MessageHeaderIsRead(typ, ToU16(4 + n as nat), b);
  }

  /** The lengths of framed objects add up to their bytes, in 16 bits. */
  lemma {:induction false} FramedLengths(os: seq<Object>)
    requires AllSerializable(os) && forall o | o in os :: IsFramed(o)
    ensures SerializeObjects(os).Some? && LenOfObjects(os) == Some(ToU16(|SerializeObjects(os).value|))
  {
    if os != [] {
      FramedLengths(os[1..]);
      assert IsFramed(os[0]);
      AddWrapped(LenOf(os[0]).value, |SerializeObjects(os[1..]).value|);
    }
  }

  lemma {:induction false} WalksBehindHeader(m: bytes, typ: byte, raws: seq<RawObject>, b: bytes)
    requires |m| == 4 + |b| && m[1] == typ && m[4..] == b && ReadU16(m, 2) == ToU16(4 + ToU16(|b|) as nat)
    requires Objects.Objects(b) == Some(raws)
    ensures Walks(m, typ, raws)
  {
    AddWrapped(4, |b|);
  }

  lemma {:induction false} FramedMessageIsWalked(typ: byte, os: seq<Object>)
    requires AllSerializable(os) && forall o | o in os :: IsFramed(o)
    ensures forall m | SerializeMessage(typ, os) == Some(m) :: Walks(m, typ, RawsOf(os))
  {
    ObjectsAreWalkedExactlyWhen(os);
    FramedLengths(os);
    var b := SerializeObjects(os).value;
    MessageBody(typ, os, b, ToU16(|b|));
    forall m | SerializeMessage(typ, os) == Some(m)
      ensures Walks(m, typ, RawsOf(os))
    {
      WalksBehindHeader(m, typ, RawsOf(os), b);
    }
  }

  /** Any message whose objects serialize: its header announces four bytes and the sum of the objects'
      lengths, in 16 bits; walking it by object lengths gives back the objects if and only if each of
      them is framed; and then the header announces its size, as far as 16 bits can. */
  lemma {:induction false} MessageIsWalkedExactlyWhen(typ: byte, os: seq<Object>)
    requires AllSerializable(os)
    ensures SerializeMessage(typ, os).Some? && LenOfObjects(os).Some?
    ensures forall m | SerializeMessage(typ, os) == Some(m) :: |m| >= 4 && ReadU16(m, 2) == ToU16(4 + LenOfObjects(os).value as nat)
    ensures forall m | SerializeMessage(typ, os) == Some(m) ::
              |m| >= 4 && (Objects.Objects(m[4..]) == Some(RawsOf(os)) <==> forall o | o in os :: IsFramed(o))
    ensures (forall o | o in os :: IsFramed(o)) ==> forall m | SerializeMessage(typ, os) == Some(m) :: Walks(m, typ, RawsOf(os))
  {
    ObjectsAreWalkedExactlyWhen(os);
    SomeLength(os);
    MessageBody(typ, os, SerializeObjects(os).value, LenOfObjects(os).value);
    if forall o | o in os :: IsFramed(o) {
      FramedMessageIsWalked(typ, os);
    }
  }

  /** Objects whose parts are as long as they say are framed. */
  lemma {:induction false} WireIsFramed(o: Object)
    requires IsWire(o)
    ensures IsFramed(o)
  {
    LenOfIsSize(o);
  }

  /** So every message of such objects is walked: the objects come back in order, and the header's
      length is the byte count exactly when that fits 16 bits. */
  lemma {:induction false} MessageIsWalked(typ: byte, os: seq<Object>)
    requires forall o | o in os :: IsWire(o)
    ensures forall o | o in os :: Typed(o) && BodyOf(o).Some?
    ensures SerializeMessage(typ, os).Some?
    ensures forall b | SerializeMessage(typ, os) == Some(b) :: Walks(b, typ, RawsOf(os))
  {
    forall o | o in os
      ensures IsFramed(o)
    {
      WireIsFramed(o);
    }
    MessageIsWalkedExactlyWhen(typ, os);
  }
}
