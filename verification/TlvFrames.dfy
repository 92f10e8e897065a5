/** How TLVs are framed, and that the 16-bit length fields and `Len` count the bytes written. */
module TlvFrames {
  import opened Bytes
  import opened Netip
  import opened Tlv
  import opened Wrappers

  /** The value's length fits its 16-bit length field. */
  predicate Fits(valueLength: nat) { valueLength < 0x1_0000 }

  predicate IsLeaf(t: Tlv) {
    !t.PathSetupTypeCapability?
  }

  /** The lengths in the TLV are those of what is in it. Nothing else is asked of its fields. */
  predicate Framable(t: Tlv)
    decreases t
  {
    match t
    case VendorInformation(_, info) => FitsPadded(4 + |info|)
    case SymbolicPathName(name) => Fits(|name|)
    case PathSetupTypeCapability(psts, subs) =>
      && Fits(4 + PaddedLength(|SentPsts(psts)|) + |SerializeAll(subs)|)
      && forall s | s in subs :: Framable(s)
    case AssocTypeList(ts) => FitsPadded(2 * |ts|)
    case UnknownTLV(_, length, value) => length == |value|
    case _ => true
  }

  predicate AllFramable(ts: seq<Tlv>) {
    forall t | t in ts :: Framable(t)
  }

  function Header(typ: u16, v: bytes): (b: bytes)
    requires |v| < 0x1_0000
    ensures |b| == 4 && ReadU16(b, 0) == typ && ReadU16(b, 2) == |v|
  {
    U16RoundTrip([], typ, U16Bytes(|v|));
    U16RoundTrip(U16Bytes(typ), |v|, []);
    assert [] + U16Bytes(typ) + U16Bytes(|v|) == U16Bytes(typ) + U16Bytes(|v|);
    assert U16Bytes(typ) + U16Bytes(|v|) + [] == U16Bytes(typ) + U16Bytes(|v|);
    U16Bytes(typ) + U16Bytes(|v|)
  }

  function Frame(typ: u16, v: bytes): bytes
    requires |v| < 0x1_0000
  {
    Header(typ, v) + v + Zeros(Padding(|v|))
  }

  // ----- sizes

  /** What the length field, the padding and `Len` say about a value of `n` bytes. */
  predicate Sized(t: Tlv, n: nat) {
    && IsEmitted(t) && n < 0x1_0000
    && LengthField(t) == n && PaddingOf(t) == Padding(n) && Len(t) == ToU16(4 + PaddedLength(n))
  }

  lemma SizeOfVendorInformation(en: u32, info: bytes)
    requires FitsPadded(4 + |info|)
    ensures forall n | n == |ValueOf(VendorInformation(en, info))| :: Sized(VendorInformation(en, info), n)
  {
    VendorFits(info);
  }

  lemma EvenSize(n: nat)
    requires 2 * n < 0x1_0000
    ensures ToU16(ToU16(n) * 2) == 2 * n
    ensures Padding(2 * n) == if 2 * n % 4 != 0 then 2 else 0
    ensures FitsPadded(2 * n) ==> ToU16(2 * n + Padding(2 * n)) == 2 * n + Padding(2 * n)
  {
    assert ToU16(n) == n;
  }

  lemma SizeOfAssocTypeList(ts: seq<u16>)
    requires FitsPadded(2 * |ts|)
    ensures forall n | n == |ValueOf(AssocTypeList(ts))| :: Sized(AssocTypeList(ts), n)
  {
    EvenSize(|ts|);
  }

  lemma SizeOfText(t: Tlv)
    requires Framable(t) && (t.SymbolicPathName? || t.UnknownTLV?)
    ensures forall n | n == |ValueOf(t)| :: Sized(t, n)
  {
  }

  lemma {:induction false} SizeOfPolicyTlv(t: Tlv)
    requires Framable(t) && IsEmitted(t)
    requires t.ExtendedAssociationID? || t.ExtendedAssociationIDJuniper? || t.CPathIdentifier? || t.CPathIdentifierJuniper?
             || t.CPathPreference? || t.CPathPreferenceJuniper? || t.Color?
    ensures forall n | n == |ValueOf(t)| :: Sized(t, n)
  {
  }

  lemma {:induction false} SizeOfCapability(t: Tlv)
    requires Framable(t)
    requires t.StatefulPCECapability? || t.IPv4LSPIdentifiers? || t.IPv6LSPIdentifiers? || t.LSPDBVersion? || t.SRPCECapability?
             || t.SRv6PCECapability? || t.MultipathCapability? || t.PathSetupType?
    ensures forall n | n == |ValueOf(t)| :: Sized(t, n)
  {
  }

  lemma {:induction false} SizeOf(t: Tlv)
    requires Framable(t) && IsEmitted(t)
    ensures Sized(t, |ValueOf(t)|)
    decreases t, 0
  {
    if t.PathSetupTypeCapability? {
      SizeOfAll(t.subTLVs);
      SizeOfNested(t.psts, t.subTLVs);
    } else if t.VendorInformation? {
      SizeOfVendorInformation(t.enterpriseNumber, t.info);
    } else if t.AssocTypeList? {
      SizeOfAssocTypeList(t.assocTypes);
    } else if t.SymbolicPathName? || t.UnknownTLV? {
      SizeOfText(t);
    } else if t.ExtendedAssociationID? || t.ExtendedAssociationIDJuniper? || t.CPathIdentifier? || t.CPathIdentifierJuniper?
              || t.CPathPreference? || t.CPathPreferenceJuniper? || t.Color? {
      SizeOfPolicyTlv(t);
    } else {
      SizeOfCapability(t);
    }
  }

  lemma NestedSum(p: nat, b: nat)
    requires 4 + PaddedLength(p) + b < 0x1_0000 && b % 4 == 0
    ensures var n := 4 + PaddedLength(p) + b;
            && ToU16(b) == b && ToU16(n) == n && Padding(n) == 0 && PaddedLength(n) == n && |Zeros(Padding(p))| == Padding(p)
  {
    assert PaddedLength(p) % 4 == 0;
  }

  lemma {:induction false} SizeOfNested(psts: bytes, subs: seq<Tlv>)
    requires Fits(4 + PaddedLength(|SentPsts(psts)|) + |SerializeAll(subs)|)
    requires LenAll(subs) == ToU16(|SerializeAll(subs)|) && |SerializeAll(subs)| % 4 == 0
    ensures forall n | n == |ValueOf(PathSetupTypeCapability(psts, subs))| :: Sized(PathSetupTypeCapability(psts, subs), n)
  {
    NestedSum(|SentPsts(psts)|, |SerializeAll(subs)|);
  }

  lemma {:induction false} PaddedMonotone(a: nat, b: nat)
    requires a <= b
    ensures PaddedLength(a) <= PaddedLength(b)
  {
  }

  lemma PaddedIsMultiple(n: nat)
    ensures (4 + PaddedLength(n)) % 4 == 0
  {
  }

  lemma SizeOfFrame(t: Tlv, n: nat)
    requires n == |ValueOf(t)| && Sized(t, n)
    ensures Serialize(t) == Frame(TypeOf(t), ValueOf(t)) && |Serialize(t)| == 4 + PaddedLength(n)
  {
  }

  lemma {:induction false} VendorFits(info: bytes)
    requires FitsPadded(4 + |info|)
    ensures VendorValueLength(info) == 4 + |info| && VendorBufferLength(info) == PaddedLength(4 + |info|)
  {
  }

  /** Of framable TLVs only an association without a usable endpoint is not written. */
  lemma {:induction false} UnwrittenHasNoLength(t: Tlv)
    requires Framable(t) && !IsEmitted(t)
    ensures Len(t) == 0
  {
    if t.VendorInformation? {
      VendorFits(t.info);
    } else if t.AssocTypeList? {
      EvenSize(|t.assocTypes|);
    }
  }

  lemma {:induction false} SizeOfFront(ts: seq<Tlv>) returns (a: nat)
    requires ts != [] && AllFramable(ts)
    ensures a == |Serialize(ts[0])| && a % 4 == 0 && Len(ts[0]) == ToU16(a)
    decreases ts, 0
  {
    if !IsEmitted(ts[0]) {
      UnwrittenHasNoLength(ts[0]);
      return 0;
    }
    var n := |ValueOf(ts[0])|;
    SizeOf(ts[0]);
    SizeOfFrame(ts[0], n);
    PaddedIsMultiple(n);
    a := 4 + PaddedLength(n);
  }

  lemma DropMultiple(x: nat, k: nat)
    ensures ToU16(x + 0x1_0000 * k) == ToU16(x)
  {
  }

  lemma SumOfMultiples(a: nat, b: nat)
    requires a % 4 == 0 && b % 4 == 0
    ensures (a + b) % 4 == 0
  {
  }

  lemma SumFitsAgain(la: u16, a: nat, lb: u16, b: nat, l: u16, n: nat)
    requires la == ToU16(a) && lb == ToU16(b) && l == ToU16(la as nat + lb) && n == a + b
    requires a % 4 == 0 && b % 4 == 0
    ensures l == ToU16(n) && n % 4 == 0
  {
    var qa, qb := a / 0x1_0000, b / 0x1_0000;
    assert a == la + 0x1_0000 * qa && b == lb + 0x1_0000 * qb;
    DropMultiple(la as nat + lb, qa + qb);
    SumOfMultiples(a, b);
  }

  lemma SizeOfCons(ts: seq<Tlv>, a: nat, b: nat)
    requires ts != [] && a == |Serialize(ts[0])| && b == |SerializeAll(ts[1..])|
    ensures |SerializeAll(ts)| == a + b && LenAll(ts) == ToU16(Len(ts[0]) as nat + LenAll(ts[1..]))
  {
  }

  lemma {:induction false} SizeOfAll(ts: seq<Tlv>)
    requires AllFramable(ts)
    ensures LenAll(ts) == ToU16(|SerializeAll(ts)|) && |SerializeAll(ts)| % 4 == 0
    decreases ts, 1
  {
    if ts != [] {
      var a := SizeOfFront(ts);
      SizeOfAll(ts[1..]);
      var b := |SerializeAll(ts[1..])|;
      SizeOfCons(ts, a, b);
      SumFitsAgain(Len(ts[0]), a, LenAll(ts[1..]), b, LenAll(ts), |SerializeAll(ts)|);
    }
  }

  /** The 16-bit lengths kept by objects are the byte counts whenever those fit 16 bits. */
  lemma {:induction false} LenIsSize(ts: seq<Tlv>)
    requires AllFramable(ts)
    ensures |SerializeAll(ts)| % 4 == 0
    ensures |SerializeAll(ts)| < 0x1_0000 ==> LenAll(ts) == |SerializeAll(ts)|
  {
    SizeOfAll(ts);
  }
}
