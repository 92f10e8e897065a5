/** The decoders and serializers of TLV lists as the loops they are: each agrees with the
    function in `Tlv` that the round trips are about. */
module TlvLoops {
  import opened Bytes
  import opened Tlv
  import opened Wrappers

  /** `decodeTLVSequence`, on a slice that shrinks from the front. */
  method DecodeTLVSequence(input: bytes, space: Space) returns (r: Option<seq<Tlv>>)
    ensures r == DecodeTLVs(input, space)
    decreases |input|, 1
  {
    var data := input;
    var tlvs: seq<Tlv> := [];
    PrependNothing(DecodeTLVs(input, space));
    while |data| > 0
      invariant |data| <= |input|
      invariant DecodeTLVs(input, space) == Prepend(tlvs, DecodeTLVs(data, space))
      decreases |data|
    {
      if |data| < 4 {
        return None;
      }
      var totalLen: nat := 4 + ReadU16(data, 2) as int;
      if |data| < totalLen {
        return None;
      }
      var tlv := DecodeOne(data[..totalLen], space);
      if tlv.None? {
        return None;
      }
      var paddedLen := PaddedLength(totalLen);
      if |data| < paddedLen {
        return None;
      }
      var zero := IsZeroFilled(data[totalLen..paddedLen]);
      if !zero {
        return None;
      }
      PrependMore(tlvs, [tlv.value], DecodeTLVs(data[paddedLen..], space));
      tlvs := tlvs + [tlv.value];
      data := data[paddedLen..];
    }
    assert DecodeTLVs(data, space) == Some([]);
    assert tlvs + [] == tlvs;
    return Some(tlvs);
  }

  method IsZeroFilled(b: bytes) returns (zero: bool)
    ensures zero == AllZero(b)
  {
    for i := 0 to |b|
      invariant AllZero(b[..i])
    {
      if b[i] != 0 {
        return false;
      }
      assert b[..i + 1] == b[..i] + [b[i]];
    }
    assert b[..|b|] == b;
    return true;
  }

  /** `decodeTLV`: the decoder its type stands for, or the raw bytes. */
  method DecodeOne(data: bytes, space: Space) returns (r: Option<Tlv>)
    requires |data| >= 4
    ensures r == DecodeTLV(data, space)
    decreases |data|, 0
  {
    var typ := ReadU16(data, 0);
    var length := DecodeTLVLength(data, space.Vendor? || AllowsPadding(typ));
    if length.None? {
      return None;
    }
    var value := data[4..4 + length.value];
    if space.Standard? && typ == PATH_SETUP_TYPE_CAPABILITY {
      r := DecodePathSetup(value);
    } else if space.Standard? && typ == ASSOC_TYPE_LIST {
      if |value| % 2 != 0 {
        return None;
      }
      var types := DecodeAssocTypes(value);
      r := Some(AssocTypeList(types[..]));
    } else {
      r := DecodeTLV(data, space);
    }
  }

  /** `PathSetupTypeCapability.DecodeFromBytes` on the value field. */
  method DecodePathSetup(value: bytes) returns (r: Option<Tlv>)
    ensures r == DecodePathSetupTypeCapability(value)
    decreases |value|, 2
  {
    if |value| < 4 {
      return None;
    }
    var pstNum := value[3];
    var read := ReadPathSetupTypes(value, pstNum);
    if read.None? {
      return None;
    }
    var psts := read.value;
    var subTLVOffset := 4 + PaddedLength(pstNum);
    if subTLVOffset > |value| {
      return None;
    }
    var subs := DecodeTLVSequence(value[subTLVOffset..], Standard);
    if subs.None? {
      return None;
    }
    return Some(PathSetupTypeCapability(psts, subs.value));
  }

  method ReadPathSetupTypes(value: bytes, pstNum: byte) returns (psts: Option<bytes>)
    requires |value| >= 4
    ensures psts == if 4 + pstNum as int > |value| then None else Some(value[4..4 + pstNum])
  {
    var read: bytes := [];
    for i: int := 0 to pstNum
      invariant 4 + i <= |value| && read == value[4..4 + i]
    {
      if 4 + i >= |value| {
        return None;
      }
      read := read + [value[4 + i]];
    }
    return Some(read);
  }

  lemma {:induction false} ReadAssocTypesAt(value: bytes, i: nat)
    requires |value| % 2 == 0 && 2 * i + 2 <= |value|
    ensures ReadAssocTypes(value)[i] == ReadU16(value, 2 * i)
    decreases |value|
  {
    if 2 * i + 2 < |value| {
      ReadAssocTypesAt(value[..|value| - 2], i);
    }
  }

  /** `AssocTypeList.DecodeFromBytes` on the value field. */
  method DecodeAssocTypes(value: bytes) returns (types: array<u16>)
    requires |value| % 2 == 0
    ensures fresh(types) && types[..] == ReadAssocTypes(value)
  {
    var assocNum := |value| / 2;
    types := new u16[assocNum](i => 0);
    for i := 0 to assocNum
      invariant forall j | 0 <= j < i :: types[j] == ReadAssocTypes(value)[j]
    {
      ReadAssocTypesAt(value, i);
      types[i] := ReadU16(value, 2 * i);
    }
  }

  /** Bytes and length of more TLVs behind those already there. */
  function Onto(b: bytes, length: u16, ts: seq<Tlv>): (bytes, u16)
    decreases |ts|
  {
    if ts == [] then (b, length) else Onto(b + Serialize(ts[0]), ToU16(length as nat + Len(ts[0])), ts[1..])
  }

  lemma {:induction false} OntoIsAll(b: bytes, length: u16, ts: seq<Tlv>)
    ensures Onto(b, length, ts) == (b + SerializeAll(ts), ToU16(length as nat + LenAll(ts)))
    decreases |ts|
  {
    if ts == [] {
      assert b + SerializeAll(ts) == b;
      assert ToU16(length as nat + LenAll(ts)) == length;
    } else {
      FirstIsWritten(b, length, ts);
      OntoIsAll(b + Serialize(ts[0]), ToU16(length as nat + Len(ts[0])), ts[1..]);
    }
  }

  /** The loop that appends TLV after TLV and adds up their lengths. */
  method SerializeTLVs(ts: seq<Tlv>) returns (b: bytes, length: u16)
    ensures b == SerializeAll(ts) && length == LenAll(ts)
  {
    b, length := [], 0;
    var rest := ts;
    while rest != []
      invariant Onto(b, length, rest) == Onto([], 0, ts)
      decreases |rest|
    {
      b := b + Serialize(rest[0]);
      length := ToU16(length as nat + Len(rest[0]));
      rest := rest[1..];
    }
    OntoIsAll([], 0, ts);
    SumWraps(0, 0, LenAll(ts));
  }

  lemma {:induction false} FirstIsWritten(b: bytes, length: u16, ts: seq<Tlv>)
    requires ts != []
    ensures b + SerializeAll(ts) == (b + Serialize(ts[0])) + SerializeAll(ts[1..])
    ensures ToU16(length as nat + LenAll(ts)) == ToU16(ToU16(length as nat + Len(ts[0])) as nat + LenAll(ts[1..]))
  {
    assert SerializeAll(ts) == Serialize(ts[0]) + SerializeAll(ts[1..]);
    SumWraps(length, Len(ts[0]), LenAll(ts[1..]));
  }

  /** Adding in 16 bits is associative. */
  lemma SumWraps(a: u16, b: u16, c: u16)
    ensures ToU16(ToU16(a as nat + b) as nat + c) == ToU16(a as nat + ToU16(b as nat + c))
  {
  }
}
