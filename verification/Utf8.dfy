/** Which names a decoder accepts as text: exactly the concatenated encodings of Unicode scalar values
    (Go's `utf8.Valid`, which pkg/packet/pcep/tlv.go asks; section 3 of RFC 3629). */
module Utf8 {
  import opened Bytes
  import opened Tlv

  /** A Unicode scalar value: up to 0x10ffff, without the surrogates. */
  predicate IsScalar(c: nat) {
    c < 0xd800 || 0xe000 <= c < 0x11_0000
  }

  /** Its one to four bytes, the shortest that hold it. */
  function Encode(c: nat): (b: bytes)
    requires IsScalar(c)
    ensures 1 <= |b| <= 4
  {
    if c < 0x80 then [c]
    else if c < 0x800 then [0xc0 + c / 0x40, 0x80 + c % 0x40]
    else if c < 0x1_0000 then [0xe0 + c / 0x1000, 0x80 + c / 0x40 % 0x40, 0x80 + c % 0x40]
    else [0xf0 + c / 0x4_0000, 0x80 + c / 0x1000 % 0x40, 0x80 + c / 0x40 % 0x40, 0x80 + c % 0x40]
  }

  predicate AreScalars(cs: seq<nat>) {
    forall c | c in cs :: IsScalar(c)
  }

  function EncodeAll(cs: seq<nat>): bytes
    requires AreScalars(cs)
  {
    if cs == [] then [] else Encode(cs[0]) + EncodeAll(cs[1..])
  }

  lemma {:induction false} FirstIsSkipped(c: nat, rest: bytes)
    requires IsScalar(c)
    ensures Utf8Valid(Encode(c) + rest) <==> Utf8Valid(rest)
  {
    var b := Encode(c) + rest;
    assert b[|Encode(c)|..] == rest;
    assert forall i | 0 <= i < |Encode(c)| :: b[i] == Encode(c)[i];
  }

  lemma {:induction false} EncodedIsValid(cs: seq<nat>)
    requires AreScalars(cs)
    ensures Utf8Valid(EncodeAll(cs))
  {
    if cs != [] {
      EncodedIsValid(cs[1..]);
      FirstIsSkipped(cs[0], EncodeAll(cs[1..]));
    }
  }

  /** The first scalar value of valid bytes. */
  lemma {:induction false} FirstScalar(b: bytes) returns (c: nat)
    requires b != [] && Utf8Valid(b)
    ensures IsScalar(c) && |Encode(c)| <= |b| && b[..|Encode(c)|] == Encode(c) && Utf8Valid(b[|Encode(c)|..])
  {
    var x: int := b[0];
    if x < 0x80 {
      c := x;
    } else if x <= 0xdf {
      c := TwoBytes(b);
    } else if x <= 0xef {
      c := ThreeBytes(b);
    } else {
      c := FourBytes(b);
    }
  }

  lemma {:induction false} TwoBytes(b: bytes) returns (c: nat)
    requires |b| > 0 && 0x80 <= b[0] <= 0xdf && Utf8Valid(b)
    ensures IsScalar(c) && |Encode(c)| == 2 && 2 <= |b| && b[..2] == Encode(c) && Utf8Valid(b[2..])
  {
    var x: int, y: int := b[0], b[1];
    c := (x - 0xc0) * 0x40 + (y - 0x80);
  }

  lemma {:induction false} ThreeBytes(b: bytes) returns (c: nat)
    requires |b| > 0 && 0xe0 <= b[0] <= 0xef && Utf8Valid(b)
    ensures IsScalar(c) && |Encode(c)| == 3 && 3 <= |b| && b[..3] == Encode(c) && Utf8Valid(b[3..])
  {
    var x: int, y: int, z: int := b[0], b[1], b[2];
    c := (x - 0xe0) * 0x1000 + (y - 0x80) * 0x40 + (z - 0x80);
    assert c / 0x40 == (x - 0xe0) * 0x40 + (y - 0x80);
    assert c / 0x1000 == x - 0xe0;
  }

  lemma {:induction false} FourBytes(b: bytes) returns (c: nat)
    requires |b| > 0 && 0xf0 <= b[0] && Utf8Valid(b)
    ensures IsScalar(c) && |Encode(c)| == 4 && 4 <= |b| && b[..4] == Encode(c) && Utf8Valid(b[4..])
  {
    var x: int, y: int, z: int, w: int := b[0], b[1], b[2], b[3];
    c := (x - 0xf0) * 0x4_0000 + (y - 0x80) * 0x1000 + (z - 0x80) * 0x40 + (w - 0x80);
    assert c / 0x40 == (x - 0xf0) * 0x1000 + (y - 0x80) * 0x40 + (z - 0x80);
    assert c / 0x1000 == (x - 0xf0) * 0x40 + (y - 0x80);
    assert c / 0x4_0000 == x - 0xf0;
  }

  lemma {:induction false} ValidIsEncoded(b: bytes) returns (cs: seq<nat>)
    requires Utf8Valid(b)
    ensures AreScalars(cs) && EncodeAll(cs) == b
    decreases |b|
  {
    if b == [] {
      cs := [];
    } else {
      var c := FirstScalar(b);
      var rest := ValidIsEncoded(b[|Encode(c)|..]);
      cs := [c] + rest;
      assert cs[1..] == rest;
    }
  }

  /** Text is what encodes some sequence of scalar values: no overlong forms, no surrogates, nothing
      beyond the last plane, and no stray or missing continuation byte. */
  lemma {:induction false} ValidExactlyWhenEncoded(b: bytes)
    ensures Utf8Valid(b) <==> exists cs :: AreScalars(cs) && EncodeAll(cs) == b
  {
    if Utf8Valid(b) {
      var cs := ValidIsEncoded(b);
    }
    if cs :| AreScalars(cs) && EncodeAll(cs) == b {
      EncodedIsValid(cs);
    }
  }
}
