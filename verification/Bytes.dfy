/** Bytes, fixed-width unsigned integers, the big-endian helpers and single-bit flags
    (pcep_util.go, tlv_common.go). */
module Bytes {
  type byte = x: int | 0 <= x < 0x100
  type u16 = x: int | 0 <= x < 0x1_0000
  type u32 = x: int | 0 <= x < 0x1_0000_0000
  type u64 = x: int | 0 <= x < 0x1_0000_0000_0000_0000
  type bytes = seq<byte>

  /** Go's uint16 and uint32 conversions keep the low bits. */
  function ToU16(n: nat): u16 { n % 0x1_0000 }

  function ToU32(n: nat): u32 { n % 0x1_0000_0000 }

  function U16Bytes(v: u16): (b: bytes)
    ensures |b| == 2
  {
    [v / 0x100, v % 0x100]
  }

  function U32Bytes(v: u32): (b: bytes)
    ensures |b| == 4
  {
    U16Bytes(v / 0x1_0000) + U16Bytes(v % 0x1_0000)
  }

  function U64Bytes(v: u64): (b: bytes)
    ensures |b| == 8
  {
    U32Bytes(v / 0x1_0000_0000) + U32Bytes(v % 0x1_0000_0000)
  }

  function ReadU16(b: bytes, off: nat): u16
    requires off + 2 <= |b|
  {
    var hi: int, lo: int := b[off], b[off + 1];
    hi * 0x100 + lo
  }

  function ReadU32(b: bytes, off: nat): u32
    requires off + 4 <= |b|
  {
    var hi: int, lo: int := ReadU16(b, off), ReadU16(b, off + 2);
    hi * 0x1_0000 + lo
  }

  function ReadU64(b: bytes, off: nat): u64
    requires off + 8 <= |b|
  {
    var hi: int, lo: int := ReadU32(b, off), ReadU32(b, off + 4);
    hi * 0x1_0000_0000 + lo
  }

  lemma U16RoundTrip(pre: bytes, v: u16, post: bytes)
    ensures ReadU16(pre + U16Bytes(v) + post, |pre|) == v
  {
  }

  lemma U32RoundTrip(pre: bytes, v: u32, post: bytes)
    ensures ReadU32(pre + U32Bytes(v) + post, |pre|) == v
  {
    var hi, lo := v / 0x1_0000, v % 0x1_0000;
    assert pre + U32Bytes(v) + post == pre + U16Bytes(hi) + (U16Bytes(lo) + post);
    U16RoundTrip(pre, hi, U16Bytes(lo) + post);
    assert pre + U32Bytes(v) + post == (pre + U16Bytes(hi)) + U16Bytes(lo) + post;
    U16RoundTrip(pre + U16Bytes(hi), lo, post);
  }

  lemma U64RoundTrip(pre: bytes, v: u64, post: bytes)
    ensures ReadU64(pre + U64Bytes(v) + post, |pre|) == v
  {
    var hi, lo := v / 0x1_0000_0000, v % 0x1_0000_0000;
    assert pre + U64Bytes(v) + post == pre + U32Bytes(hi) + (U32Bytes(lo) + post);
    U32RoundTrip(pre, hi, U32Bytes(lo) + post);
    assert pre + U64Bytes(v) + post == (pre + U32Bytes(hi)) + U32Bytes(lo) + post;
    U32RoundTrip(pre + U32Bytes(hi), lo, post);
  }

  /** A 16-bit field read from a buffer is the only value whose bytes are in that place. */
  lemma U16Unique(b: bytes, off: nat)
    requires off + 2 <= |b|
    ensures U16Bytes(ReadU16(b, off)) == b[off..off + 2]
  {
  }

  /** `IsBitSet` and `SetBit` for a mask with one bit, which is how every caller uses them. */
  predicate IsBitSet(value: nat, mask: nat)
    requires mask > 0
  {
    value / mask % 2 == 1
  }

  function SetBit(value: nat, mask: nat, condition: bool): nat
    requires mask > 0
  {
    if condition && !IsBitSet(value, mask) then value + mask else value
  }

  function Bit(c: bool): nat { if c then 1 else 0 }

  function Zeros(n: nat): (z: bytes)
    ensures |z| == n
    ensures AllZero(z)
  {
    seq(n, i => 0)
  }

  predicate AllZero(b: bytes) {
    forall i :: 0 <= i < |b| ==> b[i] == 0
  }

  lemma AllZeroIsZeros(b: bytes)
    requires AllZero(b)
    ensures b == Zeros(|b|)
  {
  }

  /** Go's `copy` into a zero-filled field of `n` bytes: a longer source is cut, a shorter one
      leaves zeros behind it. */
  function CopyInto(n: nat, src: bytes): (b: bytes)
    ensures |b| == n
    ensures |src| == n ==> b == src
    ensures forall k | 0 <= k < n :: b[k] == if k < |src| then src[k] else 0
  {
    if |src| >= n then src[..n] else src + Zeros(n - |src|)
  }

  /** Bytes missing up to the next multiple of four. */
  function Padding(n: nat): (p: nat)
    ensures p < 4 && (n + p) % 4 == 0
  {
    (4 - n % 4) % 4
  }

  function PaddedLength(n: nat): (p: nat)
    ensures p == n + Padding(n)
  {
    if n % 4 == 0 then n else n + (4 - n % 4)
  }

  function Concat(parts: seq<bytes>): (b: bytes) {
    if parts == [] then [] else parts[0] + Concat(parts[1..])
  }

  lemma {:induction false} ConcatAppend(parts: seq<bytes>, last: bytes)
    ensures Concat(parts + [last]) == Concat(parts) + last
  {
    if parts == [] {
      assert Concat([last]) == last + Concat([]);
    } else {
      assert (parts + [last])[1..] == parts[1..] + [last];
      ConcatAppend(parts[1..], last);
    }
  }

  lemma {:induction false} ConcatSplit(xs: seq<bytes>, ys: seq<bytes>)
    ensures Concat(xs + ys) == Concat(xs) + Concat(ys)
  {
    if xs == [] {
      assert xs + ys == ys;
    } else {
      assert (xs + ys)[1..] == xs[1..] + ys;
      ConcatSplit(xs[1..], ys);
    }
  }

  function TotalLength(parts: seq<bytes>): nat {
    if parts == [] then 0 else |parts[0]| + TotalLength(parts[1..])
  }

  lemma {:induction false} ConcatLength(parts: seq<bytes>)
    ensures |Concat(parts)| == TotalLength(parts)
  {
    if parts != [] {
      ConcatLength(parts[1..]);
    }
  }

  /** `AppendByteSlices`: size a buffer, then copy every slice at a running offset. */
  method AppendByteSlices(parts: seq<bytes>) returns (result: array<byte>)
    ensures fresh(result) && result[..] == Concat(parts)
  {
    var totalLen := 0;
    for i := 0 to |parts|
      invariant totalLen == |Concat(parts[..i])|
    {
      assert parts[..i + 1] == parts[..i] + [parts[i]];
      ConcatAppend(parts[..i], parts[i]);
      totalLen := totalLen + |parts[i]|;
    }
    assert parts[..|parts|] == parts;
    result := new byte[totalLen](i => 0);
    var offset := 0;
    for i := 0 to |parts|
      invariant offset == |Concat(parts[..i])| <= totalLen == result.Length
      invariant result[..offset] == Concat(parts[..i])
    {
      assert parts[..i + 1] == parts[..i] + [parts[i]];
      ConcatAppend(parts[..i], parts[i]);
      assert parts == parts[..i + 1] + parts[i + 1..];
      ConcatSplit(parts[..i + 1], parts[i + 1..]);
      CopyAt(result, offset, parts[i]);
      offset := offset + |parts[i]|;
    }
  }

  /** Go's `copy(dst[offset:], src)` where the source fits. */
  method CopyAt(dst: array<byte>, offset: nat, src: bytes)
    requires offset + |src| <= dst.Length
    modifies dst
    ensures dst[..] == old(dst[..offset]) + src + old(dst[offset + |src|..])
  {
    for k := 0 to |src|
      invariant dst[..] == old(dst[..offset]) + src[..k] + old(dst[offset + k..])
    {
      dst[offset + k] := src[k];
    }
  }
}
