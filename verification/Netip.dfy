/** The part of Go's `netip` the program relies on: addresses as bytes, IPv4-mapped addresses,
    and prefixes. Text forms are not modelled; a parsed or unparsable text is a `SidText`. */
module Netip {
  import opened Bytes
  import opened Wrappers

  type Bytes4 = b: bytes | |b| == 4 witness [0, 0, 0, 0]
  type Bytes16 = b: bytes | |b| == 16 witness [0, 0, 0, 0, 0, 0, 0, 0, 0, 0, 0, 0, 0, 0, 0, 0]

  /** `netip.Addr`; the zero value is not an address. */
  datatype Addr = Invalid | V4(b4: Bytes4) | V6(b16: Bytes16) {
    predicate IsValid() { !Invalid? }

    predicate Is4() { V4? }

    predicate Is6() { V6? }

    function AsSlice(): bytes {
      match this
      case Invalid => []
      case V4(b) => b
      case V6(b) => b
    }

    /** An IPv4-mapped IPv6 address, `::ffff:a.b.c.d`. */
    predicate Is4In6() {
      V6? && AllZero(b16[..10]) && b16[10] == 0xff && b16[11] == 0xff
    }

    function Unmap(): (a: Addr)
      ensures a.IsValid() == IsValid()
      ensures !a.Is4In6()
    {
      if Is4In6() then V4(b16[12..]) else this
    }

    predicate IsLinkLocalUnicast() {
      match this
      case Invalid => false
      case V4(b) => b[0] == 169 && b[1] == 254
      case V6(b) => b[0] == 0xfe && b[1] / 0x40 == 2
    }
  }

  /** `::ffff:a.b.c.d`, and nothing else, is mapped, and unmapped to `a.b.c.d`. */
  lemma {:induction false} MappedMeans(a: Addr)
    ensures a.Is4In6() <==> a.V6? && a.b16 == [0, 0, 0, 0, 0, 0, 0, 0, 0, 0, 255, 255] + a.b16[12..]
    ensures a.Unmap() == if a.Is4In6() then V4(a.b16[12..]) else a
  {
    if a.V6? && a.b16 == [0, 0, 0, 0, 0, 0, 0, 0, 0, 0, 255, 255] + a.b16[12..] {
      assert forall i | 0 <= i < 12 :: a.b16[i] == [0, 0, 0, 0, 0, 0, 0, 0, 0, 0, 255, 255][i];
    }
  }

  /** Link-local are 169.254.0.0/16 and fe80::/10. */
  lemma {:induction false} LinkLocalMeans(a: Addr)
    ensures a.IsLinkLocalUnicast() <==>
            match a
            case Invalid => false
            case V4(b) => ReadU16(b, 0) == 0xa9fe
            case V6(b) => 0xfe80 <= ReadU16(b, 0) < 0xfec0
  {
  }

  /** `netip.AddrFromSlice`, whose second result every caller drops. */
  function AddrFromSlice(b: bytes): Addr {
    if |b| == 4 then V4(b) else if |b| == 16 then V6(b) else Invalid
  }

  /** A SID as BGP-LS or the caller writes it: text that `netip.ParseAddr` accepts, or not. */
  datatype SidText = Text4(b4: Bytes4) | Text6(b16: Bytes16) | Unparsable

  function ParseAddr(t: SidText): (r: Option<Addr>)
    ensures r.Some? ==> r.value.IsValid()
  {
    match t
    case Text4(b) => Some(V4(b))
    case Text6(b) => Some(V6(b))
    case Unparsable => None
  }

  /** Bit `i` of a byte string, counted from the most significant bit of the first byte. */
  predicate BitAt(b: bytes, i: nat)
    requires i < 8 * |b|
  {
    b[i / 8] / [0x80, 0x40, 0x20, 0x10, 8, 4, 2, 1][i % 8] % 2 == 1
  }

  function Bits(b: bytes): (s: seq<bool>)
    ensures |s| == 8 * |b|
  {
    seq(8 * |b|, i requires 0 <= i < 8 * |b| => BitAt(b, i))
  }

  /** An IPv6 prefix with its host bits masked off: what is left are the network bits. */
  type Prefix6 = p: seq<bool> | |p| <= 128 witness []

  /** `addr.Prefix(bits)` for an IPv6 address and 0 <= bits <= 128. */
  function PrefixOf(a: Addr, bits: nat): (p: Prefix6)
    requires a.Is6() && bits <= 128
    ensures |p| == bits
  {
    Bits(a.b16)[..bits]
  }

  /** `prefix.Contains(addr)` for an IPv6 prefix: never true of an IPv4 address. */
  predicate Contains(p: Prefix6, a: Addr) {
    a.Is6() && p <= Bits(a.b16)
  }

  /** Masking loses nothing containment looks at: an address lies in the prefix cut from
      another exactly when the two agree on that many leading bits. */
  lemma {:induction false} ContainsPrefixOf(a: Addr, bits: nat, b: Addr)
    requires a.Is6() && b.Is6() && bits <= 128
    ensures Contains(PrefixOf(a, bits), b) <==> forall i | 0 <= i < bits :: BitAt(a.b16, i) == BitAt(b.b16, i)
  {
    var p := PrefixOf(a, bits);
    assert p <= Bits(b.b16) <==> forall i | 0 <= i < bits :: p[i] == Bits(b.b16)[i];
    assert forall i | 0 <= i < bits :: p[i] == BitAt(a.b16, i) && Bits(b.b16)[i] == BitAt(b.b16, i);
  }
}
