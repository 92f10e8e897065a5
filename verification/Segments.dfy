/** Segments and their comparison (pkg/table/sr_policy.go). */
module Segments {
  import opened Bytes
  import opened Netip
  import opened Wrappers

  datatype Segment =
    | SRMPLS(sid: u32, ttl: byte, tc: byte, s: bool, localAddr: Addr, remoteAddr: Addr)
    | SRv6(sid6: Addr, localAddr: Addr, remoteAddr: Addr, structure: Option<bytes>, usid: bool)

  const BEHAVIOR_END: u16 := 0x0001
  const BEHAVIOR_ENDX: u16 := 0x0005
  const BEHAVIOR_UN: u16 := 0x0030
  const BEHAVIOR_UA: u16 := 0x0039

  function NewSegmentSRMPLS(sid: u32): Segment {
    SRMPLS(sid, 0, 0, false, Invalid, Invalid)
  }

  /** `SegmentsEqual`: the same hop. MPLS compares labels only; SRv6 ignores structure and uSID. */
  predicate SegmentsEqual(a: Segment, b: Segment) {
    match (a, b)
    case (SRMPLS(x, _, _, _, _, _), SRMPLS(y, _, _, _, _, _)) => x == y
    case (SRv6(x, xl, xr, _, _), SRv6(y, yl, yr, _, _)) => x == y && xl == yl && xr == yr
    case _ => false
  }

  /** Two segments are the same hop when both are MPLS and the labels agree, or both are SRv6 and SID,
      local and remote address do; never across kinds. */
  predicate SameHop(a: Segment, b: Segment) {
    || (a.SRMPLS? && b.SRMPLS? && a.sid == b.sid)
    || (a.SRv6? && b.SRv6? && a.sid6 == b.sid6 && a.localAddr == b.localAddr && a.remoteAddr == b.remoteAddr)
  }

  lemma EqualSegmentsAreOneHop(a: Segment, b: Segment)
    ensures SegmentsEqual(a, b) <==> SameHop(a, b)
  {
  }

  /** `SegmentSRv6.Behavior`: an error without a local address. */
  function Behavior(seg: Segment): Option<u16>
    requires seg.SRv6?
  {
    if !seg.localAddr.IsValid() then None
    else if seg.usid then Some(if seg.remoteAddr.IsValid() then BEHAVIOR_UA else BEHAVIOR_UN)
    else Some(if seg.remoteAddr.IsValid() then BEHAVIOR_ENDX else BEHAVIOR_END)
  }

  /** End (1) and End.X (5), or uN (48) and uA (57) for uSIDs; the second of each pair with a remote
      address. */
  lemma BehaviorMeans(seg: Segment)
    requires seg.SRv6?
    ensures Behavior(seg) ==
            match (seg.localAddr, seg.remoteAddr, seg.usid)
            case (Invalid, _, _) => None
            case (_, Invalid, true) => Some(48)
            case (_, Invalid, false) => Some(1)
            case (_, _, true) => Some(57)
            case (_, _, false) => Some(5)
  {
  }

  predicate HasMPLSStackEntryAttrs(seg: Segment)
    requires seg.SRMPLS?
  {
    seg.tc != 0 || seg.s || seg.ttl != 0
  }
}
