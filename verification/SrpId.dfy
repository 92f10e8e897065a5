/** Cyclic allocation of SRP-IDs (nextUnusedSRPID in pkg/server/session.go). */
module SrpId {
  import opened Bytes
  import opened Wrappers

  /** The head the search starts from: a reserved or too large head restarts at 1. */
  function Normalised(head: u32, max: u32): u32 {
    if head == 0 || head >= max then 1 else head
  }

  /** The `k`-th ID of the cycle 1, ..., max-1 counted from the normalised head. */
  function CyclicAt(head: u32, max: u32, k: nat): (id: nat)
    requires max >= 2 && k < max - 1
    ensures 1 <= id < max
  {
    var at := Normalised(head, max) + k;
    if at < max then at else at - (max - 1)
  }

  /** The cycle passes every ID that is not reserved, each at one step. */
  lemma CycleCovers(head: u32, max: u32, id: u32) returns (k: nat)
    requires max >= 2 && 1 <= id < max
    ensures k < max - 1 && CyclicAt(head, max, k) == id
    ensures forall j: nat | j < max - 1 && CyclicAt(head, max, j) == id :: j == k
  {
    var h := Normalised(head, max);
    k := if id >= h then id - h else id - h + (max - 1);
  }

  /** `nextUnusedSRPID`; 0 and `max` are reserved. The result is the first unused ID in cyclic
      order; there is none exactly when every ID is in use. */
  method NextUnusedSRPID(head: u32, max: u32, used: u32 -> bool) returns (r: Option<u32>, nextHead: u32)
    requires max >= 2
    ensures r.Some? ==> exists k: nat :: k < max - 1 && r.value == CyclicAt(head, max, k) && !used(r.value)
                                         && forall j: nat | j < k :: used(CyclicAt(head, max, j))
    ensures r.Some? ==> nextHead == r.value + 1
    ensures r.None? <==> forall id: u32 | 1 <= id < max :: used(id)
  {
    var cursor: u32 := head;
    var capacity := max - 1;
    for attempts := 0 to capacity
      invariant attempts < capacity ==> Normalised(cursor, max) == CyclicAt(head, max, attempts)
      invariant forall j: nat | j < attempts :: used(CyclicAt(head, max, j))
    {
      if cursor == 0 || cursor >= max {
        cursor := 1;
      }
      var candidate := cursor;
      cursor := cursor + 1;
      if !used(candidate) {
        return Some(candidate), cursor;
      }
    }
    forall id: u32 | 1 <= id < max ensures used(id) {
      var k := CycleCovers(head, max, id);
    }
    return None, cursor;
  }
}
