/** PCErr messages (section 6.7 of RFC 5440): a list of errors, and the SRP objects of the requests
    they are about (pkg/packet/pcep/message.go). */
module ErrorMessages {
  import opened Bytes
  import opened Wrappers
  import opened Objects
  import opened Messages
  import opened TlvRoundTrip
  import Tlv
  import TlvFrames
  import ObjectRoundTrip

  datatype PCErr = PCErr(errors: seq<PcepError>, srps: seq<Srp>)

  /** What one object adds to a message; objects of other classes add nothing. */
  function Add(m: PCErr, o: RawObject): Option<PCErr> {
    if o.class_ == PCEP_ERROR then
      (match DecodeError(o.typ, o.body) case None => None case Some(e) => Some(m.(errors := m.errors + [e])))
    else if o.class_ == SRP then
      (match DecodeSrp(o.typ, o.body) case None => None case Some(s) => Some(m.(srps := m.srps + [s])))
    else Some(m)
  }

  /** The objects of a body, one after the other, added to what the message already has. */
  function Collect(body: bytes, m: PCErr): Option<PCErr>
    decreases |body|
  {
    if body == [] then Some(m)
    else
      match TakeObject(body)
      case None => None
      case Some((o, rest)) =>
        if (4 + |o.body|) % 4 != 0 then None
        else match Add(m, o) case None => None case Some(m') => Collect(rest, m')
  }

  /** Objects of class 13 are errors, with type and value in the third and fourth byte; objects of class
      33 are SRP objects, with the ID in the second word. Others add nothing, and what does not decode
      is an error of the message. */
  lemma {:induction false} AddMeans(m: PCErr, o: RawObject)
    ensures forall m' | Add(m, o) == Some(m') ::
              if o.class_ == 13 then
                |o.body| >= 4 && m'.srps == m.srps && exists e :: m'.errors == m.errors + [e] && e.errorType == o.body[2] && e.errorValue == o.body[3]
              else if o.class_ == 33 then
                |o.body| >= 8 && m'.errors == m.errors && exists s :: m'.srps == m.srps + [s] && s.srpID == ReadU32(o.body, 4)
              else m' == m
    ensures o.class_ !in {13, 33} ==> Add(m, o).Some?
  {
  }

  /** A message without an error is none. */
  function Decode(body: bytes): Option<PCErr> {
    match Collect(body, PCErr([], []))
    case None => None
    case Some(m) => if m.errors == [] then None else Some(m)
  }

  /** The object at an offset and where it ends, unless its header or its length is wrong. */
  method FrameAt(messageBody: bytes, offset: nat) returns (r: Option<(RawObject, nat)>)
    requires offset < |messageBody|
    ensures r.Some? ==>
              var (o, end) := r.value;
              && offset < end <= |messageBody| && (4 + |o.body|) % 4 == 0
              && TakeObject(messageBody[offset..]) == Some((o, messageBody[end..]))
    ensures r.None? ==> TakeObject(messageBody[offset..]).None? || (4 + |TakeObject(messageBody[offset..]).value.0.body|) % 4 != 0
  {
    ghost var here := messageBody[offset..];
    if |messageBody| - offset < 4 {
      return None;
    }
    var header := messageBody[offset..offset + 4];
    assert header == here[..4];
    var objectLength: nat := ReadU16(header, 2);
    if objectLength < 4 || objectLength % 4 != 0 {
      return None;
    }
    var end := offset + objectLength;
    if end > |messageBody| {
      return None;
    }
    assert messageBody[offset + 4..end] == here[4..objectLength] && messageBody[end..] == here[objectLength..];
    return Some((RawFrom(header, messageBody[offset + 4..end]), end));
  }

  lemma {:induction false} CollectOne(messageBody: bytes, offset: nat, o: RawObject, end: nat, m: PCErr)
    requires offset < |messageBody| && offset <= end <= |messageBody| && (4 + |o.body|) % 4 == 0
    requires TakeObject(messageBody[offset..]) == Some((o, messageBody[end..]))
    ensures Collect(messageBody[offset..], m) == match Add(m, o) case None => None case Some(m') => Collect(messageBody[end..], m')
  {
  }

  class PCErrMessage {
    var errors: seq<PcepError>
    var srps: seq<Srp>

    constructor ()
      ensures errors == [] && srps == []
    {
      errors, srps := [], [];
    }

    function Value(): PCErr
      reads this
    {
      PCErr(errors, srps)
    }

    /** `DecodeFromBytes`, with a running offset. What was there stays in front. */
    method DecodeFromBytes(messageBody: bytes) returns (ok: bool)
      modifies this
      ensures ok <==> Collect(messageBody, old(Value())).Some? && errors != []
      ensures Collect(messageBody, old(Value())).Some? ==> Value() == Collect(messageBody, old(Value())).value
      ensures old(errors) <= errors && old(srps) <= srps
    {
      var offset := 0;
      while offset < |messageBody|
        invariant offset <= |messageBody|
        invariant Collect(messageBody, old(Value())) == Collect(messageBody[offset..], Value())
        invariant old(errors) <= errors && old(srps) <= srps
      {
        var framed := FrameAt(messageBody, offset);
        if framed.None? {
          return false;
        }
        var (o, end) := framed.value;
        CollectOne(messageBody, offset, o, end, Value());
        var added := AddObject(o);
        if !added {
          return false;
        }
        offset := end;
      }
      return errors != [];
    }

    /** The switch on the object's class. */
    method AddObject(o: RawObject) returns (ok: bool)
      modifies this
      ensures ok <==> Add(old(Value()), o).Some?
      ensures Value() == if ok then Add(old(Value()), o).value else old(Value())
      ensures old(errors) <= errors && old(srps) <= srps
    {
      if o.class_ == PCEP_ERROR {
        var e := DecodeError(o.typ, o.body);
        if e.None? {
          return false;
        }
        errors := errors + [e.value];
      } else if o.class_ == SRP {
        var s := DecodeSrp(o.typ, o.body);
        if s.None? {
          return false;
        }
        srps := srps + [s.value];
      }
      return true;
    }

    /** `SRPIDs`, in wire order. */
    method SRPIDs() returns (ids: seq<u32>)
      ensures |ids| == |srps| && forall i | 0 <= i < |ids| :: ids[i] == srps[i].srpID
    {
      ids := [];
      for i := 0 to |srps|
        invariant |ids| == i && forall j | 0 <= j < i :: ids[j] == srps[j].srpID
      {
        ids := ids + [srps[i].srpID];
      }
    }
  }

  // ----- round trip

  function OfClass(raws: seq<RawObject>, class_: byte): seq<RawObject> {
    if raws == [] then [] else (if raws[0].class_ == class_ then [raws[0]] else []) + OfClass(raws[1..], class_)
  }

  function RawError(e: PcepError): RawObject { RawObject(PCEP_ERROR, e.typ, 0, false, false, ErrorBody(e)) }

  function RawSrps(srps: seq<Srp>): seq<RawObject> {
    if srps == [] then [] else [RawSrp(srps[0])] + RawSrps(srps[1..])
  }

  function RawErrors(errors: seq<PcepError>): seq<RawObject> {
    if errors == [] then [] else [RawError(errors[0])] + RawErrors(errors[1..])
  }

  predicate TlvsWellFormed(m: PCErr) {
    && (forall s | s in m.srps :: AllWellFormed(s.tlvs))
    && (forall e | e in m.errors :: AllWellFormed(e.tlvs))
  }

  predicate Aligned(raws: seq<RawObject>) {
    forall r | r in raws :: RawFits(r) && (4 + |r.body|) % 4 == 0
  }

  lemma {:induction false} CollectFirst(raws: seq<RawObject>, prior: PCErr)
    requires raws != [] && Aligned(raws)
    ensures Collect(FrameAll(raws), prior) ==
            match Add(prior, raws[0]) case None => None case Some(m) => Collect(FrameAll(raws[1..]), m)
  {
    TakeFrame(raws[0], FrameAll(raws[1..]));
    assert FrameAll(raws) == Objects.Frame(raws[0]) + FrameAll(raws[1..]);
  }

  lemma {:induction false} AddSrp(raws: seq<RawObject>, m: PCErr, prior: PCErr)
    requires raws != [] && raws[0].class_ == SRP && TlvsWellFormed(m) && OfClass(raws, SRP) == RawSrps(m.srps)
    ensures m.srps != [] && Add(prior, raws[0]) == Some(prior.(srps := prior.srps + [m.srps[0]]))
    ensures OfClass(raws[1..], SRP) == RawSrps(m.srps[1..]) && OfClass(raws[1..], PCEP_ERROR) == OfClass(raws, PCEP_ERROR)
  {
    assert OfClass(raws, SRP)[0] == raws[0] && OfClass(raws, SRP)[1..] == OfClass(raws[1..], SRP);
    ObjectRoundTrip.SrpRoundTrip(m.srps[0]);
  }

  lemma {:induction false} AddError(raws: seq<RawObject>, m: PCErr, prior: PCErr)
    requires raws != [] && raws[0].class_ == PCEP_ERROR && TlvsWellFormed(m) && OfClass(raws, PCEP_ERROR) == RawErrors(m.errors)
    ensures m.errors != [] && Add(prior, raws[0]) == Some(prior.(errors := prior.errors + [m.errors[0]]))
    ensures OfClass(raws[1..], PCEP_ERROR) == RawErrors(m.errors[1..]) && OfClass(raws[1..], SRP) == OfClass(raws, SRP)
  {
    assert OfClass(raws, PCEP_ERROR)[0] == raws[0] && OfClass(raws, PCEP_ERROR)[1..] == OfClass(raws[1..], PCEP_ERROR);
    ObjectRoundTrip.ErrorRoundTrip(m.errors[0]);
  }

  /** The objects of these classes among others, each list in its order. */
  predicate Interleaves(raws: seq<RawObject>, m: PCErr) {
    && Aligned(raws) && TlvsWellFormed(m)
    && OfClass(raws, SRP) == RawSrps(m.srps) && OfClass(raws, PCEP_ERROR) == RawErrors(m.errors)
  }

  lemma {:induction false} InterleavesBehind(raws: seq<RawObject>, m: PCErr)
    requires raws != [] && Interleaves(raws, m)
    ensures Interleaves(raws[1..], Behind(raws[0], m))
  {
    if raws[0].class_ == SRP {
      AddSrp(raws, m, m);
    } else if raws[0].class_ == PCEP_ERROR {
      AddError(raws, m, m);
    }
  }

  /** What is left to be found behind an object. */
  function Behind(o: RawObject, m: PCErr): PCErr {
    if o.class_ == SRP && m.srps != [] then PCErr(m.errors, m.srps[1..])
    else if o.class_ == PCEP_ERROR && m.errors != [] then PCErr(m.errors[1..], m.srps)
    else m
  }

  /** What the object moves from the one to the other. */
  lemma {:induction false} AddMoves(raws: seq<RawObject>, m: PCErr, prior: PCErr) returns (prior': PCErr)
    requires raws != [] && Interleaves(raws, m)
    ensures Add(prior, raws[0]) == Some(prior')
    ensures var m' := Behind(raws[0], m);
            prior'.errors + m'.errors == prior.errors + m.errors && prior'.srps + m'.srps == prior.srps + m.srps
  {
    if raws[0].class_ == SRP {
      AddSrp(raws, m, prior);
      prior' := prior.(srps := prior.srps + [m.srps[0]]);
    } else if raws[0].class_ == PCEP_ERROR {
      AddError(raws, m, prior);
      prior' := prior.(errors := prior.errors + [m.errors[0]]);
    } else {
      prior' := prior;
    }
  }

  /** However the SRP objects, the errors and objects of any other class are interleaved, each
      list is found complete and in its order. */
  lemma {:induction false} InterleavedObjectsAreCollected(raws: seq<RawObject>, m: PCErr, prior: PCErr)
    requires Interleaves(raws, m)
    ensures Collect(FrameAll(raws), prior) == Some(PCErr(prior.errors + m.errors, prior.srps + m.srps))
    decreases |raws|
  {
    if raws == [] {
      assert prior.errors + m.errors == prior.errors && prior.srps + m.srps == prior.srps;
    } else {
      CollectFirst(raws, prior);
      InterleavesBehind(raws, m);
      var prior' := AddMoves(raws, m, prior);
      InterleavedObjectsAreCollected(raws[1..], Behind(raws[0], m), prior');
    }
  }

  // ----- what `Serialize` writes

  /** The SRP objects, then the errors. */
  function ObjectsOf(m: PCErr): (os: seq<Object>)
    ensures forall o | o in os :: Typed(o)
  {
    seq(|m.srps|, i requires 0 <= i < |m.srps| => SrpObject(m.srps[i]))
    + seq(|m.errors|, i requires 0 <= i < |m.errors| => ErrorObject(m.errors[i]))
  }

  lemma {:induction false} OfClassSplits(xs: seq<RawObject>, ys: seq<RawObject>, class_: byte)
    ensures OfClass(xs + ys, class_) == OfClass(xs, class_) + OfClass(ys, class_)
  {
    if xs == [] {
      assert xs + ys == ys;
    } else {
      assert (xs + ys)[1..] == xs[1..] + ys;
      OfClassSplits(xs[1..], ys, class_);
      var first := if xs[0].class_ == class_ then [xs[0]] else [];
      assert OfClass(xs + ys, class_) == first + OfClass((xs + ys)[1..], class_);
      assert first + (OfClass(xs[1..], class_) + OfClass(ys, class_)) == (first + OfClass(xs[1..], class_)) + OfClass(ys, class_);
    }
  }

  lemma {:induction false} OneClass(raws: seq<RawObject>, c: byte, class_: byte)
    requires forall r | r in raws :: r.class_ == c
    ensures OfClass(raws, class_) == if c == class_ then raws else []
  {
    if raws != [] {
      OneClass(raws[1..], c, class_);
    }
  }

  lemma {:induction false} RawSrpAt(srps: seq<Srp>)
    ensures |RawSrps(srps)| == |srps| && forall i | 0 <= i < |srps| :: RawSrps(srps)[i] == RawSrp(srps[i])
  {
    if srps != [] {
      RawSrpAt(srps[1..]);
    }
  }

  lemma {:induction false} RawErrorAt(errors: seq<PcepError>)
    ensures |RawErrors(errors)| == |errors| && forall i | 0 <= i < |errors| :: RawErrors(errors)[i] == RawError(errors[i])
  {
    if errors != [] {
      RawErrorAt(errors[1..]);
    }
  }

  lemma {:induction false} RawsAreLists(m: PCErr)
    ensures forall o | o in ObjectsOf(m) :: BodyOf(o).Some?
    ensures RawsOf(ObjectsOf(m)) == RawSrps(m.srps) + RawErrors(m.errors)
  {
    var os := ObjectsOf(m);
    RawSrpAt(m.srps);
    RawErrorAt(m.errors);
    assert forall o | o in os :: BodyOf(o).Some?;
    assert forall i | 0 <= i < |os| :: RawsOf(os)[i] == RawOf(os[i]);
  }

  lemma {:induction false} SrpIsAligned(s: Srp)
    requires AllWellFormed(s.tlvs)
    ensures (4 + |RawSrp(s).body|) % 4 == 0
  {
    WellFormedIsFramable(s.tlvs);
    TlvFrames.LenIsSize(s.tlvs);
    TlvFrames.SumOfMultiples(12, |Tlv.SerializeAll(s.tlvs)|);
  }

  lemma {:induction false} ErrorIsAligned(e: PcepError)
    requires AllWellFormed(e.tlvs)
    ensures (4 + |RawError(e).body|) % 4 == 0
  {
    WellFormedIsFramable(e.tlvs);
    TlvFrames.LenIsSize(e.tlvs);
    TlvFrames.SumOfMultiples(8, |Tlv.SerializeAll(e.tlvs)|);
  }

  lemma {:induction false} ListsAreAligned(m: PCErr)
    requires TlvsWellFormed(m)
    ensures forall r | r in RawSrps(m.srps) + RawErrors(m.errors) :: (4 + |r.body|) % 4 == 0
  {
    RawSrpAt(m.srps);
    RawErrorAt(m.errors);
    forall i | 0 <= i < |m.srps|
      ensures (4 + |RawSrp(m.srps[i]).body|) % 4 == 0
    {
      assert m.srps[i] in m.srps;
      SrpIsAligned(m.srps[i]);
    }
    forall i | 0 <= i < |m.errors|
      ensures (4 + |RawError(m.errors[i]).body|) % 4 == 0
    {
      assert m.errors[i] in m.errors;
      ErrorIsAligned(m.errors[i]);
    }
  }

  lemma {:induction false} ListsHaveOneClass(m: PCErr)
    ensures OfClass(RawSrps(m.srps), SRP) == RawSrps(m.srps) && OfClass(RawSrps(m.srps), PCEP_ERROR) == []
    ensures OfClass(RawErrors(m.errors), SRP) == [] && OfClass(RawErrors(m.errors), PCEP_ERROR) == RawErrors(m.errors)
  {
    RawSrpAt(m.srps);
    RawErrorAt(m.errors);
    OneClass(RawSrps(m.srps), SRP, SRP);
    OneClass(RawSrps(m.srps), SRP, PCEP_ERROR);
    OneClass(RawErrors(m.errors), PCEP_ERROR, SRP);
    OneClass(RawErrors(m.errors), PCEP_ERROR, PCEP_ERROR);
  }

  lemma {:induction false} ListsOfBoth(m: PCErr)
    ensures OfClass(RawSrps(m.srps) + RawErrors(m.errors), SRP) == RawSrps(m.srps)
    ensures OfClass(RawSrps(m.srps) + RawErrors(m.errors), PCEP_ERROR) == RawErrors(m.errors)
  {
    var srps, errors := RawSrps(m.srps), RawErrors(m.errors);
    OfClassSplits(srps, errors, SRP);
    OfClassSplits(srps, errors, PCEP_ERROR);
    ListsHaveOneClass(m);
  }

  lemma {:induction false} ListsInterleave(m: PCErr)
    requires Aligned(RawSrps(m.srps) + RawErrors(m.errors)) && TlvsWellFormed(m)
    ensures Interleaves(RawSrps(m.srps) + RawErrors(m.errors), m)
  {
    ListsOfBoth(m);
  }

  lemma {:induction false} ListsDecode(m: PCErr)
    requires Aligned(RawSrps(m.srps) + RawErrors(m.errors)) && TlvsWellFormed(m)
    ensures Decode(FrameAll(RawSrps(m.srps) + RawErrors(m.errors))) == if m.errors == [] then None else Some(m)
  {
    ListsInterleave(m);
    InterleavedObjectsAreCollected(RawSrps(m.srps) + RawErrors(m.errors), m, PCErr([], []));
    assert PCErr([] + m.errors, [] + m.srps) == m;
  }

  lemma {:induction false} WrittenObjects(m: PCErr)
    requires forall o | o in ObjectsOf(m) :: IsWire(o)
    ensures forall r | r in RawSrps(m.srps) + RawErrors(m.errors) :: RawFits(r)
    ensures SerializeMessage(MESSAGE_ERROR, ObjectsOf(m)).Some?
    ensures forall b | SerializeMessage(MESSAGE_ERROR, ObjectsOf(m)) == Some(b) ::
              |b| >= 4 && b[1] == 6 && b[4..] == FrameAll(RawSrps(m.srps) + RawErrors(m.errors))
  {
    RawsAreLists(m);
    ObjectsAreFrames(ObjectsOf(m));
  }

  // ----- what is read back tells what was written

  /** Behind `prior` come the decoded SRP objects among `raws`. */
  predicate CollectsSrps(raws: seq<RawObject>, prior: seq<Srp>, srps: seq<Srp>) {
    var found := OfClass(raws, SRP);
    && |srps| == |prior| + |found| && prior <= srps
    && (forall i | 0 <= i < |found| :: DecodeSrp(found[i].typ, found[i].body) == Some(srps[|prior| + i]))
  }

  predicate CollectsErrors(raws: seq<RawObject>, prior: seq<PcepError>, errors: seq<PcepError>) {
    var found := OfClass(raws, PCEP_ERROR);
    && |errors| == |prior| + |found| && prior <= errors
    && (forall i | 0 <= i < |found| :: DecodeError(found[i].typ, found[i].body) == Some(errors[|prior| + i]))
  }

  lemma {:induction false} OfClassFirst(raws: seq<RawObject>, class_: byte)
    requires raws != []
    ensures raws[0].class_ != class_ ==> OfClass(raws, class_) == OfClass(raws[1..], class_)
    ensures raws[0].class_ == class_ ==> OfClass(raws, class_) == [raws[0]] + OfClass(raws[1..], class_)
  {
  }

  lemma {:induction false} OneMoreSrp(raws: seq<RawObject>, prior: PCErr, next: PCErr, srps: seq<Srp>)
    requires raws != [] && Add(prior, raws[0]) == Some(next) && CollectsSrps(raws[1..], next.srps, srps)
    ensures CollectsSrps(raws, prior.srps, srps)
  {
    OfClassFirst(raws, SRP);
    if raws[0].class_ == SRP {
      var found, behind := OfClass(raws, SRP), OfClass(raws[1..], SRP);
      forall i | 0 <= i < |found|
        ensures DecodeSrp(found[i].typ, found[i].body) == Some(srps[|prior.srps| + i])
      {
        if i == 0 {
          assert srps[|prior.srps|] == next.srps[|prior.srps|];
        } else {
          assert found[i] == behind[i - 1] && |next.srps| + (i - 1) == |prior.srps| + i;
        }
      }
    }
  }

  lemma {:induction false} OneMoreError(raws: seq<RawObject>, prior: PCErr, next: PCErr, errors: seq<PcepError>)
    requires raws != [] && Add(prior, raws[0]) == Some(next) && CollectsErrors(raws[1..], next.errors, errors)
    ensures CollectsErrors(raws, prior.errors, errors)
  {
    OfClassFirst(raws, PCEP_ERROR);
    if raws[0].class_ == PCEP_ERROR {
      var found, behind := OfClass(raws, PCEP_ERROR), OfClass(raws[1..], PCEP_ERROR);
      forall i | 0 <= i < |found|
        ensures DecodeError(found[i].typ, found[i].body) == Some(errors[|prior.errors| + i])
      {
        if i == 0 {
          assert errors[|prior.errors|] == next.errors[|prior.errors|];
        } else {
          assert found[i] == behind[i - 1] && |next.errors| + (i - 1) == |prior.errors| + i;
        }
      }
    }
  }

  lemma {:induction false} CollectFits(raws: seq<RawObject>, prior: PCErr)
    requires raws != [] && forall r | r in raws :: RawFits(r)
    ensures Collect(FrameAll(raws), prior).Some? ==>
              Add(prior, raws[0]).Some? && Collect(FrameAll(raws), prior) == Collect(FrameAll(raws[1..]), Add(prior, raws[0]).value)
  {
    TakeFrame(raws[0], FrameAll(raws[1..]));
    assert FrameAll(raws) == Objects.Frame(raws[0]) + FrameAll(raws[1..]);
  }

  /** What was collected is what the objects decode to, in their order. */
  lemma {:induction false} CollectedEach(raws: seq<RawObject>, prior: PCErr)
    requires forall r | r in raws :: RawFits(r)
    ensures forall m | Collect(FrameAll(raws), prior) == Some(m) ::
              CollectsSrps(raws, prior.srps, m.srps) && CollectsErrors(raws, prior.errors, m.errors)
    decreases |raws|
  {
    if raws != [] && Collect(FrameAll(raws), prior).Some? {
      CollectFits(raws, prior);
      var next, m := Add(prior, raws[0]).value, Collect(FrameAll(raws), prior).value;
      CollectedEach(raws[1..], next);
      OneMoreSrp(raws, prior, next, m.srps);
      OneMoreError(raws, prior, next, m.errors);
    }
  }

  /** Only well-formed TLVs come back. */
  lemma {:induction false} SrpsAreWellFormed(raws: seq<RawObject>, srps: seq<Srp>)
    requires OfClass(raws, SRP) == RawSrps(srps) && CollectsSrps(raws, [], srps)
    ensures forall s | s in srps :: AllWellFormed(s.tlvs)
  {
    RawSrpAt(srps);
    forall s | s in srps
      ensures AllWellFormed(s.tlvs)
    {
      var i :| 0 <= i < |srps| && srps[i] == s;
      assert RawSrps(srps)[i] == RawSrp(s);
      ObjectRoundTrip.SrpRoundTrip(s);
    }
  }

  lemma {:induction false} ErrorsAreWellFormed(raws: seq<RawObject>, errors: seq<PcepError>)
    requires OfClass(raws, PCEP_ERROR) == RawErrors(errors) && CollectsErrors(raws, [], errors)
    ensures forall e | e in errors :: AllWellFormed(e.tlvs)
  {
    RawErrorAt(errors);
    forall e | e in errors
      ensures AllWellFormed(e.tlvs)
    {
      var i :| 0 <= i < |errors| && errors[i] == e;
      assert RawErrors(errors)[i] == RawError(e);
      ObjectRoundTrip.ErrorRoundTrip(e);
    }
  }

  lemma {:induction false} DecodesExactlyWhen(m: PCErr)
    requires forall r | r in RawSrps(m.srps) + RawErrors(m.errors) :: RawFits(r)
    ensures Decode(FrameAll(RawSrps(m.srps) + RawErrors(m.errors))) == Some(m) <==> m.errors != [] && TlvsWellFormed(m)
  {
    var raws := RawSrps(m.srps) + RawErrors(m.errors);
    if TlvsWellFormed(m) {
      ListsAreAligned(m);
      ListsDecode(m);
    } else if Decode(FrameAll(raws)) == Some(m) {
      CollectedEach(raws, PCErr([], []));
      ListsOfBoth(m);
      SrpsAreWellFormed(raws, m.srps);
      ErrorsAreWellFormed(raws, m.errors);
    }
  }

  /** The main result: a PCErr whose objects fit their length fields is read back exactly when it
      reports an error and its TLVs are well-formed. */
  lemma {:induction false} RoundTripsExactlyWithAnError(m: PCErr)
    requires forall o | o in ObjectsOf(m) :: IsWire(o)
    ensures SerializeMessage(MESSAGE_ERROR, ObjectsOf(m)).Some?
    ensures forall b | SerializeMessage(MESSAGE_ERROR, ObjectsOf(m)) == Some(b) ::
              |b| >= 4 && b[1] == 6 && (Decode(b[4..]) == Some(m) <==> m.errors != [] && TlvsWellFormed(m))
  {
    WrittenObjects(m);
    DecodesExactlyWhen(m);
  }
}
