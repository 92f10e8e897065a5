/** The ERO object, filled and read by loops (pkg/packet/pcep/object.go). */
module EroObjects {
  import opened Bytes
  import opened Segments
  import opened Wrappers
  import opened Ero
  import Objects
  import Messages

  class EroObject {
    var objectType: byte
    var eroSubobjects: seq<Subobject>

    ghost predicate Valid()
      reads this
    {
      forall o | o in eroSubobjects :: Typed(o)
    }

    constructor ()
      ensures Valid() && eroSubobjects == [] && objectType == 1
    {
      objectType, eroSubobjects := 1, [];
    }

    /** `DecodeFromBytes`: the slice shrinks by the length of the subobject just decoded. */
    method DecodeFromBytes(typ: byte, body: bytes) returns (ok: bool)
      requires Valid()
      modifies this
      ensures Valid() && objectType == typ
      ensures ok <==> DecodeBody(body).Some?
      ensures ok ==> eroSubobjects == old(eroSubobjects) + DecodeBody(body).value
      ensures old(eroSubobjects) <= eroSubobjects
    {
      objectType := typ;
      var objectBody := body;
      ghost var decoded: seq<Subobject> := [];
      PrependNothing(DecodeBody(body));
      while |objectBody| > 0
        invariant Valid() && objectType == typ && eroSubobjects == old(eroSubobjects) + decoded
        invariant DecodeBody(body) == Prepend(decoded, DecodeBody(objectBody))
        decreases |objectBody|
      {
        var o := DecodeSubobject(objectBody);
        if o.None? {
          return false;
        }
        eroSubobjects := eroSubobjects + [o.value];
        var length := Len(o.value);
        if length.None? || length.value > |objectBody| {
          return false;
        }
        PrependMore(decoded, [o.value], DecodeBody(objectBody[length.value..]));
        decoded := decoded + [o.value];
        objectBody := objectBody[length.value..];
      }
      return true;
    }

    /** `AddEroSubobjects`: one subobject per segment, until one cannot be built. */
    method AddEroSubobjects(segmentList: seq<Segment>) returns (ok: bool)
      requires Valid()
      modifies this
      ensures Valid() && objectType == old(objectType)
      ensures ok <==> NewEroSubobjects(segmentList).Some?
      ensures ok ==> eroSubobjects == old(eroSubobjects) + NewEroSubobjects(segmentList).value
      ensures old(eroSubobjects) <= eroSubobjects
    {
      var rest := segmentList;
      ghost var added: seq<Subobject> := [];
      PrependNothing(NewEroSubobjects(segmentList));
      while rest != []
        invariant Valid() && objectType == old(objectType) && eroSubobjects == old(eroSubobjects) + added
        invariant NewEroSubobjects(segmentList) == Prepend(added, NewEroSubobjects(rest))
        decreases |rest|
      {
        var o := NewEroSubobject(rest[0]);
        if o.None? {
          return false;
        }
        PrependMore(added, [o.value], NewEroSubobjects(rest[1..]));
        eroSubobjects := eroSubobjects + [o.value];
        added := added + [o.value];
        rest := rest[1..];
      }
      return true;
    }

    /** `Serialize`: the header with the summed lengths, then the subobjects. */
    method Serialize() returns (r: Option<bytes>)
      requires Valid()
      ensures r == Messages.SerializeObject(Messages.RouteObject(Objects.Route(objectType, eroSubobjects)))
    {
      var length := Messages.LenOf(Messages.RouteObject(Objects.Route(objectType, eroSubobjects)));
      if length.None? {
        return None;
      }
      var header := Objects.HeaderBytes(Objects.ERO, objectType, 0, false, false, length.value);
      var body := SerializeHops();
      return if body.None? then None else Some(header + body.value);
    }

    method SerializeHops() returns (r: Option<bytes>)
      requires Valid()
      ensures r == SerializeBody(eroSubobjects)
    {
      var body: bytes := [];
      var rest := eroSubobjects;
      PrependNothing(SerializeBody(eroSubobjects));
      while rest != []
        invariant forall o | o in rest :: Typed(o)
        invariant SerializeBody(eroSubobjects) == Prepend(body, SerializeBody(rest))
        decreases |rest|
      {
        var one := Ero.Serialize(rest[0]);
        if one.None? {
          return None;
        }
        PrependMore(body, one.value, SerializeBody(rest[1..]));
        body := body + one.value;
        rest := rest[1..];
      }
      assert body + [] == body;
      return Some(body);
    }

    /** `ToSegmentList`, without the hops that are no segments. */
    method ToSegmentList() returns (sl: seq<Segment>)
      ensures sl == Ero.ToSegmentList(eroSubobjects)
    {
      sl := [];
      var rest := eroSubobjects;
      while rest != []
        invariant Ero.ToSegmentList(eroSubobjects) == sl + Ero.ToSegmentList(rest)
        decreases |rest|
      {
        var seg := ToSegment(rest[0]);
        if seg.Some? {
          sl := sl + [seg.value];
        }
        rest := rest[1..];
      }
    }
  }
}
