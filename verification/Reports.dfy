/** PCRpt messages: state reports follow each other without delimiters, and the decoder has to find
    where one ends (section 6.1 of RFC 8231; pkg/packet/pcep/message.go). */
module Reports {
  import opened Bytes
  import opened Wrappers
  import opened Objects
  import opened TlvRoundTrip
  import Ero
  import EroRoundTrip
  import ObjectRoundTrip

  datatype Report = Report(srp: Srp, lsp: Lsp, ero: Route, lspa: Lspa, metrics: seq<Metric>, bandwidths: seq<Bandwidth>,
                           association: Association, vendor: VendorInfo)

  /** `NewStateReport`. */
  const EMPTY := Report(NO_SRP, NO_LSP, Route(0, []), NO_LSPA, [], [], NO_ASSOCIATION, NO_VENDOR)

  const ATTRIBUTES: set<byte> := {BANDWIDTH, METRIC, ERO, LSPA, ASSOCIATION, VENDOR}

  /** The keys of `decodeFuncs`. */
  const REGISTERED: set<byte> := ATTRIBUTES + {LSP, SRP}

  /** The decode function of the object's class, on a report. */
  function Apply(r: Report, o: RawObject): Outcome<Report>
    requires o.class_ in REGISTERED
  {
    if o.class_ == BANDWIDTH then
      var b :- DecodeBandwidth(o.typ, o.body);
      Done(r.(bandwidths := r.bandwidths + [b]))
    else if o.class_ == METRIC then
      var m :- DecodeMetric(o.typ, o.body);
      Done(r.(metrics := r.metrics + [m]))
    else if o.class_ == ERO then
      (match DecodeRoute(r.ero, o.typ, o.body) case None => Rejected case Some(x) => Done(r.(ero := x)))
    else if o.class_ == LSPA then
      var l :- DecodeLspa(o.typ, o.body);
      Done(r.(lspa := l))
    else if o.class_ == LSP then
      var l :- DecodeLsp(r.lsp, o.typ, o.body);
      Done(r.(lsp := l))
    else if o.class_ == SRP then
      (match DecodeSrp(o.typ, o.body) case None => Rejected case Some(x) => Done(r.(srp := x)))
    else if o.class_ == ASSOCIATION then
      var a :- DecodeAssociation(r.association, o.typ, o.body);
      Done(r.(association := a))
    else
      match DecodeVendor(r.vendor, o.typ, o.body) case None => Rejected case Some(x) => Done(r.(vendor := x))
  }

  /** An SRP starts a report, and so does an LSP that does not follow one. */
  predicate Starts(previous: byte, class_: byte) {
    (previous != SRP && class_ == LSP) || class_ == SRP
  }

  function Closed(sr: Option<Report>): seq<Report> {
    if sr.Some? then [sr.value] else []
  }

  /** Where the decoder is: the class before, the open report, and the finished ones. */
  datatype Progress = Progress(previous: byte, sr: Option<Report>, finished: seq<Report>)

  const START := Progress(0, None, [])

  /** One object. Without an open report an attribute is decoded into a nil pointer. */
  function Take(p: Progress, o: RawObject): Outcome<Progress> {
    if o.class_ !in REGISTERED then Done(p)
    else if Starts(p.previous, o.class_) then
      var r :- Apply(EMPTY, o);
      Done(Progress(o.class_, Some(r), p.finished + Closed(p.sr)))
    else if p.sr.None? then Crashed
    else
      var r :- Apply(p.sr.value, o);
      Done(Progress(o.class_, Some(r), p.finished))
  }

  function Decode(os: seq<RawObject>, p: Progress): Outcome<seq<Report>>
    decreases |os|
  {
    if os == [] then Done(p.finished + Closed(p.sr))
    else
      var p' :- Take(p, os[0]);
      Decode(os[1..], p')
  }

  /** The header, the body its length delimits, and the slice behind. */
  method NextObject(messageBody: bytes) returns (o: RawObject, behind: bytes)
    requires messageBody != [] && Objects.Objects(messageBody).Some?
    ensures |behind| < |messageBody| && Objects.Objects(behind).Some?
    ensures var os := Objects.Objects(messageBody).value;
            os != [] && os[0] == o && os[1..] == Objects.Objects(behind).value
  {
    var objectLength: nat := ReadU16(messageBody, 2);
    o := RawFrom(messageBody, messageBody[4..objectLength]);
    behind := messageBody[objectLength..];
    assert TakeObject(messageBody) == Some((o, behind));
  }

  class PCRptMessage {
    var stateReports: seq<Report>

    constructor ()
      ensures stateReports == []
    {
      stateReports := [];
    }

    /** `DecodeFromBytes`, for a body whose objects are framed: on a slice that shrinks from the front. */
    method DecodeFromBytes(input: bytes) returns (outcome: Outcome<()>)
      requires Objects.Objects(input).Some?
      modifies this
      ensures match Decode(Objects.Objects(input).value, START.(finished := old(stateReports)))
              case Done(reports) => outcome == Done(()) && stateReports == reports
              case Rejected => outcome == Rejected
              case Crashed => outcome == Crashed
    {
      var messageBody := input;
      var previous: byte := 0;
      var sr: Option<Report> := None;
      while |messageBody| > 0
        invariant Objects.Objects(messageBody).Some?
        invariant Decode(Objects.Objects(input).value, START.(finished := old(stateReports)))
                  == Decode(Objects.Objects(messageBody).value, Progress(previous, sr, stateReports))
        decreases |messageBody|
      {
        var o, behind := NextObject(messageBody);
        messageBody := behind;
        if o.class_ in REGISTERED {
          var decoded := DecodeObject(o, previous, sr);
          if !decoded.Done? {
            return if decoded.Rejected? then Rejected else Crashed;
          }
          sr := Some(decoded.value);
          previous := o.class_;
        }
      }
      if sr.Some? {
        stateReports := stateReports + [sr.value];
      }
      return Done(());
    }

    /** An object with a decode function: close the open report if it starts one, then decode it. */
    method DecodeObject(o: RawObject, previous: byte, sr: Option<Report>) returns (decoded: Outcome<Report>)
      requires o.class_ in REGISTERED
      modifies this
      ensures match Take(Progress(previous, sr, old(stateReports)), o)
              case Done(p) => decoded == Done(p.sr.value) && p == Progress(o.class_, p.sr, stateReports) && p.sr.Some?
              case Rejected => decoded == Rejected
              case Crashed => decoded == Crashed
    {
      var open := sr;
      if Starts(previous, o.class_) {
        if sr.Some? {
          stateReports := stateReports + [sr.value];
        }
        open := Some(EMPTY);
      }
      if open.None? {
        return Crashed;
      }
      decoded := Apply(open.value, o);
    }
  }

  // ----- the grammar of RFC 8231

  /** One state report as it is written: `[SRP] LSP attributes*`. */
  datatype Written = Written(srp: Option<RawObject>, lsp: RawObject, attributes: seq<RawObject>)

  predicate IsReport(w: Written) {
    && (w.srp.Some? ==> w.srp.value.class_ == SRP)
    && w.lsp.class_ == LSP
    && forall o | o in w.attributes :: o.class_ in ATTRIBUTES
  }

  predicate AllReports(ws: seq<Written>) {
    forall w | w in ws :: IsReport(w)
  }

  function FlattenOne(w: Written): seq<RawObject> {
    (if w.srp.Some? then [w.srp.value] else []) + [w.lsp] + w.attributes
  }

  function Flatten(ws: seq<Written>): seq<RawObject> {
    if ws == [] then [] else FlattenOne(ws[0]) + Flatten(ws[1..])
  }

  /** What a report says: its own objects on an empty report, and nothing else. */
  function Meaning(w: Written): Outcome<Report>
    requires IsReport(w)
  {
    var r :- if w.srp.Some? then Apply(EMPTY, w.srp.value) else Done(EMPTY);
    var r' :- Apply(r, w.lsp);
    ApplyAll(r', w.attributes)
  }

  function ApplyAll(r: Report, os: seq<RawObject>): Outcome<Report>
    requires forall o | o in os :: o.class_ in REGISTERED
    decreases |os|
  {
    if os == [] then Done(r)
    else
      var r' :- Apply(r, os[0]);
      ApplyAll(r', os[1..])
  }

  /** The reports' meanings in order, or the first failure. */
  function Meanings(ws: seq<Written>): Outcome<seq<Report>>
    requires AllReports(ws)
  {
    if ws == [] then Done([])
    else
      var r :- Meaning(ws[0]);
      var rs :- Meanings(ws[1..]);
      Done([r] + rs)
  }

  /** Without the objects whose class has no decode function. */
  function Registered(os: seq<RawObject>): seq<RawObject> {
    if os == [] then [] else (if os[0].class_ in REGISTERED then [os[0]] else []) + Registered(os[1..])
  }

  // ----- grouping inverts flattening

  lemma {:induction false} UnregisteredAreSkipped(os: seq<RawObject>, p: Progress)
    ensures Decode(os, p) == Decode(Registered(os), p)
    decreases |os|
  {
    if os != [] {
      if os[0].class_ in REGISTERED {
        assert Registered(os)[0] == os[0] && Registered(os)[1..] == Registered(os[1..]);
      } else {
        assert Registered(os) == Registered(os[1..]);
      }
      if Take(p, os[0]).Done? {
        UnregisteredAreSkipped(os[1..], Take(p, os[0]).value);
      }
    }
  }

  /** Of the class before, only whether it was SRP matters. */
  lemma {:induction false} OnlySrpMatters(os: seq<RawObject>, p: Progress, previous: byte)
    requires p.previous != SRP && previous != SRP
    ensures Decode(os, p) == Decode(os, p.(previous := previous))
    decreases |os|
  {
    if os != [] && os[0].class_ !in REGISTERED {
      OnlySrpMatters(os[1..], p, previous);
    }
  }

  /** Attributes go to the open report. */
  lemma {:induction false} AttributesJoin(attributes: seq<RawObject>, rest: seq<RawObject>, r: Report, finished: seq<Report>)
    requires forall o | o in attributes :: o.class_ in ATTRIBUTES
    ensures Decode(attributes + rest, Progress(LSP, Some(r), finished)) ==
            match ApplyAll(r, attributes)
            case Done(r') => Decode(rest, Progress(LSP, Some(r'), finished))
            case Rejected => Rejected
            case Crashed => Crashed
    decreases |attributes|
  {
    if attributes == [] {
      assert attributes + rest == rest;
    } else {
      var o := attributes[0];
      var os := attributes + rest;
      assert os[0] == o && os[1..] == attributes[1..] + rest;
      if Apply(r, o).Done? {
        var r' := Apply(r, o).value;
        OnlySrpMatters(os[1..], Progress(o.class_, Some(r'), finished), LSP);
        AttributesJoin(attributes[1..], rest, r', finished);
      }
    }
  }

  /** One written report is one report, and the next begins where it ends. */
  lemma {:induction false} ReportIsGrouped(w: Written, rest: seq<RawObject>, sr: Option<Report>, finished: seq<Report>)
    requires IsReport(w)
    ensures Decode(FlattenOne(w) + rest, Progress(LSP, sr, finished)) ==
            match Meaning(w)
            case Done(r) => Decode(rest, Progress(LSP, Some(r), finished + Closed(sr)))
            case Rejected => Rejected
            case Crashed => Crashed
  {
    var os := FlattenOne(w) + rest;
    var tail := w.attributes + rest;
    var r := EMPTY;
    if w.srp.Some? {
      assert os[0] == w.srp.value && os[1..] == [w.lsp] + tail;
      assert os[1..][0] == w.lsp && os[1..][1..] == tail;
      if Apply(EMPTY, w.srp.value).Done? {
        r := Apply(EMPTY, w.srp.value).value;
        assert Decode(os, Progress(LSP, sr, finished)) == Decode(os[1..], Progress(SRP, Some(r), finished + Closed(sr)));
      }
    } else {
      assert os[0] == w.lsp && os[1..] == tail;
    }
    if Apply(r, w.lsp).Done? {
      AttributesJoin(w.attributes, rest, Apply(r, w.lsp).value, finished + Closed(sr));
    }
  }

  lemma {:induction false} ReportsAreGrouped(ws: seq<Written>, sr: Option<Report>, finished: seq<Report>)
    requires AllReports(ws)
    ensures Decode(Flatten(ws), Progress(LSP, sr, finished)) ==
            match Meanings(ws)
            case Done(rs) => Done(finished + Closed(sr) + rs)
            case Rejected => Rejected
            case Crashed => Crashed
  {
    if ws == [] {
      assert finished + Closed(sr) + [] == finished + Closed(sr);
    } else {
      ReportIsGrouped(ws[0], Flatten(ws[1..]), sr, finished);
      if Meaning(ws[0]).Done? {
        var r := Meaning(ws[0]).value;
        ReportsAreGrouped(ws[1..], Some(r), finished + Closed(sr));
        if Meanings(ws[1..]).Done? {
          var rs := Meanings(ws[1..]).value;
          assert finished + Closed(sr) + [r] + rs == finished + Closed(sr) + ([r] + rs);
        }
      }
    }
  }

  /** The main result: a body of objects among which, in any places, unregistered ones stand, and
      which is a list of reports otherwise, is decoded to these reports, in order, each with its
      own attributes. */
  lemma {:induction false} GroupingInvertsFlattening(os: seq<RawObject>, ws: seq<Written>)
    requires AllReports(ws) && Registered(os) == Flatten(ws)
    ensures Decode(os, START) == Meanings(ws)
  {
    UnregisteredAreSkipped(os, START);
    OnlySrpMatters(Flatten(ws), START, LSP);
    ReportsAreGrouped(ws, None, []);
    if Meanings(ws).Done? {
      assert [] + Closed(None) + Meanings(ws).value == Meanings(ws).value;
    }
  }

  /** The same from the bytes on. */
  lemma {:induction false} FramedReportsArrive(os: seq<RawObject>, ws: seq<Written>)
    requires AllReports(ws) && Registered(os) == Flatten(ws) && forall o | o in os :: RawFits(o)
    ensures Objects.Objects(FrameAll(os)) == Some(os) && Decode(os, START) == Meanings(ws)
  {
    WalkFindsObjects(os);
    GroupingInvertsFlattening(os, ws);
  }

  // ----- the grammar needs no delimiters

  predicate NextReport(os: seq<RawObject>) {
    os != [] ==> os[0].class_ in {LSP, SRP}
  }

  lemma FlattenedIsNext(ws: seq<Written>)
    requires AllReports(ws)
    ensures NextReport(Flatten(ws))
  {
    if ws != [] {
      assert ws[0] in ws;
      assert FlattenOne(ws[0])[0].class_ in {LSP, SRP};
      assert Flatten(ws)[0] == FlattenOne(ws[0])[0];
    }
  }

  lemma {:induction false} NoAttributeInFront(b: seq<RawObject>, y: seq<RawObject>)
    requires (forall o | o in b :: o.class_ in ATTRIBUTES) && NextReport(b + y)
    ensures b == [] && b + y == y
  {
  }

  lemma {:induction false} AttributesEndTogether(a: seq<RawObject>, b: seq<RawObject>, x: seq<RawObject>, y: seq<RawObject>)
    requires forall o | o in a :: o.class_ in ATTRIBUTES
    requires forall o | o in b :: o.class_ in ATTRIBUTES
    requires NextReport(x) && NextReport(y) && a + x == b + y
    ensures a == b && x == y
    decreases |a|
  {
    if a == [] {
      assert a + x == x;
      NoAttributeInFront(b, y);
    } else if b == [] {
      assert b + y == y;
      NoAttributeInFront(a, x);
    } else {
      assert (a + x)[0] == a[0] && (a + x)[1..] == a[1..] + x;
      assert (b + y)[0] == b[0] && (b + y)[1..] == b[1..] + y;
      AttributesEndTogether(a[1..], b[1..], x, y);
    }
  }

  lemma {:induction false} FirstReportsAgree(v: Written, w: Written, x: seq<RawObject>, y: seq<RawObject>)
    requires IsReport(v) && IsReport(w) && NextReport(x) && NextReport(y)
    requires FlattenOne(v) + x == FlattenOne(w) + y
    ensures v == w && x == y
  {
    var os, us := FlattenOne(v) + x, FlattenOne(w) + y;
    assert os[0] == FlattenOne(v)[0] && us[0] == FlattenOne(w)[0];
    assert v.srp == w.srp;
    var n := if v.srp.Some? then 2 else 1;
    assert os[n - 1] == v.lsp && us[n - 1] == w.lsp;
    assert os[n..] == v.attributes + x && us[n..] == w.attributes + y;
    AttributesEndTogether(v.attributes, w.attributes, x, y);
  }

  /** Two lists of reports that are written alike are the same list. */
  lemma {:induction false} FlatteningIsInjective(vs: seq<Written>, ws: seq<Written>)
    requires AllReports(vs) && AllReports(ws) && Flatten(vs) == Flatten(ws)
    ensures vs == ws
  {
    if vs != [] && ws != [] {
      FlattenedIsNext(vs[1..]);
      FlattenedIsNext(ws[1..]);
      FirstReportsAgree(vs[0], ws[0], Flatten(vs[1..]), Flatten(ws[1..]));
      FlatteningIsInjective(vs[1..], ws[1..]);
    }
  }

  // ----- with the objects' own formats

  function RawLsp(l: Lsp): RawObject { RawObject(LSP, l.typ, 0, false, false, LspBody(l)) }

  function RawAssociation(a: Association): RawObject { RawObject(ASSOCIATION, a.typ, 0, false, false, AssociationBody(a)) }

  function RawVendor(v: VendorInfo): RawObject { RawObject(VENDOR, v.typ, 0, false, false, VendorBody(v)) }

  lemma {:induction false} HeadIsRead(s: Srp, l: Lsp)
    requires AllWellFormed(s.tlvs) && AllWellFormed(l.tlvs)
    requires l.plspID < 0x10_0000 && l.oFlag < 8 && ObjectRoundTrip.FieldsFromTlvs(l)
    ensures Apply(EMPTY, RawSrp(s)) == Done(EMPTY.(srp := s))
    ensures Apply(EMPTY.(srp := s), RawLsp(l)) == Done(EMPTY.(srp := s, lsp := l))
  {
    ObjectRoundTrip.SrpRoundTrip(s);
    ObjectRoundTrip.LspRoundTrip(l);
  }

  lemma {:induction false} RouteIsRead(r: Report, hops: seq<Ero.Subobject>, body: bytes)
    requires (forall h | h in hops :: EroRoundTrip.OnTheWire(h) && Ero.Typed(h)) && Ero.SerializeBody(hops) == Some(body)
    requires r.ero.hops == []
    ensures Apply(r, RawObject(ERO, 1, 0, false, false, body)) == Done(r.(ero := Route(1, EroRoundTrip.WireForms(hops))))
  {
    EroRoundTrip.BodyRoundTrip(hops);
    assert [] + EroRoundTrip.WireForms(hops) == EroRoundTrip.WireForms(hops);
  }

  lemma {:induction false} AttributesAreRead(r: Report, a: Association, v: VendorInfo)
    requires r.association == NO_ASSOCIATION && r.vendor == NO_VENDOR && AllWellFormed(a.tlvs) && AllOpaque(v.tlvs)
    requires if a.typ == 1 then a.assocSrc.V4? else a.typ == 2 && a.assocSrc.V6?
    ensures Apply(r, RawAssociation(a)) == Done(r.(association := a))
    ensures Apply(r.(association := a), RawVendor(v)) == Done(r.(association := a, vendor := v))
  {
    ObjectRoundTrip.AssociationRoundTrip(a);
    ObjectRoundTrip.VendorRoundTrip(v);
  }

  lemma {:induction false} ThreeAttributes(r0: Report, x: RawObject, r1: Report, y: RawObject, r2: Report, z: RawObject, r3: Report)
    requires x.class_ in REGISTERED && y.class_ in REGISTERED && z.class_ in REGISTERED
    requires Apply(r0, x) == Done(r1) && Apply(r1, y) == Done(r2) && Apply(r2, z) == Done(r3)
    ensures ApplyAll(r0, [x, y, z]) == Done(r3)
  {
    assert [x, y, z][1..] == [y, z] && [y, z][1..] == [z] && [z][1..] == [];
    assert ApplyAll(r3, []) == Done(r3);
    assert ApplyAll(r2, [z]) == Done(r3);
    assert ApplyAll(r1, [y, z]) == Done(r3);
  }

  /** A report of an SRP, an LSP, a route, an association and vendor information is read as these. */
  lemma {:induction false} ReportIsRead(s: Srp, l: Lsp, hops: seq<Ero.Subobject>, body: bytes, a: Association, v: VendorInfo)
    requires AllWellFormed(s.tlvs) && AllWellFormed(l.tlvs) && AllWellFormed(a.tlvs) && AllOpaque(v.tlvs)
    requires l.plspID < 0x10_0000 && l.oFlag < 8 && ObjectRoundTrip.FieldsFromTlvs(l)
    requires if a.typ == 1 then a.assocSrc.V4? else a.typ == 2 && a.assocSrc.V6?
    requires (forall h | h in hops :: EroRoundTrip.OnTheWire(h) && Ero.Typed(h)) && Ero.SerializeBody(hops) == Some(body)
    ensures var w := Written(Some(RawSrp(s)), RawLsp(l),
                             [RawObject(ERO, 1, 0, false, false, body), RawAssociation(a), RawVendor(v)]);
            && IsReport(w)
            && Meaning(w) == Done(EMPTY.(srp := s, lsp := l, ero := Route(1, EroRoundTrip.WireForms(hops)), association := a, vendor := v))
  {
    var r0 := EMPTY.(srp := s, lsp := l);
    var r1 := r0.(ero := Route(1, EroRoundTrip.WireForms(hops)));
    HeadIsRead(s, l);
    RouteIsRead(r0, hops, body);
    AttributesAreRead(r1, a, v);
    var route := RawObject(ERO, 1, 0, false, false, body);
    ThreeAttributes(r0, route, r1, RawAssociation(a), r1.(association := a), RawVendor(v), r1.(association := a, vendor := v));
  }
}
