/**
 Messages with several QSIG facilities behind each other: what the receiver hands over of
 printed facilities of its own dialect, and what it loses behind one of the other dialect.
 */
module QsigMessage {
  import opened Bytes
  import opened Common
  import opened QsigCore

  /** A facility to print: its invokes, its dialect and its APDU interpretation */
  datatype Part = Part(invokes: seq<Invoke>, v: Variant, apdu: byte)

  ghost predicate PartsFit(parts: seq<Part>) {
    forall p <- parts :: InvokesFit(p.invokes, p.v) && p.apdu <= 2
  }

  /** A facility without the length byte of the message in front of it */
  ghost function PartBytes(p: Part): (s: seq<byte>)
    requires InvokesFit(p.invokes, p.v)
    ensures |s| == 14 + |EncodeInvokes(p.invokes, p.v)|
  {
    Facility(p.invokes, p.v, p.apdu)[1..]
  }

  ghost function Joined(parts: seq<Part>): seq<byte>
    requires PartsFit(parts)
  {
    if parts == [] then [] else
    assert parts[0] in parts;
    PartBytes(parts[0]) + Joined(parts[1..])
  }

  /** Behind the byte that counts them */
  function Counted(s: seq<byte>): seq<byte> {
    [Low(|s|)] + s
  }

  /** The message: the number of bytes behind the first one, then the facilities */
  ghost function Message(parts: seq<Part>): seq<byte>
    requires PartsFit(parts)
  {
    Counted(Joined(parts))
  }

  /** What a receiver of one dialect should get: the invokes of the facilities of that dialect, in order */
  ghost function ReceivedParts(parts: seq<Part>, v: Variant): seq<Parsed>
    requires PartsFit(parts)
  {
    if parts == [] then [] else
    assert parts[0] in parts;
    (if parts[0].v == v then ReceivedInvokes(parts[0].invokes, v, parts[0].apdu) else []) + ReceivedParts(parts[1..], v)
  }

  // ---------------------------------------------------------------- one facility

  /** How a printed facility starts */
  lemma PartStart(d: seq<byte>, at: nat, p: Part)
    requires InvokesFit(p.invokes, p.v) && At(d, at, PartBytes(p)) && |PartBytes(p)| <= 257
    ensures at + 14 <= |d| && d[at] == FACILITY && d[at + 1] as int == |PartBytes(p)| - 2
    ensures d[at + 2] == ProtocolByte(p.v) && d[at + 3] == 0xaa && d[at + 4] == 6
    ensures d[at + 11] == 0x8b && d[at + 12] == 1 && d[at + 13] == p.apdu
    ensures At(d, at + 14, EncodeInvokes(p.invokes, p.v))
  {
    hide EncodeInvokes, InvokesFit, ProtocolByte;
    var es := EncodeInvokes(p.invokes, p.v);
    var front: seq<byte> := [FACILITY, Low(HEADER_SIZE + |es| - 3), ProtocolByte(p.v)] + NETWORK_EXTENSION + [0x8b, 0x01, p.apdu];
    assert PartBytes(p) == front + es;
    AtConcat(d, at, front, es);
    AtIs(d, at, front);
    StartOf(d, at, front);
  }

  lemma StartOf(d: seq<byte>, at: nat, front: seq<byte>)
    requires |front| == 14 && At(d, at, front)
    ensures d[at] == front[0] && d[at + 1] == front[1] && d[at + 2] == front[2] && d[at + 3] == front[3]
    ensures d[at + 4] == front[4] && d[at + 11] == front[11] && d[at + 12] == front[12] && d[at + 13] == front[13]
  {
    var w := d[at..at + 14];
    assert w[0] == d[at] && w[1] == d[at + 1] && w[2] == d[at + 2] && w[3] == d[at + 3] && w[4] == d[at + 4];
    assert w[11] == d[at + 11] && w[12] == d[at + 12] && w[13] == d[at + 13];
  }

  /** Both parsers look at its dialect and at what stands in front of the invokes. */
  lemma CheckedByDialect(d: seq<byte>, at: nat, p: Part, v: Variant)
    requires InvokesFit(p.invokes, p.v) && p.apdu <= 2 && At(d, at, PartBytes(p)) && |PartBytes(p)| <= 257
    ensures CheckFacility(d, at + 2, v) == Some(Checked(v == p.v, if v == p.v then at + 14 else at + 2, if v == p.v then p.apdu as int else -1))
  {
    PartStart(d, at, p);
    hide PartBytes, At, InvokesFit, EncodeInvokes;
  }

  /** Wherever it stands, a facility of the receiver's dialect is handed over and left at its end. */
  lemma OwnFacility(d: seq<byte>, at: nat, p: Part)
    requires InvokesFit(p.invokes, p.v) && p.apdu <= 2 && At(d, at, PartBytes(p)) && |PartBytes(p)| <= 257
    ensures var end := at + |PartBytes(p)|;
      OneFacility(d, at + 2, end, p.v) == Some((ReceivedInvokes(p.invokes, p.v, p.apdu), end))
  {
    hide EncodeInvokes, ReceivedInvokes, Advances, Components, At, PartBytes, CheckFacility, InvokesFit;
    PartStart(d, at, p);
    CheckedByDialect(d, at, p, p.v);
    ComponentsOfInvokes(d, at + 14, p.invokes, p.v, p.apdu, UNSET);
  }

  /**
   A facility of the other dialect is not only skipped: the end of the facility is added to the
   index instead of being taken for it, so as many bytes behind it are skipped as stand in front.
   */
  lemma ForeignFacility(d: seq<byte>, at: nat, p: Part, v: Variant)
    requires InvokesFit(p.invokes, p.v) && p.apdu <= 2 && p.v != v && At(d, at, PartBytes(p)) && |PartBytes(p)| <= 257
    ensures var end := at + |PartBytes(p)|; var next: nat := end + at + 2;
      OneFacility(d, at + 2, end, v) == Some(([], next))
  {
    hide EncodeInvokes, Advances, Components, At, PartBytes, CheckFacility, InvokesFit;
    CheckedByDialect(d, at, p, v);
  }

  // ---------------------------------------------------------------- one behind the other

  /** The outer loop at an index behind a facility */
  ghost function GoesOn(d: seq<byte>, last: nat, end: nat, v: Variant): Option<seq<Parsed>> {
    var total := |d| - 1;
    if last >= total then Some([])
    else if d[last] == FACILITY then
      Facilities(d, last + 2, last + 2 + d[last + 1] as int, total, v)
    else Facilities(d, last + 1, end, total, v)
  }

  lemma FacilitiesStep(d: seq<byte>, idx: nat, end: nat, v: Variant, handled: seq<Parsed>, last: nat)
    requires |d| > 0 && idx < |d| - 1 && OneFacility(d, idx, end, v) == Some((handled, last))
    ensures Facilities(d, idx, end, |d| - 1, v)
         == match GoesOn(d, last, end, v)
            case None => None
            case Some(rest) => Some(handled + rest)
  {
    hide OneFacility;
    assert handled + [] == handled;
  }

  /** One facility of the receiver's dialect, with more behind it */
  lemma OwnGoesOn(d: seq<byte>, at: nat, e: nat, p: Part, more: seq<Parsed>)
    requires InvokesFit(p.invokes, p.v) && p.apdu <= 2 && At(d, at, PartBytes(p)) && |PartBytes(p)| <= 257
    requires var end := at + |PartBytes(p)|; GoesOn(d, end, end, p.v) == Some(more)
    ensures GoesOn(d, at, e, p.v) == Some(ReceivedInvokes(p.invokes, p.v, p.apdu) + more)
  {
    hide PartBytes, At, OneFacility, Facilities, ReceivedInvokes, InvokesFit, EncodeInvokes;
    PartStart(d, at, p);
    OwnFacility(d, at, p);
    var end := at + |PartBytes(p)|;
    FacilitiesStep(d, at + 2, end, p.v, ReceivedInvokes(p.invokes, p.v, p.apdu), end);
  }

  /** Any number of them */
  lemma {:induction false} OwnFacilities(d: seq<byte>, at: nat, e: nat, parts: seq<Part>, v: Variant, more: seq<Parsed>)
    requires PartsFit(parts) && (forall p <- parts :: p.v == v) && (parts == [] ==> e == at)
    requires At(d, at, Joined(parts)) && |Joined(parts)| <= 255
    requires var end := at + |Joined(parts)|; |d| > 0 && GoesOn(d, end, end, v) == Some(more)
    ensures GoesOn(d, at, e, v) == Some(ReceivedParts(parts, v) + more)
    decreases |parts|
  {
    hide InvokesFit, PartBytes, GoesOn, ReceivedInvokes, At;
    if parts == [] {
      assert [] + more == more;
    } else {
      var p, tail := parts[0], parts[1..];
      assert p in parts && forall q <- tail :: q in parts;
      var end := at + |PartBytes(p)|;
      AtConcat(d, at, PartBytes(p), Joined(tail));
      OwnFacilities(d, end, end, tail, v, more);
      OwnGoesOn(d, at, e, p, ReceivedParts(tail, v) + more);
      Associate(ReceivedInvokes(p.invokes, v, p.apdu), ReceivedParts(tail, v), more);
    }
  }

  /** The message as the loop meets it */
  lemma IndicationGoesOn(d: seq<byte>, v: Variant)
    requires 3 <= |d| <= 256 && d[0] as int == |d| - 1 && d[1] == FACILITY
    ensures Indication(d, v) == GoesOn(d, 1, 1, v)
  {
    hide Facilities;
  }

  /** A message of any number of facilities of the receiver's dialect: all their invokes arrive, in order. */
  lemma MessageArrives(parts: seq<Part>, v: Variant)
    requires PartsFit(parts) && (forall p <- parts :: p.v == v) && parts != [] && |Joined(parts)| <= 255
    ensures Indication(Message(parts), v) == Some(ReceivedParts(parts, v))
  {
    OwnThenRest(parts, [], v, []);
    assert ReceivedParts(parts, v) + [] == ReceivedParts(parts, v);
    assert Joined(parts) + [] == Joined(parts);
  }

  /** Facilities of the receiver's dialect in front of other bytes */
  lemma OwnThenRest(parts: seq<Part>, rest: seq<byte>, v: Variant, more: seq<Parsed>)
    requires PartsFit(parts) && (forall p <- parts :: p.v == v) && parts != [] && |Joined(parts)| + |rest| <= 255
    requires var d, end := Counted(Joined(parts) + rest), 1 + |Joined(parts)|; GoesOn(d, end, end, v) == Some(more)
    ensures Indication(Counted(Joined(parts) + rest), v) == Some(ReceivedParts(parts, v) + more)
  {
    hide ReceivedParts, Facilities, PartBytes, At, GoesOn, InvokesFit, EncodeInvokes, Indication, Counted;
    var d := Counted(Joined(parts) + rest);
    assert parts[0] in parts;
    BehindTotal(Joined(parts) + rest);
    AtConcat(d, 1, Joined(parts), rest);
    AtConcat(d, 1, PartBytes(parts[0]), Joined(parts[1..]));
    PartStart(d, 1, parts[0]);
    OwnFacilities(d, 1, 1, parts, v, more);
    IndicationGoesOn(d, v);
  }

  lemma BehindTotal(s: seq<byte>)
    requires |s| <= 255
    ensures var d := Counted(s); |d| == 1 + |s| && d[0] as int == |s| && At(d, 1, s)
  {
    assert Counted(s)[1..1 + |s|] == s;
  }

  // ---------------------------------------------------------------- behind a facility of the other dialect

  lemma ForeignGoesOn(d: seq<byte>, at: nat, e: nat, f: Part, v: Variant)
    requires InvokesFit(f.invokes, f.v) && f.apdu <= 2 && f.v != v && At(d, at, PartBytes(f)) && |PartBytes(f)| <= 257
    ensures var end := at + |PartBytes(f)|; GoesOn(d, at, e, v) == GoesOn(d, end + at + 2, end, v)
  {
    hide PartBytes, At, OneFacility, Facilities, InvokesFit, EncodeInvokes;
    PartStart(d, at, f);
    ForeignFacility(d, at, f, v);
    var end := at + |PartBytes(f)|;
    FacilitiesStep(d, at + 2, end, v, [], end + at + 2);
    if rest: seq<Parsed> :| GoesOn(d, end + at + 2, end, v) == Some(rest) {
      assert [] + rest == rest;
    }
  }

  /**
   Behind facilities of the receiver's dialect, one of the other dialect costs as many bytes
   behind it as stand in front of its protocol byte: with no more than that, all the rest.
   */
  lemma ForeignLosesTheRest(parts: seq<Part>, f: Part, rest: seq<byte>, v: Variant)
    requires PartsFit(parts) && (forall p <- parts :: p.v == v) && parts != []
    requires InvokesFit(f.invokes, f.v) && f.apdu <= 2 && f.v != v
    requires |Joined(parts)| + |PartBytes(f)| + |rest| <= 255 && |rest| <= |Joined(parts)| + 4
    ensures Indication(Counted(Joined(parts) + (PartBytes(f) + rest)), v) == Some(ReceivedParts(parts, v))
  {
    hide *;
    var own, bytes := Joined(parts), PartBytes(f) + rest;
    ForeignBehind(own, f, rest, v);
    OwnThenRest(parts, bytes, v, []);
    assert ReceivedParts(parts, v) + [] == ReceivedParts(parts, v);
  }

  lemma ForeignBehind(own: seq<byte>, f: Part, rest: seq<byte>, v: Variant)
    requires InvokesFit(f.invokes, f.v) && f.apdu <= 2 && f.v != v
    requires |own| + |PartBytes(f)| + |rest| <= 255 && |rest| <= |own| + 4
    ensures GoesOn(Counted(own + (PartBytes(f) + rest)), 1 + |own|, 1 + |own|, v) == Some([])
  {
    hide *;
    var bytes := PartBytes(f) + rest;
    var d, at := Counted(own + bytes), 1 + |own|;
    BehindTotal(own + bytes);
    AtConcat(d, 1, own, bytes);
    AtConcat(d, at, PartBytes(f), rest);
    ForeignThenLittle(d, at, f, v);
  }

  lemma ForeignThenLittle(d: seq<byte>, at: nat, f: Part, v: Variant)
    requires InvokesFit(f.invokes, f.v) && f.apdu <= 2 && f.v != v && At(d, at, PartBytes(f)) && |PartBytes(f)| <= 257
    requires |d| <= 2 * at + |PartBytes(f)| + 3
    ensures GoesOn(d, at, at, v) == Some([])
  {
    hide PartBytes, At, InvokesFit, EncodeInvokes, Facilities;
    ForeignGoesOn(d, at, at, f, v);
  }

  /**
   Behind a foreign facility in front of all others the loop lands within the next one, sees no
   facility there and skips again: what is handed over is what it finds from that byte on.
   */
  lemma ForeignInFront(d: seq<byte>, f: Part, q: Part, v: Variant)
    requires InvokesFit(f.invokes, f.v) && f.apdu <= 2 && f.v != v && InvokesFit(q.invokes, q.v)
    requires 3 <= |d| <= 256 && d[0] as int == |d| - 1
    requires At(d, 1, PartBytes(f)) && At(d, 1 + |PartBytes(f)|, PartBytes(q))
    ensures Indication(d, v) == GoesOn(d, 2 * |PartBytes(f)| + 6, 1 + |PartBytes(f)|, v)
  {
    var end := 1 + |PartBytes(f)|;
    assert end + |PartBytes(q)| <= |d|;
    hide *;
    assert Indication(d, v) == GoesOn(d, 1, 1, v) by {
      PartStart(d, 1, f);
      IndicationGoesOn(d, v);
    }
    assert GoesOn(d, 1, 1, v) == GoesOn(d, end + 3, end, v) by {
      ForeignGoesOn(d, 1, 1, f, v);
    }
    assert GoesOn(d, end + 3, end, v) == GoesOn(d, 2 * end + 4, end, v) by {
      PartStart(d, end, q);
      LandsWithin(d, end, v);
    }
  }

  lemma LandsWithin(d: seq<byte>, end: nat, v: Variant)
    requires end + 14 <= |d| && d[end + 3] == 0xaa && d[end + 4] == 6
    ensures GoesOn(d, end + 3, end, v) == GoesOn(d, 2 * end + 4, end, v)
  {
    hide OneFacility, Facilities;
    var none: seq<Parsed> := [];
    NoFacility(d, end + 4, end, v);
    FacilitiesStep(d, end + 4, end, v, none, end + 4 + end);
    if rest: seq<Parsed> :| GoesOn(d, 2 * end + 4, end, v) == Some(rest) {
      assert none + rest == rest;
    }
  }

  lemma NoFacility(d: seq<byte>, idx: nat, end: nat, v: Variant)
    requires idx < |d| && d[idx] == 6
    ensures var next: nat := idx + end; OneFacility(d, idx, end, v) == Some(([], next))
  {
    hide Advances, Components;
  }

  /**
   So a facility of the other dialect in front of others that are not much longer loses only
   itself if and only if there is nothing else to hand over.
   */
  lemma ForeignLosesOnlyItselfExactly(f: Part, parts: seq<Part>, v: Variant)
    requires PartsFit([f] + parts) && f.v != v && parts != []
    requires |Joined([f] + parts)| <= 255 && |Joined([f] + parts)| <= 2 * |PartBytes(f)| + 6
    ensures Indication(Message([f] + parts), v) == Some([])
    ensures Indication(Message([f] + parts), v) == Some(ReceivedParts([f] + parts, v)) <==> ReceivedParts(parts, v) == []
  {
    var all := [f] + parts;
    FirstOf(f, parts, v);
    FirstOf(parts[0], parts[1..], v);
    assert [parts[0]] + parts[1..] == parts;
    var none: seq<Parsed> := [];
    assert none + ReceivedParts(parts, v) == ReceivedParts(parts, v);
    hide *;
    ForeignThenOthers(f, parts[0], Joined(parts[1..]), v);
  }

  lemma FirstOf(p: Part, parts: seq<Part>, v: Variant)
    requires PartsFit([p] + parts)
    ensures InvokesFit(p.invokes, p.v) && p.apdu <= 2 && PartsFit(parts)
    ensures Joined([p] + parts) == PartBytes(p) + Joined(parts)
    ensures ReceivedParts([p] + parts, v)
         == (if p.v == v then ReceivedInvokes(p.invokes, v, p.apdu) else []) + ReceivedParts(parts, v)
  {
    hide PartBytes, ReceivedInvokes, InvokesFit;
    var all := [p] + parts;
    assert all[1..] == parts && p in all;
    assert forall q <- parts :: q in all;
  }

  lemma ForeignThenOthers(f: Part, q: Part, rest: seq<byte>, v: Variant)
    requires InvokesFit(f.invokes, f.v) && f.apdu <= 2 && f.v != v && InvokesFit(q.invokes, q.v)
    requires |PartBytes(f)| + |PartBytes(q)| + |rest| <= 255
    requires |PartBytes(q)| + |rest| <= |PartBytes(f)| + 6
    ensures Indication(Counted(PartBytes(f) + (PartBytes(q) + rest)), v) == Some([])
  {
    hide *;
    var d := Counted(PartBytes(f) + (PartBytes(q) + rest));
    BehindTotal(PartBytes(f) + (PartBytes(q) + rest));
    AtConcat(d, 1, PartBytes(f), PartBytes(q) + rest);
    AtConcat(d, 1 + |PartBytes(f)|, PartBytes(q), rest);
    ForeignInFront(d, f, q, v);
    NothingBehind(d, 2 * |PartBytes(f)| + 6, 1 + |PartBytes(f)|, v);
  }

  lemma NothingBehind(d: seq<byte>, last: nat, end: nat, v: Variant)
    requires 0 < |d| <= last + 1
    ensures GoesOn(d, last, end, v) == Some([])
  {
    hide Facilities;
  }

  /** It happens: a name in one dialect in front of a name in the other */
  lemma NameBehindForeignNameIsLost()
    ensures var i := Invoke(1, ByDialect(0), [0x80, 1, 65]);
      var f, p := Part([i], HicomEcmaV2, 0), Part([i], AlcatelEcma, 0);
      PartsFit([f, p]) && |ReceivedParts([f, p], AlcatelEcma)| == 1 && Indication(Message([f, p]), AlcatelEcma) == Some([])
  {
    var i := Invoke(1, ByDialect(0), [0x80, 1, 65]);
    var f, p := Part([i], HicomEcmaV2, 0), Part([i], AlcatelEcma, 0);
    OneInvoke(f, i);
    OneInvoke(p, i);
    assert |EncodeInvoke(i, HicomEcmaV2)| == 11 && |EncodeInvoke(i, AlcatelEcma)| == 14;
    assert [f] + [p] == [f, p] && [f, p][1..] == [p] && [p][1..] == [];
    assert |PartBytes(f)| == 25 && |PartBytes(p)| == 28;
    assert |Joined([])| == 0 && |Joined([p])| == 28 && |Joined([f, p])| == 53;
    assert |ReceivedParts([p], AlcatelEcma)| == 1;
    ForeignLosesOnlyItselfExactly(f, [p], AlcatelEcma);
  }

  lemma OneInvoke(p: Part, i: Invoke)
    requires p.invokes == [i] && InvokeFits(i, p.v)
    ensures InvokesFit(p.invokes, p.v) && EncodeInvokes(p.invokes, p.v) == EncodeInvoke(i, p.v)
    ensures |ReceivedInvokes(p.invokes, p.v, p.apdu)| == 1
  {
    assert p.invokes[1..] == [];
  }
}
