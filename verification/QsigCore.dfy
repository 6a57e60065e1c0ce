/**
 QSIG facilities: the header of ECMA-165, the invoke components behind it and the BER
 integers and object identifiers inside (ITU-T X.690 sections 8.1, 8.3 and 8.19). The
 printer fills a buffer and patches lengths backwards; the parser threads an index.
 */
module QsigCore {
  import opened Bytes
  import opened Common

  const COMP_TYPE_INVOKE: byte := 0xa1
  const COMP_TYPE_NFE: byte := 0xaa
  const COMP_TYPE_APDU_INTERP: byte := 0x8b
  const FACILITY: byte := 0x1c
  const ASN1_INTEGER: byte := 0x02
  const ASN1_OBJECTIDENTIFIER: byte := 0x06
  const MAX_OID: nat := 20
  const HEADER_SIZE: nat := 15

  /** The two configured QSIG dialects */
  datatype Variant = AlcatelEcma | HicomEcmaV2

  function ProtocolByte(v: Variant): byte {
    match v
    case AlcatelEcma => 0x80 + 0x11
    case HicomEcmaV2 => 0x80 + 0x1f
  }

  /** descr_type with the operation it describes; any other descr_type is not supported */
  datatype Operation = IntegerOp(n: int) | OidOp(oid: seq<byte>) | OtherOp

  /** descr_type -1 leaves the choice of the operation's form to the dialect. */
  datatype Request = Explicit(op: Operation) | ByDialect(n: int)

  datatype Invoke = Invoke(id: int, request: Request, data: seq<byte>)

  /** The operation that goes on the wire */
  function Resolve(r: Request, v: Variant): Operation {
    match r
    case Explicit(op) => op
    case ByDialect(n) =>
      match v
      case AlcatelEcma => OidOp([0x2b, 0x0c, 0x09, Low(n)])
      case HicomEcmaV2 => IntegerOp(n)
  }

  // ---------------------------------------------------------------- encoding

  predicate IntegerFits(n: int) {
    0 <= n <= 0xffff
  }

  function EncodeInteger(n: int): (s: seq<byte>)
    requires IntegerFits(n)
    ensures |s| == if n > 255 then 4 else 3
  {
    if n > 255 then [ASN1_INTEGER, 2, Low(n / 256), Low(n)] else [ASN1_INTEGER, 1, Low(n)]
  }

  predicate OperationFits(op: Operation) {
    match op
    case IntegerOp(n) => IntegerFits(n)
    case OidOp(oid) => 1 <= |oid| <= MAX_OID
    case OtherOp => false
  }

  function EncodeOperation(op: Operation): (s: seq<byte>)
    requires OperationFits(op)
    ensures |s| <= 2 + MAX_OID
  {
    match op
    case IntegerOp(n) => EncodeInteger(n)
    case OidOp(oid) => [ASN1_OBJECTIDENTIFIER, |oid|] + oid
  }

  predicate InvokeFits(i: Invoke, v: Variant) {
    IntegerFits(i.id) && OperationFits(Resolve(i.request, v))
  }

  function InvokeBody(i: Invoke, v: Variant): seq<byte>
    requires InvokeFits(i, v)
  {
    EncodeInteger(i.id) + EncodeOperation(Resolve(i.request, v)) + i.data
  }

  function EncodeInvoke(i: Invoke, v: Variant): (s: seq<byte>)
    requires InvokeFits(i, v)
    ensures |s| == 2 + |InvokeBody(i, v)|
  {
    [COMP_TYPE_INVOKE, Low(|InvokeBody(i, v)|)] + InvokeBody(i, v)
  }

  ghost predicate InvokesFit(invokes: seq<Invoke>, v: Variant) {
    forall k :: 0 <= k < |invokes| ==> InvokeFits(invokes[k], v)
  }

  ghost function EncodeInvokes(invokes: seq<Invoke>, v: Variant): seq<byte>
    requires InvokesFit(invokes, v)
  {
    if invokes == [] then [] else EncodeInvoke(invokes[0], v) + EncodeInvokes(invokes[1..], v)
  }

  lemma {:induction false} EncodeInvokesSnoc(invokes: seq<Invoke>, i: Invoke, v: Variant)
    requires InvokesFit(invokes, v) && InvokeFits(i, v)
    ensures EncodeInvokes(invokes + [i], v) == EncodeInvokes(invokes, v) + EncodeInvoke(i, v)
  {
    if invokes == [] {
      assert (invokes + [i])[1..] == [];
    } else {
      EncodeInvokesSnoc(invokes[1..], i, v);
      assert (invokes + [i])[1..] == invokes[1..] + [i];
      var a, b, c := EncodeInvoke(invokes[0], v), EncodeInvokes(invokes[1..], v), EncodeInvoke(i, v);
      assert a + (b + c) == a + b + c;
    }
  }

  function Header(length: int, facilityLength: int, v: Variant, apdu: byte): (s: seq<byte>)
    ensures |s| == HEADER_SIZE
  {
    [Low(length), FACILITY, Low(facilityLength), ProtocolByte(v)] + NETWORK_EXTENSION + [COMP_TYPE_APDU_INTERP, 0x01, apdu]
  }

  /** Both entities are end PINX. */
  const NETWORK_EXTENSION: seq<byte> := [COMP_TYPE_NFE, 6, 0x80, 0x01, 0x00, 0x82, 0x01, 0x00]

  /** A facility with its invokes: the first byte counts all others, the third all behind it. */
  ghost function Facility(invokes: seq<Invoke>, v: Variant, apdu: byte): seq<byte>
    requires InvokesFit(invokes, v)
  {
    var body := EncodeInvokes(invokes, v);
    Header(HEADER_SIZE + |body| - 1, HEADER_SIZE + |body| - 3, v, apdu) + body
  }

  /** A message with both of its length bytes set to what is really there */
  function Patched(s: seq<byte>): (r: seq<byte>)
    requires |s| >= HEADER_SIZE
    ensures |r| == |s|
  {
    s[0 := Low(|s| - 1)][2 := Low(|s| - 3)]
  }

  /** cc_qsig_update_facility_length */
  method UpdateFacilityLength(buf: array<byte>, idx: nat)
    requires buf.Length >= HEADER_SIZE
    modifies buf
    ensures buf[0] == Low(idx) && buf[2] == Low(idx - 2)
    ensures forall k :: 0 <= k < buf.Length && k != 0 && k != 2 ==> buf[k] == old(buf[k])
  {
    buf[0] := Low(idx);
    buf[2] := Low(idx - 2);
  }

  /** cc_qsig_build_facility_struct; the lengths it leaves count one byte too many until an invoke is added. */
  method BuildFacility(buf: array<byte>, v: Variant, apdu: byte) returns (idx: nat)
    requires buf.Length >= HEADER_SIZE
    modifies buf
    ensures idx == HEADER_SIZE && buf[..idx] == Header(HEADER_SIZE, HEADER_SIZE - 2, v, apdu)
  {
    Copy(buf, 1, [FACILITY, 0, ProtocolByte(v)]);
    ghost var b := buf[0];
    Copy(buf, 4, NETWORK_EXTENSION);
    Copy(buf, 12, [COMP_TYPE_APDU_INTERP, 0x01, apdu]);
    idx := HEADER_SIZE;
    assert buf[..idx] == [b, FACILITY, 0, ProtocolByte(v)] + NETWORK_EXTENSION + [COMP_TYPE_APDU_INTERP, 0x01, apdu];
    UpdateFacilityLength(buf, idx);
    assert buf[1..idx] == [FACILITY, Low(HEADER_SIZE - 2), ProtocolByte(v)] + NETWORK_EXTENSION + [COMP_TYPE_APDU_INTERP, 0x01, apdu];
  }

  /** memcpy */
  method Copy(buf: array<byte>, at: nat, src: seq<byte>)
    requires at + |src| <= buf.Length
    modifies buf
    ensures buf[..at + |src|] == old(buf[..at]) + src
    ensures buf[at + |src|..] == old(buf[at + |src|..])
  {
    forall j | 0 <= j < |src| {
      buf[at + j] := src[j];
    }
  }

  /** cc_qsig_asn1_add_integer */
  method AddInteger(buf: array<byte>, at: nat, n: int) returns (ok: bool, idx: nat)
    requires at + 4 <= buf.Length
    modifies buf
    ensures ok <==> IntegerFits(n)
    ensures idx == if ok then at + |EncodeInteger(n)| else at
    ensures buf[..idx] == old(buf[..at]) + if ok then EncodeInteger(n) else []
    ensures buf[idx..] == old(buf[idx..])
  {
    ok, idx := true, at;
    if n < 0 || n > 0xffff {
      return false, at;
    }
    var intlen := 1;
    if n > 255 {
      intlen := intlen + 1;
    }
    buf[idx] := ASN1_INTEGER;
    buf[idx + 1] := intlen;
    idx := idx + 2;
    if intlen > 1 {
      buf[idx] := Low(n / 256);
      buf[idx + 1] := Low(n - 0xff00);
      idx := idx + 2;
    } else {
      buf[idx] := Low(n);
      idx := idx + 1;
    }
  }

  method AddOid(buf: array<byte>, at: nat, oid: seq<byte>) returns (idx: nat)
    requires |oid| <= MAX_OID && at + 2 + |oid| <= buf.Length
    modifies buf
    ensures idx == at + 2 + |oid| && buf[..idx] == old(buf[..at]) + ([ASN1_OBJECTIDENTIFIER, |oid|] + oid)
  {
    Copy(buf, at, [ASN1_OBJECTIDENTIFIER, |oid|]);
    Copy(buf, at + 2, oid);
    idx := at + 2 + |oid|;
  }

  /** The operation of an invoke, by its descriptor type */
  method AddOperation(buf: array<byte>, at: nat, op: Operation) returns (ok: bool, idx: nat)
    requires at + 4 + MAX_OID <= buf.Length
    modifies buf
    ensures ok <==> OperationFits(op)
    ensures idx == if ok then at + |EncodeOperation(op)| else at
    ensures buf[..idx] == old(buf[..at]) + if ok then EncodeOperation(op) else []
  {
    hide EncodeInteger;
    ok, idx := false, at;
    match op {
      case IntegerOp(n) =>
        ok, idx := AddInteger(buf, at, n);
      case OidOp(oid) =>
        if 1 <= |oid| <= MAX_OID {
          ok := true;
          idx := AddOid(buf, at, oid);
        }
      case OtherOp =>
    }
  }

  /** What the length byte of an invoke counts */
  method AddInvokeBody(buf: array<byte>, at: nat, i: Invoke, v: Variant) returns (ok: bool, idx: nat)
    requires at + 8 + MAX_OID + |i.data| <= buf.Length
    modifies buf
    ensures ok <==> InvokeFits(i, v)
    ensures ok ==> idx == at + |InvokeBody(i, v)| <= buf.Length && buf[..idx] == old(buf[..at]) + InvokeBody(i, v)
    ensures buf[..at] == old(buf[..at])
  {
    hide EncodeInteger, EncodeOperation, IntegerFits, OperationFits, Resolve;
    ghost var front := buf[..at];
    ok, idx := AddInteger(buf, at, i.id);
    ghost var withId := buf[..idx];
    assert withId[..at] == front;
    if ok {
      ok, idx := AddOperation(buf, idx, Resolve(i.request, v));
      ghost var withOp := buf[..idx];
      assert buf[..at] == withOp[..at] == withId[..at];
      if ok {
        Copy(buf, idx, i.data);
        assert buf[..at] == buf[..idx][..at];
        idx := idx + |i.data|;
        assert buf[..idx] == withOp + i.data;
        BodyBehind(front, i, v);
      }
    }
  }

  lemma BodyBehind(front: seq<byte>, i: Invoke, v: Variant)
    requires InvokeFits(i, v)
    ensures front + EncodeInteger(i.id) + EncodeOperation(Resolve(i.request, v)) + i.data == front + InvokeBody(i, v)
  {
  }

  /** One invoke component; its length byte is patched once the end is known. */
  method AddComponent(buf: array<byte>, at: nat, i: Invoke, v: Variant) returns (ok: bool, idx: nat)
    requires at + 10 + MAX_OID + |i.data| <= buf.Length
    modifies buf
    ensures ok <==> InvokeFits(i, v)
    ensures ok ==> idx == at + |EncodeInvoke(i, v)| <= buf.Length && buf[..idx] == old(buf[..at]) + EncodeInvoke(i, v)
    ensures !ok ==> idx == at && buf[..at] == old(buf[..at])
  {
    hide InvokeBody;
    ghost var front := buf[..at];
    buf[at], buf[at + 1] := COMP_TYPE_INVOKE, 0;
    ok, idx := AddInvokeBody(buf, at + 2, i, v);
    assert buf[..at] == buf[..at + 2][..at];
    if ok {
      buf[at + 1] := Low(idx - (at + 1) - 1);
      assert buf[..idx] == front + EncodeInvoke(i, v);
    } else {
      idx := at;
    }
  }

  /** cc_qsig_add_invoke; on failure the index stays and nothing in front of it changes. */
  method AddInvoke(buf: array<byte>, at: nat, i: Invoke, v: Variant) returns (ok: bool, idx: nat)
    requires HEADER_SIZE <= at && at + 10 + MAX_OID + |i.data| <= buf.Length
    modifies buf
    ensures ok <==> InvokeFits(i, v)
    ensures !ok ==> idx == at && buf[..at] == old(buf[..at])
    ensures ok ==> idx == at + |EncodeInvoke(i, v)| <= buf.Length
    ensures ok ==> buf[..idx] == Patched(old(buf[..at]) + EncodeInvoke(i, v))
  {
    ok, idx := AddComponent(buf, at, i, v);
    if ok {
      UpdateFacilityLength(buf, idx - 1);
    }
  }

  // ---------------------------------------------------------------- decoding

  /**
   The readers below answer None where the original would read outside the message, copy a
   negative length, or use a structure it never filled.
   */

  /** A byte read through a signed char */
  function Signed(b: byte): int {
    if b < 128 then b else b as int - 256
  }

  /** cc_qsig_asn1_get_integer, from the length byte on */
  function GetInteger(d: seq<byte>, idx: nat): (r: Option<(int, nat)>)
    ensures r.Some? ==> idx < r.value.1
  {
    if idx >= |d| then None
    else if d[idx] < 1 || d[idx] > 2 then Some((0, idx + 1 + d[idx] as int))
    else if idx + 1 >= |d| then None
    else if d[idx] == 1 then Some((Signed(d[idx + 1]), idx + 2))
    else if idx + 2 >= |d| then None
    else Some((256 * Signed(d[idx + 1]) + d[idx + 2], idx + 3))
  }

  /** What the receiver makes of an integer */
  function Received(n: int): int
    requires IntegerFits(n)
  {
    if n <= 127 then n
    else if n <= 255 then n - 256
    else if n <= 32767 then n
    else n - 65536
  }

  lemma IntegerRoundTrip(d: seq<byte>, at: nat, n: int)
    requires IntegerFits(n) && at + |EncodeInteger(n)| <= |d|
    requires d[at..at + |EncodeInteger(n)|] == EncodeInteger(n)
    ensures d[at] == ASN1_INTEGER
    ensures GetInteger(d, at + 1) == Some((Received(n), at + |EncodeInteger(n)|))
    ensures Received(n) == n <==> n <= 127 || 256 <= n <= 32767
  {
    var e := d[at..at + |EncodeInteger(n)|];
    assert e[0] == d[at] && e[1] == d[at + 1] && e[2] == d[at + 2];
    if n > 255 {
      assert e[3] == d[at + 3];
      assert n == 256 * (n / 256) + n % 256;
    }
  }

  /** What cc_qsig_check_facility found: the index and the APDU interpretation, -1 if not given */
  datatype Checked = Checked(accepted: bool, idx: nat, apdu: int)

  function CheckFacility(d: seq<byte>, idx: nat, v: Variant): (r: Option<Checked>)
    ensures r.Some? ==> idx <= r.value.idx
  {
    if idx >= |d| then None
    else if d[idx] != ProtocolByte(v) then Some(Checked(false, idx, -1))
    else if idx + 1 >= |d| then None
    else if d[idx + 1] == COMP_TYPE_NFE then
      if idx + 2 >= |d| then None else
      var my := idx + 2 + d[idx + 2] as int + 1;
      CheckApdu(d, my, my)
    else CheckApdu(d, idx + 1, idx)
  }

  function CheckApdu(d: seq<byte>, my: nat, idx: nat): (r: Option<Checked>)
    requires idx <= my
    ensures r.Some? ==> idx <= r.value.idx
  {
    if my >= |d| then None
    else if d[my] != COMP_TYPE_APDU_INTERP then Some(Checked(true, idx, -1))
    else if my + 1 >= |d| then None
    else
      var at := my + 1 + d[my + 1] as int;
      if at >= |d| || d[at] > 2 then None else Some(Checked(true, at + 1, d[at]))
  }

  /** cc_qsig_check_invoke: the length it returns is the byte behind the length byte; -1 if no invoke. */
  function CheckInvoke(d: seq<byte>, idx: nat): Option<(int, nat)> {
    if idx >= |d| then None
    else if d[idx] == COMP_TYPE_INVOKE then
      if idx + 2 >= |d| then None else Some((d[idx + 2] as int, idx + 1))
    else if idx + 1 >= |d| then None
    else Some((-1, idx + d[idx + 1] as int))
  }

  datatype InvokeId = InvokeId(id: int, len: nat, offset: nat, idx: nat)
  datatype IdResult = Empty | WrongType | Found(id: InvokeId)

  /** cc_qsig_get_invokeid, from the length byte on; an empty component leaves the invoke structure alone. */
  function GetInvokeId(d: seq<byte>, idx: nat): Option<IdResult> {
    if idx >= |d| then None
    else if d[idx] == 0 then Some(Empty)
    else if idx + 1 >= |d| then None
    else if d[idx + 1] != ASN1_INTEGER then Some(WrongType)
    else
      match GetInteger(d, idx + 2)
      case None => None
      case Some((id, next)) => Some(Found(InvokeId(id, d[idx], idx, next)))
  }

  /** An invoke as handed to the operation handlers; `n` is -1 for an OID that is not four bytes long. */
  datatype Parsed = Parsed(id: int, apdu: int, n: int, oid: Option<seq<byte>>, data: seq<byte>)

  /** The data of an invoke: from idx to the end its length byte announced */
  function InvokeData(d: seq<byte>, id: InvokeId, idx: nat): Option<(seq<byte>, nat)> {
    var end := id.len + id.offset + 1;
    if end < idx || end > |d| then None else Some((d[idx..end], end))
  }

  /** The length byte of a component and where it stands */
  datatype Frame = Frame(len: nat, offset: nat) {
    function End(): nat {
      len + offset + 1
    }
  }

  /**
   The invoke structure that the rounds of one facility share: length and offset of the
   component last read and what it holds, none of it defined at first.
   */
  datatype Structure = Structure(frame: Option<Frame>, invoke: Option<Parsed>) {
    predicate EndsAt(idx: nat) {
      frame.Some? && frame.value.End() == idx
    }

    predicate Behind(idx: nat) {
      frame.Some? ==> frame.value.offset <= idx
    }

    function Offset(): nat {
      if frame.Some? then frame.value.offset else 0
    }
  }

  const UNSET := Structure(None, None)

  /**
   cc_qsig_fill_invokestruct: an operation of unknown type leaves the operation and the data of
   the round before in place, under the new id.
   */
  function FillInvoke(d: seq<byte>, id: InvokeId, apdu: int, stale: Option<Parsed>): Option<(Parsed, nat)> {
    if id.idx >= |d| then None
    else if d[id.idx] == ASN1_INTEGER then
      match GetInteger(d, id.idx + 1)
      case None => None
      case Some((n, my)) =>
        (match InvokeData(d, id, my)
         case None => None
         case Some((data, end)) => Some((Parsed(id.id, apdu, n, None, data), end)))
    else if d[id.idx] == ASN1_OBJECTIDENTIFIER then
      if id.idx + 1 >= |d| then None else
      var size: nat := if d[id.idx + 1] > 20 then 20 else d[id.idx + 1];
      var my := id.idx + 2 + size;
      if my > |d| then None else
      var oid := d[id.idx + 2..my];
      match InvokeData(d, id, my)
      case None => None
      case Some((data, end)) =>
        Some((Parsed(id.id, apdu, if size == 4 then oid[3] else -1, Some(oid), data), end))
    else
      match stale
      case None => None
      case Some(p) => Some((p.(id := id.id), id.len + id.offset + 1))
  }

  /** A round of the component loop: the invoke handed over, if any, the next index and the structure */
  datatype Round = Round(handed: Option<Parsed>, next: nat, invoke: Structure) {
    function Handed(): seq<Parsed> {
      if handed.Some? then [handed.value] else []
    }
  }

  function Component(d: seq<byte>, idx: nat, apdu: int, s: Structure): Option<Round> {
    match CheckInvoke(d, idx)
    case None => None
    case Some((len, my)) =>
      if len <= 0 then Some(Round(None, my, s)) else
      match GetInvokeId(d, my)
      case None => None
      case Some(Empty) =>
        if s.frame.Some? && s.invoke.Some? then Some(Round(s.invoke, s.frame.value.End(), s)) else None
      case Some(WrongType) => Some(Round(None, my, s.(frame := Some(Frame(d[my], my)))))
      case Some(Found(id)) =>
        match FillInvoke(d, id, apdu, s.invoke)
        case None => None
        case Some((p, next)) => Some(Round(Some(p), next, Structure(Some(Frame(id.len, id.offset)), Some(p))))
  }

  /**
   Whether the loop has yet to come to the announced end of the component last read: a component
   whose id is no integer announces one, but the loop goes on at its length byte.
   */
  predicate Ahead(s: Structure, r: Round, before: bool) {
    r.invoke.frame.Some? && !r.invoke.EndsAt(r.next) && (before || r.invoke.frame != s.frame)
  }

  /** The index moves on, or goes back to an end at which the loop has not yet been. */
  predicate MovesOn(idx: nat, r: Round, ahead: bool) {
    idx < r.next || (ahead && r.invoke.EndsAt(r.next))
  }

  /** Every round up to the end of the facility is defined and moves on. */
  predicate Advances(d: seq<byte>, idx: nat, end: nat, apdu: int, s: Structure, ahead: bool)
    requires s.Behind(idx)
    decreases end - s.Offset(), ahead, end - idx
  {
    idx >= end ||
    match Component(d, idx, apdu, s)
    case None => false
    case Some(r) => MovesOn(idx, r, ahead) && Advances(d, r.next, end, apdu, r.invoke, Ahead(s, r, ahead))
  }

  /** The invokes handled from idx on, and the index the loop ends with */
  function Components(d: seq<byte>, idx: nat, end: nat, apdu: int, s: Structure, ahead: bool): (r: (seq<Parsed>, nat))
    requires s.Behind(idx) && Advances(d, idx, end, apdu, s, ahead)
    ensures idx <= r.1 && end <= r.1
    decreases end - s.Offset(), ahead, end - idx
  {
    if idx >= end then ([], idx) else
    var r := Component(d, idx, apdu, s).value;
    var (rest, last) := Components(d, r.next, end, apdu, r.invoke, Ahead(s, r, ahead));
    (r.Handed() + rest, last)
  }

  /** The component at idx has an id and an operation of a known type. */
  predicate HasOperation(d: seq<byte>, idx: nat) {
    match GetInvokeId(d, idx + 1)
    case Some(Found(id)) => id.idx < |d| && (d[id.idx] == ASN1_INTEGER || d[id.idx] == ASN1_OBJECTIDENTIFIER)
    case _ => false
  }

  /**
   An invoke that is handed over is its component's own, whatever was read before, exactly if it
   has an operation of a known type. Otherwise all but the id is what was handed over before,
   and even the id if the component is empty.
   */
  lemma HandedIsOwnExactly(d: seq<byte>, idx: nat, apdu: int, s: Structure)
    requires Component(d, idx, apdu, s).Some? && Component(d, idx, apdu, s).value.handed.Some?
    ensures (forall t :: Component(d, idx, apdu, t) == Component(d, idx, apdu, s)) <==> HasOperation(d, idx)
    ensures var p := Component(d, idx, apdu, s).value.handed.value;
      if HasOperation(d, idx) then p.apdu == apdu && GetInvokeId(d, idx + 1).value.id.id == p.id
      else s.invoke.Some? && p == s.invoke.value.(id := p.id)
           && p.id == if d[idx + 1] == 0 then s.invoke.value.id else GetInvokeId(d, idx + 1).value.id.id
  {
    if !HasOperation(d, idx) {
      assert Component(d, idx, apdu, UNSET) == None;
    }
  }

  // ---------------------------------------------------------------- when the loop ends

  /**
   A round does not move the index forward exactly on an empty component that is no invoke, and
   on an empty invoke behind the end of the component last read.
   */
  lemma GoesBackExactly(d: seq<byte>, idx: nat, apdu: int, s: Structure)
    requires Component(d, idx, apdu, s).Some?
    ensures Component(d, idx, apdu, s).value.next <= idx
       <==> d[idx + 1] == 0
            && (d[idx] == COMP_TYPE_INVOKE ==> d[idx + 2] != 0 && s.frame.Some? && s.frame.value.End() <= idx)
  {
  }

  /** A component that is not an invoke and whose second byte is zero holds the loop where it is. */
  lemma LoopStallsExactlyOnEmptyForeignComponent(d: seq<byte>, idx: nat, apdu: int, s: Structure)
    requires idx + 1 < |d| && d[idx] != COMP_TYPE_INVOKE
    ensures Component(d, idx, apdu, s) == Some(Round(None, idx, s)) <==> d[idx + 1] == 0
    ensures d[idx + 1] == 0 ==> forall end :: end > idx ==> !LoopEnds(d, idx, end, apdu, s)
  {
    if d[idx + 1] == 0 {
      forall end: nat, n: nat | end > idx ensures !Ends(d, idx, end, apdu, s, n) {
        NeverEnds(d, idx, idx, end, apdu, s, n);
      }
    }
  }

  /** An empty invoke has the invoke last read handed over again and the loop go on at its end. */
  lemma EmptyInvokeRepeats(d: seq<byte>, idx: nat, apdu: int, s: Structure)
    requires idx + 2 < |d| && d[idx] == COMP_TYPE_INVOKE && d[idx + 1] == 0 && d[idx + 2] != 0
    ensures Component(d, idx, apdu, s)
         == if s.frame.Some? && s.invoke.Some? then Some(Round(s.invoke, s.frame.value.End(), s)) else None
    ensures s.frame.Some? && Reaches(d, s.frame.value.End(), idx, apdu, s)
        ==> forall end :: end > idx ==> !LoopEnds(d, idx, end, apdu, s)
  {
    if s.frame.Some? && s.invoke.Some? && Reaches(d, s.frame.value.End(), idx, apdu, s) {
      forall end: nat, n: nat | end > idx ensures !Ends(d, idx, end, apdu, s, n) {
        NeverEnds(d, idx, idx, end, apdu, s, n);
      }
    }
  }

  /** The loop comes to the end of the facility within n rounds, each of them defined. */
  predicate Ends(d: seq<byte>, idx: nat, end: nat, apdu: int, s: Structure, n: nat)
    decreases n
  {
    idx >= end ||
    match Component(d, idx, apdu, s)
    case None => false
    case Some(r) => n > 0 && Ends(d, r.next, end, apdu, r.invoke, n - 1)
  }

  ghost predicate LoopEnds(d: seq<byte>, idx: nat, end: nat, apdu: int, s: Structure) {
    exists n: nat :: Ends(d, idx, end, apdu, s, n)
  }

  /** From index a on the loop comes to idx, and leaves the invoke structure alone on the way. */
  predicate Reaches(d: seq<byte>, a: nat, idx: nat, apdu: int, s: Structure)
    decreases idx - a
  {
    a == idx ||
    match Component(d, a, apdu, s)
    case None => false
    case Some(r) => a < r.next <= idx && r.invoke == s && Reaches(d, r.next, idx, apdu, s)
  }

  lemma {:induction false} ReachesOneMore(d: seq<byte>, a: nat, idx: nat, apdu: int, s: Structure)
    requires Reaches(d, a, idx, apdu, s) && Component(d, idx, apdu, s).Some?
    requires var r := Component(d, idx, apdu, s).value; idx < r.next && r.invoke == s
    ensures a <= idx && Reaches(d, a, Component(d, idx, apdu, s).value.next, apdu, s)
    decreases idx - a
  {
    hide Component;
    if a == idx {
    } else {
      ReachesOneMore(d, Component(d, a, apdu, s).value.next, idx, apdu, s);
    }
  }

  /** Where a round leads back to an index from which the loop comes to the same round again, it never ends. */
  lemma {:induction false} NeverEnds(d: seq<byte>, a: nat, idx: nat, end: nat, apdu: int, s: Structure, n: nat)
    requires idx < end && Reaches(d, a, idx, apdu, s) && Component(d, idx, apdu, s).Some?
    requires var r := Component(d, idx, apdu, s).value; r.invoke == s && Reaches(d, r.next, idx, apdu, s)
    requires a <= idx
    ensures !Ends(d, a, end, apdu, s, n)
    decreases n
  {
    hide Component;
    if n == 0 {
    } else {
      NeverEnds(d, Component(d, a, apdu, s).value.next, idx, end, apdu, s, n - 1);
    }
  }

  /** The rounds since the end of the component last read, if the loop has been there */
  predicate Passed(d: seq<byte>, idx: nat, apdu: int, s: Structure, ahead: bool) {
    s.frame.Some? && !ahead ==> Reaches(d, s.frame.value.End(), idx, apdu, s)
  }

  lemma PassedKept(d: seq<byte>, idx: nat, apdu: int, s: Structure, ahead: bool)
    requires s.Behind(idx) && Passed(d, idx, apdu, s, ahead) && Component(d, idx, apdu, s).Some?
    ensures var r := Component(d, idx, apdu, s).value;
      r.invoke.Behind(r.next) && (MovesOn(idx, r, ahead) ==> Passed(d, r.next, apdu, r.invoke, Ahead(s, r, ahead)))
  {
    var r := Component(d, idx, apdu, s).value;
    if r.invoke == s && s.frame.Some? && !ahead && idx < r.next {
      ReachesOneMore(d, s.frame.value.End(), idx, apdu, s);
    }
  }

  /** A round that does not move on is met again and again. */
  lemma StuckForEver(d: seq<byte>, idx: nat, end: nat, apdu: int, s: Structure, ahead: bool, n: nat)
    requires idx < end && Passed(d, idx, apdu, s, ahead) && Component(d, idx, apdu, s).Some?
    requires !MovesOn(idx, Component(d, idx, apdu, s).value, ahead)
    ensures !Ends(d, idx, end, apdu, s, n)
  {
    NeverEnds(d, idx, idx, end, apdu, s, n);
  }

  /**
   The loop ends if and only if all its rounds are defined and each moves forward, or goes back
   to the end of a component whose id was no integer, once for each of these.
   */
  lemma {:induction false} LoopEndsExactly(d: seq<byte>, idx: nat, end: nat, apdu: int, s: Structure, ahead: bool)
    requires s.Behind(idx) && Passed(d, idx, apdu, s, ahead)
    ensures Advances(d, idx, end, apdu, s, ahead) <==> LoopEnds(d, idx, end, apdu, s)
    decreases end - s.Offset(), ahead, end - idx
  {
    hide Passed;
    if idx >= end {
      assert Ends(d, idx, end, apdu, s, 0);
    } else if Component(d, idx, apdu, s).Some? {
      var r := Component(d, idx, apdu, s).value;
      PassedKept(d, idx, apdu, s, ahead);
      if MovesOn(idx, r, ahead) {
        LoopEndsExactly(d, r.next, end, apdu, r.invoke, Ahead(s, r, ahead));
        assert Advances(d, idx, end, apdu, s, ahead) == Advances(d, r.next, end, apdu, r.invoke, Ahead(s, r, ahead));
        hide *;
        EndsOneRound(d, idx, end, apdu, s);
      } else {
        forall n: nat ensures !Ends(d, idx, end, apdu, s, n) {
          StuckForEver(d, idx, end, apdu, s, ahead, n);
        }
      }
    }
  }

  lemma EndsOneRound(d: seq<byte>, idx: nat, end: nat, apdu: int, s: Structure)
    requires idx < end && Component(d, idx, apdu, s).Some?
    ensures var r := Component(d, idx, apdu, s).value;
      LoopEnds(d, idx, end, apdu, s) <==> LoopEnds(d, r.next, end, apdu, r.invoke)
  {
    hide Component;
    var r := Component(d, idx, apdu, s).value;
    if LoopEnds(d, r.next, end, apdu, r.invoke) {
      var n: nat :| Ends(d, r.next, end, apdu, r.invoke, n);
      assert Ends(d, idx, end, apdu, s, n + 1);
    }
    if LoopEnds(d, idx, end, apdu, s) {
      var n: nat :| Ends(d, idx, end, apdu, s, n);
      assert Ends(d, r.next, end, apdu, r.invoke, n - 1);
    }
  }

  /** So for a facility, whose rounds start with nothing read */
  lemma FacilityEndsExactly(d: seq<byte>, idx: nat, end: nat, apdu: int)
    ensures Advances(d, idx, end, apdu, UNSET, false) <==> LoopEnds(d, idx, end, apdu, UNSET)
  {
    LoopEndsExactly(d, idx, end, apdu, UNSET, false);
  }

  // ---------------------------------------------------------------- the loops of the receiver

  /** The loop of qsig_handle_q932facility; `handled` are the calls of the operation handlers. */
  method HandleComponents(d: seq<byte>, idx: nat, end: nat, apdu: int) returns (handled: seq<Parsed>, last: nat)
    requires Advances(d, idx, end, apdu, UNSET, false)
    ensures (handled, last) == Components(d, idx, end, apdu, UNSET, false)
  {
    handled, last := [], idx;
    var invoke := UNSET;
    ghost var ahead := false;
    assert invoke.Behind(idx);
    hide *;
    ghost var all := Components(d, idx, end, apdu, invoke, ahead);
    assert [] + all.0 == all.0;
    while last < end
      invariant invoke.Behind(last) && Advances(d, last, end, apdu, invoke, ahead)
      invariant var (rest, to) := Components(d, last, end, apdu, invoke, ahead); all == (handled + rest, to)
      decreases end - invoke.Offset(), ahead, end - last
    {
      ComponentsUnfold(d, last, end, apdu, invoke, ahead);
      var r := Component(d, last, apdu, invoke).value;
      ghost var after := Ahead(invoke, r, ahead);
      Associate(handled, r.Handed(), Components(d, r.next, end, apdu, r.invoke, after).0);
      handled, last, invoke, ahead := handled + r.Handed(), r.next, r.invoke, after;
    }
    NoComponents(d, last, end, apdu, invoke, ahead);
    assert handled + [] == handled;
  }

  lemma ComponentsUnfold(d: seq<byte>, idx: nat, end: nat, apdu: int, s: Structure, ahead: bool)
    requires idx < end && s.Behind(idx) && Advances(d, idx, end, apdu, s, ahead)
    ensures Component(d, idx, apdu, s).Some?
    ensures var r := Component(d, idx, apdu, s).value; var after := Ahead(s, r, ahead);
      && r.invoke.Behind(r.next) && Advances(d, r.next, end, apdu, r.invoke, after)
      && (s.Offset() < r.invoke.Offset() <= end
          || (s.Offset() == r.invoke.Offset() && (if after == ahead then idx < r.next else ahead)))
      && var (rest, last) := Components(d, r.next, end, apdu, r.invoke, after);
         Components(d, idx, end, apdu, s, ahead) == (r.Handed() + rest, last)
  {
  }

  /** Where the facility at idx leaves the outer loop, and what was handled in it */
  function OneFacility(d: seq<byte>, idx: nat, end: nat, v: Variant): (r: Option<(seq<Parsed>, nat)>)
    ensures r.Some? ==> idx <= r.value.1
  {
    match CheckFacility(d, idx, v)
    case None => None
    case Some(c) =>
      if !c.accepted then Some(([], idx + end))
      else if Advances(d, c.idx, end, c.apdu, UNSET, false) then Some(Components(d, c.idx, end, c.apdu, UNSET, false))
      else None
  }

  /** The facilities of a message from idx on; None if some read is undefined or a loop never ends. */
  function Facilities(d: seq<byte>, idx: nat, end: nat, total: nat, v: Variant): Option<seq<Parsed>>
    decreases total - idx
  {
    if idx >= total then Some([]) else
    match OneFacility(d, idx, end, v)
    case None => None
    case Some((handled, last)) =>
      if last >= total then Some(handled)
      else if last >= |d| then None
      else if d[last] == FACILITY then
        if last + 1 >= |d| then None else
        (match Facilities(d, last + 2, last + 2 + d[last + 1] as int, total, v)
         case None => None
         case Some(rest) => Some(handled + rest))
      else
        match Facilities(d, last + 1, end, total, v)
        case None => None
        case Some(rest) => Some(handled + rest)
  }

  function Indication(d: seq<byte>, v: Variant): Option<seq<Parsed>> {
    if |d| < 3 then None else Facilities(d, 3, 3 + d[2] as int, d[0], v)
  }

  /** qsig_handle_q932facility */
  method HandleFacility(d: seq<byte>, idx: nat, end: nat, v: Variant) returns (handled: seq<Parsed>, last: nat)
    requires OneFacility(d, idx, end, v).Some?
    ensures OneFacility(d, idx, end, v) == Some((handled, last))
  {
    var c := CheckFacility(d, idx, v).value;
    if c.accepted {
      handled, last := HandleComponents(d, c.idx, end, c.apdu);
    } else {
      handled, last := [], idx + end;
    }
  }

  /** cc_qsig_handle_capiind */
  method HandleIndication(d: seq<byte>, v: Variant) returns (handled: seq<Parsed>)
    requires Indication(d, v).Some?
    ensures handled == Indication(d, v).value
  {
    hide OneFacility;
    handled := [];
    var total, idx, end: nat := d[0], 3, 3 + d[2] as int;
    ghost var all := Indication(d, v).value;
    assert [] + all == all;
    while idx < total
      invariant Facilities(d, idx, end, total, v).Some?
      invariant all == handled + Facilities(d, idx, end, total, v).value
      decreases total - idx
    {
      ghost var before, rest := handled, Facilities(d, idx, end, total, v).value;
      var ps, last := HandleFacility(d, idx, end, v);
      handled := handled + ps;
      idx := last;
      if idx < total {
        if d[idx] == FACILITY {
          end := idx + 2 + d[idx + 1] as int;
          idx := idx + 2;
        } else {
          idx := idx + 1;
        }
        assert before + (ps + Facilities(d, idx, end, total, v).value) == handled + Facilities(d, idx, end, total, v).value;
      }
    }
  }

  lemma NoComponents(d: seq<byte>, idx: nat, end: nat, apdu: int, s: Structure, ahead: bool)
    requires s.Behind(idx) && idx >= end
    ensures Advances(d, idx, end, apdu, s, ahead) && Components(d, idx, end, apdu, s, ahead) == ([], idx)
  {
  }

  lemma ComponentsStep(d: seq<byte>, idx: nat, end: nat, apdu: int, s: Structure, ahead: bool, r: Round)
    requires idx < end && s.Behind(idx) && r.invoke.Behind(r.next) && Component(d, idx, apdu, s) == Some(r)
    requires MovesOn(idx, r, ahead) && Advances(d, r.next, end, apdu, r.invoke, Ahead(s, r, ahead))
    ensures Advances(d, idx, end, apdu, s, ahead)
    ensures var (rest, last) := Components(d, r.next, end, apdu, r.invoke, Ahead(s, r, ahead));
      Components(d, idx, end, apdu, s, ahead) == (r.Handed() + rest, last)
  {
    ComponentsUnfold(d, idx, end, apdu, s, ahead);
  }

  // ---------------------------------------------------------------- two messages

  /** The facility header and an invoke with id 1 and operation 0, the beginning of both */
  const FIRST_INVOKE: seq<byte> := [0x91, 0x8b, 1, 0, 0xa1, 6, 2, 1, 1, 2, 1, 0]

  const NEVER_LEFT: seq<byte> := [19, 0x1c, 17] + (FIRST_INVOKE + [0x30, 2, 0xa1, 0, 1])

  const LEFT_GOING_BACK: seq<byte> := [24, 0x1c, 22] + (FIRST_INVOKE + [0xa1, 3, 6, 0, 0, 0x30, 10, 0xa1, 0, 1])

  lemma FirstRound(d: seq<byte>)
    requires |d| >= 20 && At(d, 3, FIRST_INVOKE)
    ensures CheckFacility(d, 3, AlcatelEcma) == Some(Checked(true, 7, 0))
    ensures var p := Parsed(1, 0, 0, None, []);
      Component(d, 7, 0, UNSET) == Some(Round(Some(p), 15, Structure(Some(Frame(6, 8)), Some(p))))
  {
    var f := FIRST_INVOKE;
    AtIs(d, 3, f);
    assert f[0] == d[3] && f[1] == d[4] && f[2] == d[5] && f[3] == d[6] && f[4] == d[7] && f[5] == d[8];
    assert f[6] == d[9] && f[7] == d[10] && f[8] == d[11] && f[9] == d[12] && f[10] == d[13] && f[11] == d[14];
    assert d[15..15] == [];
    hide At;
  }

  lemma MessageParts(d: seq<byte>, front: seq<byte>, rest: seq<byte>)
    requires d == front + (FIRST_INVOKE + rest) && |front| == 3
    ensures |d| == 15 + |rest| && At(d, 3, FIRST_INVOKE) && At(d, 15, rest)
    ensures forall k :: 0 <= k < 3 ==> d[k] == front[k]
  {
    assert d[0..|d|] == d;
    AtConcat(d, 0, front, FIRST_INVOKE + rest);
    AtConcat(d, 3, FIRST_INVOKE, rest);
  }

  /**
   A message that is never left: the empty invoke at 17 leads back to 15, the end of the invoke
   read at 7, from where the foreign component leads to 17 again.
   */
  lemma MessageNeverLeft()
    ensures CheckFacility(NEVER_LEFT, 3, AlcatelEcma) == Some(Checked(true, 7, 0)) && 3 + NEVER_LEFT[2] as int == 20
    ensures !LoopEnds(NEVER_LEFT, 7, 20, 0, UNSET)
    ensures Indication(NEVER_LEFT, AlcatelEcma) == None
  {
    var d := NEVER_LEFT;
    MessageParts(d, [19, 0x1c, 17], [0x30, 2, 0xa1, 0, 1]);
    hide NEVER_LEFT, At, Component, Advances, LoopEnds, CheckFacility;
    FirstRound(d);
    RoundsForEver(d);
    FacilityEndsExactly(d, 7, 20, 0);
  }

  lemma RoundsForEver(d: seq<byte>)
    requires |d| == 20 && At(d, 3, FIRST_INVOKE) && At(d, 15, [0x30, 2, 0xa1, 0, 1])
    ensures !LoopEnds(d, 7, 20, 0, UNSET)
  {
    var p := Parsed(1, 0, 0, None, []);
    var s := Structure(Some(Frame(6, 8)), Some(p));
    FirstRound(d);
    AtIs(d, 15, [0x30, 2, 0xa1, 0, 1]);
    hide At;
    assert Component(d, 15, 0, s) == Some(Round(None, 17, s));
    EmptyInvokeRepeats(d, 17, 0, s);
    hide Component;
    assert Reaches(d, 17, 17, 0, s) && Reaches(d, 15, 17, 0, s);
    forall n: nat ensures !Ends(d, 7, 20, 0, UNSET, n) {
      if n > 0 {
        NeverEnds(d, 15, 17, 20, 0, s, n - 1);
      }
    }
  }

  /**
   A message that is left although the loop goes back: the component at 15 has an id of the
   wrong type and announces 20 as its end, the empty invoke at 22 leads there, and from 20 the
   loop leaves the facility. The one invoke is handed over twice.
   */
  lemma MessageLeftGoingBack()
    ensures var p := Parsed(1, 0, 0, None, []); Indication(LEFT_GOING_BACK, AlcatelEcma) == Some([p, p])
  {
    var d := LEFT_GOING_BACK;
    MessageParts(d, [24, 0x1c, 22], [0xa1, 3, 6, 0, 0, 0x30, 10, 0xa1, 0, 1]);
    hide LEFT_GOING_BACK, At, Component, Advances, Components, CheckFacility;
    FirstRound(d);
    RoundsGoingBack(d);
  }

  lemma RoundsGoingBack(d: seq<byte>)
    requires |d| == 25 && At(d, 3, FIRST_INVOKE) && At(d, 15, [0xa1, 3, 6, 0, 0, 0x30, 10, 0xa1, 0, 1])
    ensures var p := Parsed(1, 0, 0, None, []);
      Advances(d, 7, 25, 0, UNSET, false) && Components(d, 7, 25, 0, UNSET, false) == ([p, p], 30)
  {
    var p := Parsed(1, 0, 0, None, []);
    var s, t := Structure(Some(Frame(6, 8)), Some(p)), Structure(Some(Frame(3, 16)), Some(p));
    FirstRound(d);
    LaterRounds(d, p);
    hide Component, At, Advances, Components;
    NoComponents(d, 30, 25, 0, t, false);
    ComponentsStep(d, 20, 25, 0, t, false, Round(None, 30, t));
    ComponentsStep(d, 22, 25, 0, t, true, Round(Some(p), 20, t));
    ComponentsStep(d, 16, 25, 0, t, true, Round(None, 22, t));
    ComponentsStep(d, 15, 25, 0, s, false, Round(None, 16, t));
    ComponentsStep(d, 7, 25, 0, UNSET, false, Round(Some(p), 15, s));
    var none: seq<Parsed> := [];
    assert none + none == none && [p] + [] == [p] && [] + [p] == [p] && [p] + [p] == [p, p];
  }

  lemma LaterRounds(d: seq<byte>, p: Parsed)
    requires |d| == 25 && At(d, 15, [0xa1, 3, 6, 0, 0, 0x30, 10, 0xa1, 0, 1])
    ensures var s, t := Structure(Some(Frame(6, 8)), Some(p)), Structure(Some(Frame(3, 16)), Some(p));
      && Component(d, 15, 0, s) == Some(Round(None, 16, t)) && Component(d, 16, 0, t) == Some(Round(None, 22, t))
      && Component(d, 22, 0, t) == Some(Round(Some(p), 20, t)) && Component(d, 20, 0, t) == Some(Round(None, 30, t))
  {
    var f: seq<byte> := [0xa1, 3, 6, 0, 0, 0x30, 10, 0xa1, 0, 1];
    AtIs(d, 15, f);
    assert f[0] == d[15] && f[1] == d[16] && f[2] == d[17] && f[5] == d[20] && f[6] == d[21];
    assert f[7] == d[22] && f[8] == d[23] && f[9] == d[24];
    hide At;
  }

  // ---------------------------------------------------------------- round trip

  function ReceivedInvoke(i: Invoke, v: Variant, apdu: int): Parsed
    requires InvokeFits(i, v)
  {
    match Resolve(i.request, v)
    case IntegerOp(n) => Parsed(Received(i.id), apdu, Received(n), None, i.data)
    case OidOp(oid) => Parsed(Received(i.id), apdu, if |oid| == 4 then oid[3] else -1, Some(oid), i.data)
  }

  ghost function ReceivedInvokes(invokes: seq<Invoke>, v: Variant, apdu: int): seq<Parsed>
    requires InvokesFit(invokes, v)
  {
    if invokes == [] then [] else [ReceivedInvoke(invokes[0], v, apdu)] + ReceivedInvokes(invokes[1..], v, apdu)
  }

  lemma ComponentOfInvoke(d: seq<byte>, at: nat, i: Invoke, v: Variant, apdu: int, s: Structure)
    requires InvokeFits(i, v) && |InvokeBody(i, v)| <= 255 && At(d, at, EncodeInvoke(i, v))
    ensures var p, next := ReceivedInvoke(i, v, apdu), at + |EncodeInvoke(i, v)|;
      Component(d, at, apdu, s) == Some(Round(Some(p), next, Structure(Some(Frame(|InvokeBody(i, v)|, at + 1)), Some(p))))
  {
    var op := Resolve(i.request, v);
    var a, b := EncodeInteger(i.id), EncodeOperation(op);
    InvokeParts(d, at, i, v);
    hide EncodeInteger, EncodeOperation, OperationFits, FillInvoke, GetInteger, Resolve, At;
    var id := InvokeId(Received(i.id), |InvokeBody(i, v)|, at + 1, at + 2 + |a|);
    assert GetInvokeId(d, at + 1) == Some(Found(id));
    FillOfOperation(d, id, op, i.data, apdu, s.invoke);
  }

  /** What a printed invoke consists of: its frame, its id as read, its operation and its data */
  lemma InvokeParts(d: seq<byte>, at: nat, i: Invoke, v: Variant)
    requires InvokeFits(i, v) && |InvokeBody(i, v)| <= 255 && At(d, at, EncodeInvoke(i, v))
    ensures at + 4 <= |d| && d[at] == COMP_TYPE_INVOKE && d[at + 1] as int == |InvokeBody(i, v)| > 0
    ensures d[at + 2] == ASN1_INTEGER
    ensures var k, op := at + 2 + |EncodeInteger(i.id)|, EncodeOperation(Resolve(i.request, v));
      GetInteger(d, at + 3) == Some((Received(i.id), k)) && At(d, k, op) && At(d, k + |op|, i.data)
  {
    InvokeStands(d, at, i, v);
    assert |InvokeBody(i, v)| > 0;
    hide EncodeInteger, EncodeOperation, OperationFits, GetInteger, Resolve, InvokeBody, EncodeInvoke, At;
    PairStands(d, at, COMP_TYPE_INVOKE, Low(|InvokeBody(i, v)|));
    IntegerStands(d, at + 2, i.id);
  }

  lemma PairStands(d: seq<byte>, at: nat, a: byte, b: byte)
    requires At(d, at, [a, b])
    ensures at + 2 <= |d| && d[at] == a && d[at + 1] == b
  {
    var w := d[at..at + 2];
    assert w[0] == a && w[1] == b;
  }

  lemma IntegerStands(d: seq<byte>, at: nat, n: int)
    requires IntegerFits(n) && At(d, at, EncodeInteger(n))
    ensures at + 3 <= |d| && d[at] == ASN1_INTEGER
    ensures GetInteger(d, at + 1) == Some((Received(n), at + |EncodeInteger(n)|))
  {
    hide Received, GetInteger;
    IntegerRoundTrip(d, at, n);
  }

  lemma InvokeStands(d: seq<byte>, at: nat, i: Invoke, v: Variant)
    requires InvokeFits(i, v) && At(d, at, EncodeInvoke(i, v))
    ensures var a, op := EncodeInteger(i.id), EncodeOperation(Resolve(i.request, v));
      At(d, at, [COMP_TYPE_INVOKE, Low(|InvokeBody(i, v)|)]) && At(d, at + 2, a)
      && At(d, at + 2 + |a|, op) && At(d, at + 2 + |a| + |op|, i.data)
  {
    hide EncodeInteger, EncodeOperation, OperationFits, Resolve, At;
    var a, op := EncodeInteger(i.id), EncodeOperation(Resolve(i.request, v));
    AtConcat(d, at, [COMP_TYPE_INVOKE, Low(|InvokeBody(i, v)|)], a + op + i.data);
    AtConcat(d, at + 2, a + op, i.data);
    AtConcat(d, at + 2, a, op);
  }

  lemma FillOfOperation(d: seq<byte>, id: InvokeId, op: Operation, data: seq<byte>, apdu: int, stale: Option<Parsed>)
    requires OperationFits(op)
    requires At(d, id.idx, EncodeOperation(op)) && At(d, id.idx + |EncodeOperation(op)|, data)
    requires id.len + id.offset + 1 == id.idx + |EncodeOperation(op)| + |data|
    ensures FillInvoke(d, id, apdu, stale) == Some((
      match op
      case IntegerOp(n) => Parsed(id.id, apdu, Received(n), None, data)
      case OidOp(oid) => Parsed(id.id, apdu, if |oid| == 4 then oid[3] else -1, Some(oid), data),
      id.len + id.offset + 1))
  {
    match op
    case IntegerOp(n) => IntegerRoundTrip(d, id.idx, n);
    case OidOp(oid) =>
      AtConcat(d, id.idx, [ASN1_OBJECTIDENTIFIER, |oid|], oid);
      AtIs(d, id.idx, [ASN1_OBJECTIDENTIFIER, |oid|]);
  }

  lemma {:induction false} ComponentsOfInvokes(d: seq<byte>, at: nat, invokes: seq<Invoke>, v: Variant, apdu: int, s: Structure)
    requires InvokesFit(invokes, v) && At(d, at, EncodeInvokes(invokes, v))
    requires |EncodeInvokes(invokes, v)| <= 257 && s.Behind(at)
    ensures var end := at + |EncodeInvokes(invokes, v)|;
      Advances(d, at, end, apdu, s, false)
      && Components(d, at, end, apdu, s, false) == (ReceivedInvokes(invokes, v, apdu), end)
    decreases |invokes|
  {
    hide EncodeInvoke, InvokeBody, ReceivedInvoke, Component, Advances, Components, At, InvokeFits;
    var end := at + |EncodeInvokes(invokes, v)|;
    if invokes == [] {
      NoComponents(d, at, end, apdu, s, false);
    } else {
      var e, rest := EncodeInvoke(invokes[0], v), EncodeInvokes(invokes[1..], v);
      AtConcat(d, at, e, rest);
      ComponentOfInvoke(d, at, invokes[0], v, apdu, s);
      var round := Component(d, at, apdu, s).value;
      ComponentsOfInvokes(d, at + |e|, invokes[1..], v, apdu, round.invoke);
      ComponentsStep(d, at, end, apdu, s, false, round);
    }
  }

  /** The header is accepted and read up to its last byte. */
  lemma HeaderIsAccepted(d: seq<byte>, length: int, facilityLength: int, v: Variant, apdu: byte)
    requires At(d, 0, Header(length, facilityLength, v, apdu)) && apdu <= 2
    ensures d[0] == Low(length) && d[2] == Low(facilityLength)
    ensures CheckFacility(d, 3, v) == Some(Checked(true, HEADER_SIZE, apdu))
  {
    AtConcat(d, 0, [Low(length), FACILITY, Low(facilityLength), ProtocolByte(v)] + NETWORK_EXTENSION, [COMP_TYPE_APDU_INTERP, 0x01, apdu]);
    AtConcat(d, 0, [Low(length), FACILITY, Low(facilityLength), ProtocolByte(v)], NETWORK_EXTENSION);
    AtIs(d, 0, [Low(length), FACILITY, Low(facilityLength), ProtocolByte(v)]);
    AtIs(d, 4, NETWORK_EXTENSION);
    AtIs(d, 12, [COMP_TYPE_APDU_INTERP, 0x01, apdu]);
  }

  /**
   Whatever sequence of invokes is printed behind the header, the parse loop hands over the
   same sequence, each id and integer operation as a signed receiver sees it, and ends
   exactly at the end of the message.
   */
  lemma IndicationOfFacility(invokes: seq<Invoke>, v: Variant, apdu: byte)
    requires InvokesFit(invokes, v) && apdu <= 2 && |Facility(invokes, v, apdu)| <= 256
    ensures var d := Facility(invokes, v, apdu);
      Indication(d, v) == Some(ReceivedInvokes(invokes, v, apdu))
      && 3 + d[2] as int == |d| && d[0] as int == |d| - 1
  {
    hide EncodeInvokes, ReceivedInvokes, Advances, Components, CheckFacility, Header;
    var d, body := Facility(invokes, v, apdu), EncodeInvokes(invokes, v);
    var header := Header(|d| - 1, |d| - 3, v, apdu);
    assert d == header + body;
    assert d[0..|d|] == d;
    AtConcat(d, 0, header, body);
    HeaderIsAccepted(d, |d| - 1, |d| - 3, v, apdu);
    ComponentsOfInvokes(d, HEADER_SIZE, invokes, v, apdu, UNSET);
    assert OneFacility(d, 3, |d|, v) == Some((ReceivedInvokes(invokes, v, apdu), |d|));
  }

  /** An invoke survives the trip unchanged exactly when its numbers avoid the sign bit. */
  lemma ReceivedUnchanged(i: Invoke, v: Variant, apdu: int)
    requires InvokeFits(i, v)
    ensures var p := ReceivedInvoke(i, v, apdu);
      p.data == i.data
      && (p.id == i.id <==> i.id <= 127 || 256 <= i.id <= 32767)
      && match Resolve(i.request, v)
         case IntegerOp(n) => p.oid == None && (p.n == n <==> n <= 127 || 256 <= n <= 32767)
         case OidOp(oid) => p.oid == Some(oid)
  {
  }

  /** s stands in d from index at on. */
  predicate At(d: seq<byte>, at: nat, s: seq<byte>) {
    at + |s| <= |d| && d[at..at + |s|] == s
  }

  lemma AtConcat(d: seq<byte>, at: nat, s: seq<byte>, t: seq<byte>)
    ensures At(d, at, s + t) <==> At(d, at, s) && At(d, at + |s|, t)
  {
    var m := at + |s|;
    if m + |t| <= |d| {
      var w := d[at..m + |t|];
      assert w == d[at..m] + d[m..m + |t|];
      assert w[..|s|] == d[at..m] && w[|s|..] == d[m..m + |t|];
      assert (s + t)[..|s|] == s && (s + t)[|s|..] == t;
    }
  }

  lemma AtIs(d: seq<byte>, at: nat, s: seq<byte>)
    requires At(d, at, s)
    ensures forall k :: 0 <= k < |s| ==> d[at + k] == s[k]
  {
    forall k | 0 <= k < |s| ensures d[at + k] == s[k] {
      assert d[at..at + |s|][k] == d[at + k];
    }
  }

  lemma PatchHeader(a: int, b: int, x: int, y: int, v: Variant, apdu: byte, rest: seq<byte>)
    requires x == HEADER_SIZE + |rest| - 1 && y == x - 2
    ensures Patched(Header(a, b, v, apdu) + rest) == Header(x, y, v, apdu) + rest
  {
    var front: seq<byte> := [Low(a), FACILITY, Low(b), ProtocolByte(v)];
    var tail := NETWORK_EXTENSION + [COMP_TYPE_APDU_INTERP, 0x01, apdu] + rest;
    assert Header(a, b, v, apdu) + rest == front + tail;
    assert front[0 := Low(x)][2 := Low(y)] == [Low(x), FACILITY, Low(y), ProtocolByte(v)];
    assert Header(x, y, v, apdu) + rest == [Low(x), FACILITY, Low(y), ProtocolByte(v)] + tail;
  }

  /** A header, whatever lengths it holds, with these invokes behind it */
  ghost predicate Printed(text: seq<byte>, invokes: seq<Invoke>, v: Variant, apdu: byte) {
    InvokesFit(invokes, v) && exists a: int, b: int :: text == Header(a, b, v, apdu) + EncodeInvokes(invokes, v)
  }

  lemma GrowHeaderAndInvokes(a: int, b: int, invokes: seq<Invoke>, i: Invoke, v: Variant, apdu: byte)
    requires InvokesFit(invokes, v) && InvokeFits(i, v)
    ensures InvokesFit(invokes + [i], v)
    ensures Patched(Header(a, b, v, apdu) + EncodeInvokes(invokes, v) + EncodeInvoke(i, v)) == Facility(invokes + [i], v, apdu)
  {
    hide *;
    var es, e := EncodeInvokes(invokes, v), EncodeInvoke(i, v);
    AllFit(invokes, i, v);
    EncodeInvokesSnoc(invokes, i, v);
    Associate(Header(a, b, v, apdu), es, e);
    var n := HEADER_SIZE + |es + e|;
    PatchHeader(a, b, n - 1, n - 3, v, apdu, es + e);
    FacilityText(invokes + [i], v, apdu);
  }

  lemma AllFit(invokes: seq<Invoke>, i: Invoke, v: Variant)
    requires InvokesFit(invokes, v) && InvokeFits(i, v)
    ensures InvokesFit(invokes + [i], v)
  {
  }

  lemma FacilityText(invokes: seq<Invoke>, v: Variant, apdu: byte)
    requires InvokesFit(invokes, v)
    ensures var n := HEADER_SIZE + |EncodeInvokes(invokes, v)|;
      Facility(invokes, v, apdu) == Header(n - 1, n - 3, v, apdu) + EncodeInvokes(invokes, v)
  {
  }

  /** Patching both lengths after another invoke gives the facility of the longer sequence. */
  lemma PrintedGrows(text: seq<byte>, invokes: seq<Invoke>, i: Invoke, v: Variant, apdu: byte)
    requires Printed(text, invokes, v, apdu) && InvokeFits(i, v)
    ensures |text| >= HEADER_SIZE && InvokesFit(invokes + [i], v)
    ensures Patched(text + EncodeInvoke(i, v)) == Facility(invokes + [i], v, apdu)
    ensures Printed(Facility(invokes + [i], v, apdu), invokes + [i], v, apdu)
  {
    hide Header, EncodeInvokes, EncodeInvoke, Patched, InvokeFits;
    var a: int, b: int :| text == Header(a, b, v, apdu) + EncodeInvokes(invokes, v);
    GrowHeaderAndInvokes(a, b, invokes, i, v, apdu);
  }

  lemma HeaderIsPrinted(text: seq<byte>, a: int, b: int, v: Variant, apdu: byte)
    requires text == Header(a, b, v, apdu)
    ensures Printed(text, [], v, apdu)
  {
    assert text + [] == text;
  }

  /** Room for the longest operation of every invoke and for its data */
  function Room(invokes: seq<Invoke>): nat {
    if invokes == [] then 0 else 10 + MAX_OID + |invokes[0].data| + Room(invokes[1..])
  }

  lemma InvokeInRoom(i: Invoke, v: Variant)
    requires InvokeFits(i, v)
    ensures |EncodeInvoke(i, v)| <= 10 + MAX_OID + |i.data|
  {
    hide EncodeInteger, EncodeOperation;
  }

  /**
   The header and any number of invokes, as the callers print them. The header alone carries
   lengths that are one too large; the first invoke corrects them.
   */
  method PrintFacility(buf: array<byte>, invokes: seq<Invoke>, v: Variant, apdu: byte) returns (ok: bool, idx: nat)
    requires HEADER_SIZE + Room(invokes) <= buf.Length
    modifies buf
    ensures ok <==> InvokesFit(invokes, v)
    ensures ok ==> idx <= buf.Length
    ensures ok && invokes != [] ==> buf[..idx] == Facility(invokes, v, apdu)
    ensures invokes == [] ==> buf[..idx] == Header(HEADER_SIZE, HEADER_SIZE - 2, v, apdu)
  {
    ok := true;
    idx := BuildFacility(buf, v, apdu);
    HeaderIsPrinted(buf[..idx], HEADER_SIZE, HEADER_SIZE - 2, v, apdu);
    var k := 0;
    assert invokes[0..] == invokes;
    while k < |invokes|
      invariant 0 <= k <= |invokes| && HEADER_SIZE <= idx && idx + Room(invokes[k..]) <= buf.Length
      invariant Printed(buf[..idx], invokes[..k], v, apdu)
      invariant k == 0 ==> buf[..idx] == Header(HEADER_SIZE, HEADER_SIZE - 2, v, apdu)
      invariant k > 0 ==> buf[..idx] == Facility(invokes[..k], v, apdu)
    {
      hide EncodeInvokes, EncodeInvoke, Header, InvokeFits, Facility, Patched;
      ghost var text := buf[..idx];
      assert invokes[k..][0] == invokes[k] && invokes[k..][1..] == invokes[k + 1..];
      ok, idx := AddInvoke(buf, idx, invokes[k], v);
      if !ok {
        return;
      }
      InvokeInRoom(invokes[k], v);
      PrintedGrows(text, invokes[..k], invokes[k], v, apdu);
      assert invokes[..k + 1] == invokes[..k] + [invokes[k]];
      hide Printed;
      k := k + 1;
    }
    assert invokes[..k] == invokes;
  }
}
