/**
 Two ECMA operations on top of the facility coder: name presentation (ECMA-164) and the
 path-replacement proposal, each encoded into an invoke and decoded from a parsed one.
 */
module QsigEcma {
  import opened Bytes
  import opened Common
  import opened QsigCore

  const ASN1_OCTETSTRING: byte := 0x04
  const ASN1_NUMERICSTRING: byte := 0x12
  const ASN1_CONSTRUCTED_SEQUENCE: byte := 0x30
  const ASN1_TC_CONTEXTSPEC: byte := 0x80
  const NAME_SIZE: nat := 50

  // ---------------------------------------------------------------- operations

  datatype Ident = NamePresentation | PathReplacement | CallTransferComplete | LegInformation2 | Unidentified

  /** ident_qsig_invoke */
  function IdentOf(n: int): Ident {
    if 0 <= n <= 3 then NamePresentation
    else if n == 4 then PathReplacement
    else if n == 12 then CallTransferComplete
    else if n == 21 then LegInformation2
    else Unidentified
  }

  /** cc_qsig_identifyinvoke: an integer, or an object identifier below 1.3.12.9 */
  function Identify(p: Parsed): Ident {
    match p.oid
    case None => IdentOf(p.n)
    case Some(oid) =>
      if |oid| == 4 && oid[..3] == [0x2b, 0x0c, 0x09] then IdentOf(oid[3] as int) else Unidentified
  }

  /** cc_qsig_asn1_get_string; None where it would read behind the data */
  function GetString(d: seq<byte>, at: nat, buflen: nat): (r: Option<seq<byte>>)
    requires buflen > 0
    ensures r.Some? ==> |r.value| <= buflen
  {
    if at >= |d| then None else
    var size: nat := if d[at] > buflen then buflen - 1 else d[at];
    if at + 1 + size > |d| then None else Some(d[at + 1..at + 1 + size])
  }

  // ---------------------------------------------------------------- names

  function FirstBytes(s: seq<byte>, n: nat): (r: seq<byte>)
    ensures |r| <= n && r <= s
    ensures |s| <= n ==> r == s
  {
    if |s| > n then s[..n] else s
  }

  /** The name to send: the given one cut to 50 bytes, else the interface's, else none */
  function ChosenName(name: seq<byte>, interfaceName: seq<byte>): seq<byte> {
    if name == [] then interfaceName else FirstBytes(name, NAME_SIZE)
  }

  /** cc_qsig_encode_ecma_name_invoke; only a given name is cut, so without one the interface's must fit its buffer. */
  method EncodeName(nameType: nat, name: seq<byte>, interfaceName: seq<byte>) returns (i: Invoke)
    requires name == [] ==> |interfaceName| <= NAME_SIZE
    ensures i == NameInvoke(nameType, ChosenName(name, interfaceName))
  {
    var namebuf := [];
    if |name| < 1 {
      if |interfaceName| >= 1 {
        namebuf := interfaceName;
      }
    } else {
      namebuf := FirstBytes(name, NAME_SIZE);
    }
    var data: seq<byte>;
    if |namebuf| > 0 {
      data := [0x80, |namebuf|] + namebuf;
    } else {
      data := [0x84, 0];
    }
    i := Invoke(1, ByDialect(nameType % 4), data);
  }

  function NameInvoke(nameType: nat, name: seq<byte>): Invoke
    requires |name| <= NAME_SIZE
  {
    Invoke(1, ByDialect(nameType % 4), if name == [] then [0x84, 0] else [0x80, |name|] + name)
  }

  /** cc_qsig_asn197no_get_name: the empty name stands for none. */
  function GetName(d: seq<byte>): Option<seq<byte>> {
    if |d| == 0 then None else
    var tag := d[0];
    if tag == ASN1_CONSTRUCTED_SEQUENCE then
      if |d| <= 2 then None else GetString(d, 3, NAME_SIZE)
    else if tag < 0x80 then GetString(d, 1, NAME_SIZE)
    else
      var nameType := tag % 16;
      if nameType == 0 || nameType == 2 then GetString(d, 1, NAME_SIZE)
      else if nameType == 1 || nameType == 3 then
        if |d| <= 2 then None
        else if d[2] != ASN1_OCTETSTRING then Some([])
        else
          (match GetString(d, 3, NAME_SIZE)
           case None => None
           case Some(name) =>
             var at := 3 + |name| + 1;
             if at >= |d| || (d[at] == ASN1_INTEGER && GetInteger(d, at + 1).None?) then None else Some(name))
      else Some([])
  }

  // ---------------------------------------------------------------- path replacement

  /** cc_qsig_asn1_add_string2 with a limit of 20 bytes; the room is checked against the uncut string. */
  function AddString(tag: byte, s: seq<byte>, room: int): Option<seq<byte>> {
    if room < 2 + |s| then None else Some([tag, |FirstBytes(s, 20)|] + FirstBytes(s, 20))
  }

  /** cc_qsig_encode_ecma_prpropose; None when a string does not fit the 255-byte work area */
  function EncodeProposal(callId: seq<byte>, number: seq<byte>): Option<seq<byte>> {
    match AddString(ASN1_NUMERICSTRING, callId, 255 - 2)
    case None => None
    case Some(first) =>
      match AddString(ASN1_TC_CONTEXTSPEC, number, 255 - 2 - |first|)
      case None => None
      case Some(second) => Some([ASN1_CONSTRUCTED_SEQUENCE, |first| + |second|] + first + second)
  }

  function ProposalInvoke(data: seq<byte>): Invoke {
    Invoke(4, ByDialect(4), data)
  }

  datatype Proposal = Rejected | Proposal(callId: seq<byte>, number: seq<byte>)

  /**
   cc_qsig_op_ecma_isdn_prpropose. None also where a string exactly as long as its buffer has
   its terminator written behind the buffer.
   */
  function DecodeProposal(d: seq<byte>): Option<Proposal> {
    if |d| == 0 then None
    else if d[0] != ASN1_CONSTRUCTED_SEQUENCE then Some(Rejected)
    else if |d| < 2 then None
    else if |d| < d[1] as int + 1 then Some(Rejected)
    else if |d| < 3 then None
    else if d[2] != ASN1_NUMERICSTRING then Some(Rejected)
    else
      match GetString(d, 3, 5)
      case None => None
      case Some(callId) =>
        if |callId| == 5 then None else
        var at := 3 + |callId| + 1;
        if at >= |d| then None
        else if d[at] != ASN1_TC_CONTEXTSPEC then Some(Rejected)
        else
          match GetString(d, at + 1, 21)
          case None => None
          case Some(number) =>
            if |number| == 21 then None
            else if number == [] then Some(Rejected)
            else Some(Proposal(callId, number))
  }

  /** A string behind its length byte is read whole, or cut to one byte less than its buffer. */
  lemma StringIsRead(d: seq<byte>, at: nat, s: seq<byte>, buflen: nat)
    requires 0 < buflen && at + 1 + |s| <= |d| && d[at] as int == |s| && d[at + 1..at + 1 + |s|] == s
    ensures GetString(d, at, buflen) == Some(if |s| > buflen then s[..buflen - 1] else s)
  {
    if |s| > buflen {
      assert d[at + 1..at + 1 + |s|][..buflen - 1] == d[at + 1..at + buflen];
    }
  }

  /** Where the parts of an encoded proposal stand */
  lemma ProposalParts(callId: seq<byte>, number: seq<byte>)
    requires EncodeProposal(callId, number).Some?
    ensures var d := EncodeProposal(callId, number).value; var c, n := FirstBytes(callId, 20), FirstBytes(number, 20);
      |d| == 6 + |c| + |n| && d[0] == ASN1_CONSTRUCTED_SEQUENCE && d[1] as int == |d| - 2
      && d[2] == ASN1_NUMERICSTRING && d[3] as int == |c| && d[4..4 + |c|] == c
      && d[4 + |c|] == ASN1_TC_CONTEXTSPEC && d[5 + |c|] as int == |n| && d[6 + |c|..6 + |c| + |n|] == n
  {
    hide FirstBytes;
    var d := EncodeProposal(callId, number).value;
    var c, n := FirstBytes(callId, 20), FirstBytes(number, 20);
    assert d == [ASN1_CONSTRUCTED_SEQUENCE, 4 + |c| + |n|] + [ASN1_NUMERICSTRING, |c|] + c + ([ASN1_TC_CONTEXTSPEC, |n|] + n);
  }

  lemma ShortCallIdIsRead(callId: seq<byte>, number: seq<byte>)
    requires EncodeProposal(callId, number).Some? && |callId| <= 4
    ensures DecodeProposal(EncodeProposal(callId, number).value)
         == Some(if number == [] then Rejected else Proposal(callId, FirstBytes(number, 20)))
  {
    hide EncodeProposal, GetString;
    var d := EncodeProposal(callId, number).value;
    ProposalParts(callId, number);
    StringIsRead(d, 3, callId, 5);
    StringIsRead(d, 5 + |callId|, FirstBytes(number, 20), 21);
  }

  lemma LongCallIdIsLost(callId: seq<byte>, number: seq<byte>)
    requires EncodeProposal(callId, number).Some? && |callId| > 4
    ensures DecodeProposal(EncodeProposal(callId, number).value) != Some(Proposal(callId, number))
  {
    hide EncodeProposal, GetString;
    var d := EncodeProposal(callId, number).value;
    ProposalParts(callId, number);
    StringIsRead(d, 3, FirstBytes(callId, 20), 5);
  }

  /** A proposal is recovered exactly when the call id fits four bytes and the number is neither empty nor over twenty. */
  lemma ProposalRoundTrip(callId: seq<byte>, number: seq<byte>)
    requires EncodeProposal(callId, number).Some?
    ensures DecodeProposal(EncodeProposal(callId, number).value) == Some(Proposal(callId, number))
       <==> |callId| <= 4 && 1 <= |number| <= 20
  {
    hide EncodeProposal, DecodeProposal;
    if |callId| <= 4 {
      ShortCallIdIsRead(callId, number);
    } else {
      LongCallIdIsLost(callId, number);
    }
  }

  // ---------------------------------------------------------------- the receiving channel

  /** What the two operations leave in the channel and its interface */
  datatype Received = Received(callerName: seq<byte>, dname: seq<byte>, callId: seq<byte>, number: seq<byte>)

  /**
   The effect of one handled invoke, none where a decoder would read behind the data; call
   transfer and leg information are not part of this model.
   */
  function Handle(r: Received, p: Parsed): Received {
    match Identify(p)
    case NamePresentation =>
      (match GetName(p.data)
       case None => r
       case Some(name) =>
         if name == [] then r
         else if p.n == 0 then r.(callerName := name)
         else if 1 <= p.n <= 3 then r.(dname := name)
         else r)
    case PathReplacement =>
      (match DecodeProposal(p.data)
       case Some(Proposal(callId, number)) => r.(callId := callId, number := number)
       case _ => r)
    case _ => r
  }

  function HandleAll(r: Received, ps: seq<Parsed>): Received
    decreases |ps|
  {
    if ps == [] then r else HandleAll(Handle(r, ps[0]), ps[1..])
  }

  class Channel {
    var callerName: seq<byte>
    var dname: seq<byte>
    var callId: seq<byte>
    var number: seq<byte>

    ghost function State(): Received
      reads this
    {
      Received(callerName, dname, callId, number)
    }

    /** cc_qsig_op_ecma_isdn_namepres */
    method OnNamePresentation(p: Parsed)
      requires Identify(p) == NamePresentation
      modifies this
      ensures State() == Handle(old(State()), p)
    {
      match GetName(p.data)
      case None =>
      case Some(name) =>
        if |name| == 0 {
          return;
        }
        match p.n {
          case 0 => callerName := name;
          case 1 => dname := name;
          case 2 => dname := name;
          case 3 => dname := name;
          case _ =>
        }
    }

    /** cc_qsig_op_ecma_isdn_prpropose */
    method OnProposal(p: Parsed)
      requires Identify(p) == PathReplacement
      modifies this
      ensures State() == Handle(old(State()), p)
    {
      match DecodeProposal(p.data) {
        case Some(Proposal(c, n)) =>
          callId := c;
          number := n;
        case _ =>
      }
    }

    /** A facility indication: every invoke goes to its operation. */
    method OnIndication(d: seq<byte>, v: Variant)
      requires Indication(d, v).Some?
      modifies this
      ensures State() == HandleAll(old(State()), Indication(d, v).value)
    {
      var ps := HandleIndication(d, v);
      var k := 0;
      assert ps[0..] == ps;
      while k < |ps|
        invariant 0 <= k <= |ps|
        invariant HandleAll(State(), ps[k..]) == HandleAll(old(State()), ps)
      {
        assert ps[k..][0] == ps[k] && ps[k..][1..] == ps[k + 1..];
        match Identify(ps[k]) {
          case NamePresentation => OnNamePresentation(ps[k]);
          case PathReplacement => OnProposal(ps[k]);
          case _ =>
        }
        k := k + 1;
      }
    }
  }

  // ---------------------------------------------------------------- end to end

  /** What is parsed from a facility that was printed with one invoke */
  ghost function Delivered(i: Invoke, v: Variant): Option<seq<Parsed>> {
    if InvokesFit([i], v) then Indication(Facility([i], v, 0), v) else None
  }

  /** An invoke whose operation the dialect chooses arrives as that operation with its data. */
  lemma SingleInvokeArrives(id: nat, n: nat, data: seq<byte>, v: Variant) returns (p: Parsed)
    requires id <= 127 && n <= 127 && |data| <= 230
    ensures Delivered(Invoke(id, ByDialect(n), data), v) == Some([p])
    ensures p.data == data && p.n == n && Identify(p) == IdentOf(n)
  {
    var i := Invoke(id, ByDialect(n), data);
    SingleFits(i, v);
    IndicationOfFacility([i], v, 0);
    p := ReceivedInvoke(i, v, 0);
    assert ReceivedInvokes([i], v, 0) == [p];
    IdentifyReceived(i, v);
  }

  lemma SingleFits(i: Invoke, v: Variant)
    requires i.request.ByDialect? && 0 <= i.request.n <= 127 && 0 <= i.id <= 127 && |i.data| <= 230
    ensures InvokesFit([i], v) && |Facility([i], v, 0)| <= 256
  {
    assert EncodeInvokes([i], v) == EncodeInvoke(i, v);
  }

  lemma IdentifyReceived(i: Invoke, v: Variant)
    requires i.request.ByDialect? && 0 <= i.request.n <= 127 && InvokeFits(i, v)
    ensures var p := ReceivedInvoke(i, v, 0); p.n == i.request.n && Identify(p) == IdentOf(i.request.n)
  {
  }

  lemma GetNameOfSimpleName(name: seq<byte>)
    requires |name| <= NAME_SIZE
    ensures GetName(NameInvoke(0, name).data) == Some(name)
  {
    var d := NameInvoke(0, name).data;
    if name != [] {
      assert d[2..2 + |name|] == name;
    }
  }

  lemma NameBehind(front: seq<byte>, name: seq<byte>, rest: seq<byte>)
    requires |name| <= 50 && front != [] && front[|front| - 1] as int == |name|
    ensures GetString(front + name + rest, |front| - 1, NAME_SIZE) == Some(name)
  {
    var d := front + name + rest;
    assert d[|front|..|front| + |name|] == name;
    StringIsRead(d, |front| - 1, name, NAME_SIZE);
  }

  /**
   A name of up to 50 bytes is read from each of its forms: a plain string, a simple name, a
   name set with its character set, and a name in a sequence. All other tags stand for no name.
   */
  lemma GetNameOfEveryForm(name: seq<byte>, tag: byte, size: byte, charset: byte)
    requires |name| <= 50
    ensures tag < 0x80 && tag != 0x30 ==> GetName([tag, |name|] + name + []) == Some(name)
    ensures tag >= 0x80 && (tag % 16 == 0 || tag % 16 == 2) ==> GetName([tag, |name|] + name + []) == Some(name)
    ensures tag >= 0x80 && (tag % 16 == 1 || tag % 16 == 3) ==>
      GetName([tag, size, 0x04, |name|] + name + [0x02, 1, charset]) == Some(name)
    ensures GetName([0x30, size, tag, |name|] + name + []) == Some(name)
    ensures tag >= 0x80 && tag % 16 > 3 ==> GetName([tag, |name|] + name + []) == Some([])
  {
    hide GetString, GetInteger;
    NameBehind([tag, |name|], name, []);
    NameBehind([0x30, size, tag, |name|], name, []);
    SetIsRead(name, tag, size, charset);
  }

  lemma SetIsRead(name: seq<byte>, tag: byte, size: byte, charset: byte)
    requires |name| <= 50
    ensures tag >= 0x80 && (tag % 16 == 1 || tag % 16 == 3) ==>
      GetName([tag, size, 0x04, |name|] + name + [0x02, 1, charset]) == Some(name)
  {
    var d := [tag, size, 0x04, |name|] + name + [0x02, 1, charset];
    NameBehind([tag, size, 0x04, |name|], name, [0x02, 1, charset]);
    var at := 4 + |name|;
    assert d[at] == 0x02 && d[at + 1] == 1 && d[at + 2] == charset && |d| == at + 3;
    hide GetString;
  }

  /** The name the receiver stores for a type: 0 is the caller's, 1 to 3 the destination's. */
  function WithName(r: Received, nameType: nat, name: seq<byte>): Received {
    if name == [] then r
    else if nameType % 4 == 0 then r.(callerName := name)
    else r.(dname := name)
  }

  /**
   In either dialect the receiver stores the first 50 bytes of a given name; without one the
   interface's name arrives, and without that the receiver is left alone.
   */
  lemma NameArrives(nameType: nat, name: seq<byte>, interfaceName: seq<byte>, v: Variant, r: Received)
    requires name == [] ==> |interfaceName| <= NAME_SIZE
    ensures var ps := Delivered(NameInvoke(nameType, ChosenName(name, interfaceName)), v);
      ps.Some? && HandleAll(r, ps.value)
        == WithName(r, nameType, if name != [] then FirstBytes(name, 50) else interfaceName)
  {
    hide Delivered;
    var chosen := ChosenName(name, interfaceName);
    var i := NameInvoke(nameType, chosen);
    var p := SingleInvokeArrives(1, nameType % 4, i.data, v);
    GetNameOfSimpleName(chosen);
    hide GetName;
    assert HandleAll(r, [p]) == Handle(r, p);
  }

  /** A path-replacement proposal within the limits reaches the receiving interface unchanged. */
  lemma ProposalArrives(callId: seq<byte>, number: seq<byte>, v: Variant, r: Received)
    requires |callId| <= 4 && 1 <= |number| <= 20
    ensures EncodeProposal(callId, number).Some?
    ensures var ps := Delivered(ProposalInvoke(EncodeProposal(callId, number).value), v);
      ps.Some? && HandleAll(r, ps.value) == r.(callId := callId, number := number)
  {
    hide Delivered;
    var data := EncodeProposal(callId, number).value;
    ProposalRoundTrip(callId, number);
    var p := SingleInvokeArrives(4, 4, data, v);
    hide DecodeProposal, EncodeProposal;
    assert HandleAll(r, [p]) == Handle(r, p);
  }

  // ---------------------------------------------------------------- into the facility array

  const FACILITY_ARRAY_SIZE: nat := 300

  /** One invoke of these operations leaves room in the array every caller passes. */
  lemma FitsFacilityArray(i: Invoke)
    requires |i.data| <= 255
    ensures HEADER_SIZE + Room([i]) <= FACILITY_ARRAY_SIZE
  {
  }

  /**
   The name of a call: built, encoded and added to an array of the size all callers use. What
   is printed has the receiver store the name.
   */
  method PrintName(buf: array<byte>, nameType: nat, name: seq<byte>, interfaceName: seq<byte>, v: Variant) returns (idx: nat)
    requires buf.Length == FACILITY_ARRAY_SIZE && (name == [] ==> |interfaceName| <= NAME_SIZE)
    modifies buf
    ensures idx <= buf.Length && Indication(buf[..idx], v).Some?
    ensures forall r :: HandleAll(r, Indication(buf[..idx], v).value)
                     == WithName(r, nameType, if name != [] then FirstBytes(name, 50) else interfaceName)
  {
    hide Indication, Facility, HandleAll, WithName, FirstBytes;
    var i := EncodeName(nameType, name, interfaceName);
    FitsFacilityArray(i);
    SingleFits(i, v);
    var ok;
    ok, idx := PrintFacility(buf, [i], v, 0);
    NameArrives(nameType, name, interfaceName, v, Received([], [], [], []));
    forall r: Received
      ensures Indication(buf[..idx], v).Some?
      ensures HandleAll(r, Indication(buf[..idx], v).value)
           == WithName(r, nameType, if name != [] then FirstBytes(name, 50) else interfaceName)
    {
      NameArrives(nameType, name, interfaceName, v, r);
    }
  }

  /** The proposal of a call, in the same array. Strings too long for the work area leave the invoke unset. */
  method PrintProposal(buf: array<byte>, callId: seq<byte>, number: seq<byte>, v: Variant) returns (idx: nat)
    requires buf.Length == FACILITY_ARRAY_SIZE && EncodeProposal(callId, number).Some?
    modifies buf
    ensures idx <= buf.Length && Indication(buf[..idx], v).Some?
    ensures |callId| <= 4 && 1 <= |number| <= 20 ==>
      forall r :: HandleAll(r, Indication(buf[..idx], v).value) == r.(callId := callId, number := number)
  {
    var i := ProposalInvoke(EncodeProposal(callId, number).value);
    FitsFacilityArray(i);
    SingleFits(i, v);
    IndicationOfFacility([i], v, 0);
    hide Indication, Facility, HandleAll, EncodeProposal;
    var ok;
    ok, idx := PrintFacility(buf, [i], v, 0);
    if |callId| <= 4 && 1 <= |number| <= 20 {
      forall r: Received ensures HandleAll(r, Indication(buf[..idx], v).value) == r.(callId := callId, number := number) {
        ProposalArrives(callId, number, v, r);
      }
    }
  }

  // ---------------------------------------------------------------- on the wire

  /** A name "A" of a call in either dialect, byte by byte */
  lemma NameOnTheWire()
    ensures var i := NameInvoke(0, [65]);
      InvokesFit([i], AlcatelEcma) && InvokesFit([i], HicomEcmaV2)
      && Facility([i], AlcatelEcma, 0)
         == [28, 0x1c, 26, 0x91, 0xaa, 6, 0x80, 1, 0, 0x82, 1, 0, 0x8b, 1, 0]
            + [0xa1, 12, 2, 1, 1, 6, 4, 0x2b, 0x0c, 9, 0, 0x80, 1, 65]
      && Facility([i], HicomEcmaV2, 0)
         == [25, 0x1c, 23, 0x9f, 0xaa, 6, 0x80, 1, 0, 0x82, 1, 0, 0x8b, 1, 0]
            + [0xa1, 9, 2, 1, 1, 2, 1, 0, 0x80, 1, 65]
  {
    var i := NameInvoke(0, [65]);
    assert i.data == [0x80, 1, 65];
    hide *;
    InvokeOnTheWire(i);
    FacilityOfOne(i, AlcatelEcma);
    FacilityOfOne(i, HicomEcmaV2);
    HeaderOnTheWire();
  }

  lemma FacilityOfOne(i: Invoke, v: Variant)
    requires InvokeFits(i, v)
    ensures InvokesFit([i], v)
    ensures var e := EncodeInvoke(i, v); Facility([i], v, 0) == Header(14 + |e|, 12 + |e|, v, 0) + e
  {
    hide InvokeFits, Header, EncodeInvoke;
    assert [i][1..] == [];
    assert EncodeInvokes([i], v) == EncodeInvoke(i, v) + [];
  }

  lemma HeaderOnTheWire()
    ensures Header(28, 26, AlcatelEcma, 0) == [28, 0x1c, 26, 0x91, 0xaa, 6, 0x80, 1, 0, 0x82, 1, 0, 0x8b, 1, 0]
    ensures Header(25, 23, HicomEcmaV2, 0) == [25, 0x1c, 23, 0x9f, 0xaa, 6, 0x80, 1, 0, 0x82, 1, 0, 0x8b, 1, 0]
  {
  }

  lemma InvokeOnTheWire(i: Invoke)
    requires i == Invoke(1, ByDialect(0), [0x80, 1, 65])
    ensures InvokeFits(i, AlcatelEcma) && InvokeFits(i, HicomEcmaV2)
    ensures EncodeInvoke(i, AlcatelEcma) == [0xa1, 12, 2, 1, 1, 6, 4, 0x2b, 0x0c, 9, 0, 0x80, 1, 65]
    ensures EncodeInvoke(i, HicomEcmaV2) == [0xa1, 9, 2, 1, 1, 2, 1, 0, 0x80, 1, 65]
  {
    assert EncodeInteger(1) == [2, 1, 1] && EncodeInteger(0) == [2, 1, 0];
    hide EncodeInteger;
  }

  /** Numbers over 255 go out high byte first. */
  lemma TwoByteNumber()
    ensures EncodeInteger(0x1234) == [2, 2, 0x12, 0x34]
  {
  }
}
