/**
 The chat list as the code handles it: one object whose rows and counters the operations
 reassign, loops over the list, and the line-interconnect requests that go out.
 */
module ChatList {
  import opened Bytes
  import opened ChatRows
  import opened Common
  import opened Mixer
  import opened RoomRegistry
  import GroupNames
  import MixerMeaning

  /** A line-interconnect CONNECT request: PLCI, data path and list of records */
  datatype Request = Request(plci: nat, datapath: nat, list: seq<byte>)

  /** The requests sent for the segments of one PLCI; idle segments are skipped. */
  function Requests(plci: nat, segments: seq<Segment>): seq<Request> {
    if segments == [] then []
    else
      var last := segments[|segments| - 1];
      Requests(plci, segments[..|segments| - 1])
      + if last.busy then [Request(plci, last.datapath, last.list)] else []
  }

  /** Every busy segment is sent, in order. */
  lemma {:induction false} RequestsOfBusy(plci: nat, s: seq<Segment>)
    requires forall k :: 0 <= k < |s| ==> s[k].busy
    ensures |Requests(plci, s)| == |s|
    ensures forall k :: 0 <= k < |s| ==> Requests(plci, s)[k] == Request(plci, s[k].datapath, s[k].list)
  {
    if s == [] {
    } else {
      RequestsOfBusy(plci, s[..|s| - 1]);
    }
  }

  /** The others, eight by eight: so many requests, the k-th with the PLCIs of the k-th eight */
  ghost predicate ListsInEights(sent: seq<Request>, plci: nat, datapath: nat, others: seq<Row>) {
    && |sent| == (|others| + 7) / 8
    && forall k :: 0 <= k < |sent| ==> ListsEight(sent[k], plci, datapath, others, k)
  }

  ghost predicate ListsEight(r: Request, plci: nat, datapath: nat, others: seq<Row>, k: nat) {
    && r.plci == plci && r.datapath == datapath
    && var read := MixerMeaning.ReadRecords(r.list);
       read.Some? && 8 * k + |read.value| == (if 8 * k + 8 < |others| then 8 * k + 8 else |others|)
       && forall j :: 0 <= j < |read.value| ==> read.value[j].0 == others[8 * k + j].ifc.plci
  }

  /** CAPI's PLCIs are double words. */
  ghost predicate PlcisFit(rows: seq<Row>) {
    forall r <- rows :: r.ifc.plci < 0x1_0000_0000
  }

  /** The requests of a member reach all others of its room. */
  lemma RequestsReachAll(rows: seq<Row>, number: nat, ifc: Interface, remove: bool)
    requires PlcisFit(rows)
    ensures ListsInEights(Requests(ifc.plci, SegmentsOf(rows, number, ifc, remove)), ifc.plci, DataPath(ifc, remove),
                          Others(rows, 0, number, ifc))
  {
    var others, list := Others(rows, 0, number, ifc), SegmentsOf(rows, number, ifc, remove);
    SegmentsListChunks(rows, 0, number, ifc, remove, |others|);
    hide SegmentsOf, Others, Requests, DataPath, StartsFrom, Records, MainRole, MixerMeaning.ReadRecords;
    RequestsOfBusy(ifc.plci, list);
    assert |list| == (|others| + 7) / 8;
    forall k | 0 <= k < |list| ensures ListsEight(Requests(ifc.plci, list)[k], ifc.plci, DataPath(ifc, remove), others, k) {
      KthReachesEight(rows, number, ifc, remove, k);
    }
  }

  lemma KthReachesEight(rows: seq<Row>, number: nat, ifc: Interface, remove: bool, k: nat)
    requires PlcisFit(rows) && k < |SegmentsOf(rows, number, ifc, remove)|
    ensures var s := SegmentsOf(rows, number, ifc, remove)[k];
      ListsEight(Request(ifc.plci, DataPath(ifc, remove), s.list), ifc.plci, DataPath(ifc, remove), Others(rows, 0, number, ifc), k)
  {
    hide SegmentsOf, Others, DataPath, MixerMeaning.ReadRecords;
    MixerMeaning.KthRequestLists(rows, number, ifc, remove, k);
  }

  /** Some member of the room among the first n rows has a PLCI. */
  predicate AnyPlci(rows: seq<Row>, n: nat, number: nat)
    requires n <= |rows|
  {
    n > 0 && (AnyPlci(rows, n - 1, number) || (rows[n - 1].number == number && rows[n - 1].ifc.plci != 0))
  }

  // ---------------------------------------------------------------- slots of the shared array

  /** The slot of one member: its segments, and idle ones behind them */
  ghost predicate SlotHolds(segments: seq<Segment>, slot: nat, nr: nat, list: seq<Segment>) {
    && slot + nr <= |segments| && |list| <= nr
    && forall j :: slot <= j < slot + nr ==>
         if j < slot + |list| then segments[j] == list[j - slot] else !segments[j].busy
  }

  /** A member whose requests are recorded, with its segments */
  datatype Rebuilt = Rebuilt(plci: nat, list: seq<Segment>)

  function RebuiltRequests(done: seq<Rebuilt>): seq<Request> {
    if done == [] then []
    else
      var last := done[|done| - 1];
      RebuiltRequests(done[..|done| - 1]) + Requests(last.plci, last.list)
  }

  /** What a rebuild records: every member of the room with a PLCI and a segment, once, in list order */
  function Members(rows: seq<Row>, n: nat, number: nat): seq<Rebuilt>
    requires n <= |rows|
  {
    if n == 0 then []
    else
      var ifc := rows[n - 1].ifc;
      var list := SegmentsOf(rows, number, ifc, false);
      Members(rows, n - 1, number)
      + if rows[n - 1].number == number && ifc.plci != 0 && list != [] then [Rebuilt(ifc.plci, list)] else []
  }

  /** The requests of a room: those of each of these members in turn */
  function RoomRequests(rows: seq<Row>, number: nat): seq<Request> {
    RebuiltRequests(Members(rows, |rows|, number))
  }

  /** What the row at j adds to the requests of a room */
  ghost predicate IsPiece(piece: seq<Request>, rows: seq<Row>, number: nat, j: nat)
    requires j < |rows|
  {
    var ifc := rows[j].ifc;
    if rows[j].number == number && ifc.plci != 0
    then ListsInEights(piece, ifc.plci, if ifc.isNull && !ifc.hasLine then 0x30 else 0, Others(rows, 0, number, ifc))
    else piece == []
  }

  /** The requests of a room, member by member in list order: each with a PLCI reaches all others. */
  ghost predicate ReachesEachOther(sent: seq<Request>, rows: seq<Row>, number: nat) {
    exists pieces: seq<seq<Request>> :: |pieces| == |rows| && sent == Flatten(pieces)
      && forall j :: 0 <= j < |rows| ==> IsPiece(pieces[j], rows, number, j)
  }

  lemma {:induction false} FlattenSnoc<T>(ss: seq<seq<T>>, s: seq<T>)
    ensures Flatten(ss + [s]) == Flatten(ss) + s
  {
    if ss == [] {
      assert ([] + [s])[1..] == [];
    } else {
      FlattenSnoc(ss[1..], s);
      assert (ss + [s])[1..] == ss[1..] + [s];
    }
  }

  lemma {:induction false} PiecesOf(rows: seq<Row>, n: nat, number: nat) returns (pieces: seq<seq<Request>>)
    requires n <= |rows| && PlcisFit(rows)
    ensures |pieces| == n && RebuiltRequests(Members(rows, n, number)) == Flatten(pieces)
    ensures forall j :: 0 <= j < n ==> IsPiece(pieces[j], rows, number, j)
  {
    if n == 0 {
      pieces := [];
    } else {
      var before := PiecesOf(rows, n - 1, number);
      var piece := PieceOf(rows, n, number);
      FlattenSnoc(before, piece);
      hide *;
      pieces := before + [piece];
      forall j | 0 <= j < n ensures IsPiece(pieces[j], rows, number, j) {
        assert pieces[j] == if j < n - 1 then before[j] else piece;
      }
    }
  }

  lemma PieceOf(rows: seq<Row>, n: nat, number: nat) returns (piece: seq<Request>)
    requires 0 < n <= |rows| && PlcisFit(rows)
    ensures RebuiltRequests(Members(rows, n, number)) == RebuiltRequests(Members(rows, n - 1, number)) + piece
    ensures IsPiece(piece, rows, number, n - 1)
  {
    var ifc := rows[n - 1].ifc;
    OneMoreMember(rows, n, number);
    RequestsReachAll(rows, number, ifc, false);
    assert DataPath(ifc, false) == if ifc.isNull && !ifc.hasLine then 0x30 else 0;
    piece := if rows[n - 1].number == number && ifc.plci != 0 then Requests(ifc.plci, SegmentsOf(rows, number, ifc, false)) else [];
    hide Requests, SegmentsOf, Others, ListsInEights, RebuiltRequests, Members, DataPath, PlcisFit;
  }

  lemma OneMoreMember(rows: seq<Row>, n: nat, number: nat)
    requires 0 < n <= |rows|
    ensures var ifc := rows[n - 1].ifc; var list := SegmentsOf(rows, number, ifc, false);
      RebuiltRequests(Members(rows, n, number))
      == RebuiltRequests(Members(rows, n - 1, number))
         + if rows[n - 1].number == number && ifc.plci != 0 then Requests(ifc.plci, list) else []
  {
    hide SegmentsOf;
    var ifc := rows[n - 1].ifc;
    var list := SegmentsOf(rows, number, ifc, false);
    var before := Members(rows, n - 1, number);
    if rows[n - 1].number == number && ifc.plci != 0 && list != [] {
      assert (before + [Rebuilt(ifc.plci, list)])[..|before|] == before;
    } else {
      assert Members(rows, n, number) == before;
      assert Requests(ifc.plci, []) == [];
    }
  }

  /** A rebuild sends what every member of the room needs. */
  lemma RoomIsReached(rows: seq<Row>, number: nat)
    requires PlcisFit(rows)
    ensures ReachesEachOther(RoomRequests(rows, number), rows, number)
  {
    hide IsPiece, Flatten, Members, RebuiltRequests;
    var pieces := PiecesOf(rows, |rows|, number);
  }

  /** The offset of the i-th slot in the shared array */
  ghost function SlotAt(i: nat, nr: nat): nat {
    if i == 0 then 0 else SlotAt(i - 1, nr) + nr
  }

  lemma {:induction false} SlotAtIsProduct(i: nat, nr: nat)
    ensures SlotAt(i, nr) == i * nr
  {
    if i == 0 {
    } else {
      SlotAtIsProduct(i - 1, nr);
      assert i * nr == (i - 1) * nr + nr;
    }
  }

  /** Slots do not overlap, and those of n members fit an array of n of them. */
  lemma {:induction false} SlotsFit(i: nat, n: nat, nr: nat)
    requires i < n
    ensures SlotAt(i, nr) + nr <= SlotAt(n, nr)
  {
    if i == n - 1 {
    } else {
      SlotsFit(i, n - 1, nr);
    }
  }

  lemma {:induction false} RequestsIgnoreIdle(plci: nat, segments: seq<Segment>, list: seq<Segment>)
    requires |list| <= |segments|
    requires forall j :: 0 <= j < |segments| ==> if j < |list| then segments[j] == list[j] else !segments[j].busy
    ensures Requests(plci, segments) == Requests(plci, list)
  {
    if |segments| == |list| {
      assert segments == list;
    } else {
      RequestsIgnoreIdle(plci, segments[..|segments| - 1], list);
      assert Requests(plci, segments) == Requests(plci, segments[..|segments| - 1]) + [];
    }
  }

  lemma {:induction false} OthersAtMostMembers(rows: seq<Row>, start: nat, number: nat, ifc: Interface)
    requires start <= |rows|
    ensures |Others(rows, start, number, ifc)| <= Count(rows[start..], number)
    decreases |rows| - start
  {
    if start >= |rows| {
    } else {
      OthersAtMostMembers(rows, start + 1, number, ifc);
      assert rows[start..][1..] == rows[start + 1..];
    }
  }

  /** A member's segments fit the slot computed from the room's size, and all of them are busy. */
  lemma SegmentsFitSlot(rows: seq<Row>, number: nat, ifc: Interface)
    ensures var list := SegmentsOf(rows, number, ifc, false);
      |list| == NrSegments(|Others(rows, 0, number, ifc)|) <= NrSegments(Count(rows, number))
      && forall k :: 0 <= k < |list| ==> list[k].busy
  {
    assert rows[0..] == rows;
    OthersAtMostMembers(rows, 0, number, ifc);
    SegmentsListChunks(rows, 0, number, ifc, false, |Others(rows, 0, number, ifc)|);
  }

  lemma HeldSlice(now: seq<Segment>, base: nat, list: seq<Segment>, n: nat)
    requires exists before: seq<Segment> :: Holds(now, before, base, list, n)
    requires n == |list|
    ensures now[base..base + n] == list
  {
  }

  lemma SetActiveTwice(rows: seq<Row>, active: seq<nat>, number: nat, count: nat)
    requires |active| == |rows|
    ensures SetActive(rows, SetActive(rows, active, number, count), number, count) == SetActive(rows, active, number, count)
  {
  }

  /** What one more row adds to the counts and members of a room */
  lemma OneMoreRow(rows: seq<Row>, room: nat, number: nat)
    requires room < |rows|
    ensures Count(rows[room..], number) == (if rows[room].number == number then 1 else 0) + Count(rows[room + 1..], number)
    ensures AnyPlci(rows, room + 1, number) <==> AnyPlci(rows, room, number) || (rows[room].number == number && rows[room].ifc.plci != 0)
    ensures var list := SegmentsOf(rows, number, rows[room].ifc, false);
      Members(rows, room + 1, number)
      == if rows[room].number == number && rows[room].ifc.plci != 0 && list != []
         then Members(rows, room, number) + [Rebuilt(rows[room].ifc.plci, list)] else Members(rows, room, number)
    ensures rows[room].number == number ==> Contains(rows, number, rows[room].ifc)
  {
    hide SegmentsOf;
    assert Members(rows, room, number) + [] == Members(rows, room, number);
    assert rows[room..][0] == rows[room] && rows[room..][1..] == rows[room + 1..];
  }

  /** The counters after a rebuild: those of the room are right if any of its members has a PLCI. */
  ghost function RebuiltActive(rows: seq<Row>, active: seq<nat>, number: nat): seq<nat>
    requires |active| == |rows|
  {
    if AnyPlci(rows, |rows|, number) then SetActive(rows, active, number, Count(rows, number)) else active
  }

  /** Both halves of a join, one after the other */
  ghost predicate Joins(r: Registry, s: Registry, name: string, ifc: Interface, memberType: MemberType, group: nat) {
    exists mid: Registry :: mid.rows != [] && JoinStarts(r, mid, name, ifc, memberType, group)
                  && Recounts(mid, s, Joining(mid.rows[0].number, ifc))
  }

  /** Both halves of a leave, one after the other */
  ghost predicate Leaves(r: Registry, s: Registry, at: nat) {
    at < |r.rows| && exists mid: Registry :: LeaveStarts(r, mid, at) && Recounts(mid, s, Leaving(r.rows[at].number, r.rows[at].ifc))
  }

  class ChatList {
    var rows: seq<Row>
    var active: seq<nat>

    ghost predicate Valid()
      reads this
    {
      |active| == |rows| && Rooms(rows)
    }

    constructor ()
      ensures Valid() && rows == []
    {
      rows, active := [], [];
    }

    /** The list between two operations, as a state of the registry */
    ghost function View(): Registry
      reads this
    {
      Registry(rows, active, {})
    }

    method CountOthers(number: nat, ifc: Interface) returns (n: nat)
      ensures n == |Others(rows, 0, number, ifc)|
    {
      n := 0;
      var room := 0;
      while room < |rows|
        invariant 0 <= room <= |rows|
        invariant n + |Others(rows, room, number, ifc)| == |Others(rows, 0, number, ifc)|
      {
        if rows[room].number == number && rows[room].ifc != ifc {
          n := n + 1;
        }
        room := room + 1;
      }
    }

    method StoreActive(number: nat, count: nat)
      requires Valid()
      modifies this`active
      ensures Valid() && active == SetActive(rows, old(active), number, count)
    {
      var room := 0;
      while room < |rows|
        invariant 0 <= room <= |rows| == |active|
        invariant forall k :: 0 <= k < |rows| ==>
          active[k] == if k < room && rows[k].number == number then count else old(active[k])
      {
        if rows[room].number == number {
          active := active[room := count];
        }
        room := room + 1;
      }
    }

    /** Sending the segments from base on */
    method SendSegments(plci: nat, segments: array<Segment>, base: nat, count: nat) returns (sent: seq<Request>)
      requires base + count <= segments.Length
      ensures sent == Requests(plci, segments[base..base + count])
    {
      sent := [];
      var nr := 0;
      assert segments[base..base] == [];
      while nr < count
        invariant 0 <= nr <= count && sent == Requests(plci, segments[base..base + nr])
      {
        assert segments[base..base + nr + 1] == segments[base..base + nr] + [segments[base + nr]];
        assert segments[base..base + nr + 1][..nr] == segments[base..base + nr];
        if segments[base + nr].busy {
          sent := sent + [Request(plci, segments[base + nr].datapath, segments[base + nr].list)];
        }
        nr := nr + 1;
      }
    }

    /** The part of update_capi_mixer that fills segments of its own and sends them */
    method SendOwn(remove: bool, number: nat, ifc: Interface, overallFound: nat, expectPlciRemoval: bool) returns (sent: seq<Request>)
      requires overallFound == |Others(rows, 0, number, ifc)|
      ensures sent == if expectPlciRemoval then [] else Requests(ifc.plci, SegmentsOf(rows, number, ifc, remove))
    {
      assert Requests(ifc.plci, []) == [] && NrSegments(0) == 0;
      AllSegmentsCount(rows, number, ifc, remove);
      hide *;
      sent := [];
      var nrSegments := NrSegments(overallFound);
      if nrSegments != 0 {
        var segments := new Segment[nrSegments](_ => Segment(false, 0, []));
        var segmentNr, chatStart := FillSegments(rows, overallFound, segments, 0, remove, number, ifc);
        HeldSlice(segments[..], 0, SegmentsOf(rows, number, ifc, remove), segmentNr);
        assert segments[0..0 + segmentNr] == segments[..][0..segmentNr];
        if !expectPlciRemoval {
          sent := SendSegments(ifc.plci, segments, 0, segmentNr);
        }
      }
    }

    /**
     update_capi_mixer with its own segments: they are sent at once, unless CAPI is going to
     remove the PLCI anyway.
     */
    method UpdateMixer(remove: bool, number: nat, ifc: Interface, expectPlciRemoval: bool) returns (sent: seq<Request>)
      requires Valid()
      modifies this`active
      ensures Valid()
      ensures active == if ifc.plci == 0 then old(active) else Recount(rows, old(active), number, ifc, remove)
      ensures sent == if ifc.plci == 0 || expectPlciRemoval then []
                      else Requests(ifc.plci, SegmentsOf(rows, number, ifc, remove))
      ensures ifc.plci != 0 && !expectPlciRemoval && PlcisFit(rows) ==>
        ListsInEights(sent, ifc.plci, DataPath(ifc, remove), Others(rows, 0, number, ifc))
    {
      hide SetActive, Others, Requests, SegmentsOf, Rooms, ListsInEights, PlcisFit, DataPath;
      sent := [];
      if ifc.plci == 0 {
        return;
      }
      var overallFound := CountOthers(number, ifc);
      StoreActive(number, overallFound + if remove then 0 else 1);
      sent := SendOwn(remove, number, ifc, overallFound, expectPlciRemoval);
      if PlcisFit(rows) {
        RequestsReachAll(rows, number, ifc, remove);
      }
    }

    /** update_capi_mixer into segments of the caller, who holds the lock and sends them later */
    method UpdateMixerInto(number: nat, ifc: Interface, segments: array<Segment>, base: nat)
      requires Valid() && ifc.plci != 0
      requires base + NrSegments(|Others(rows, 0, number, ifc)|) <= segments.Length
      modifies this`active, segments
      ensures Valid() && active == Recount(rows, old(active), number, ifc, false)
      ensures var list := SegmentsOf(rows, number, ifc, false);
        Holds(segments[..], old(segments[..]), base, list, |list|)
    {
      AllSegmentsCount(rows, number, ifc, false);
      var overallFound := CountOthers(number, ifc);
      StoreActive(number, overallFound + 1);
      if NrSegments(overallFound) != 0 {
        var segmentNr, chatStart := FillSegments(rows, overallFound, segments, base, false, number, ifc);
      }
    }

    method CountMembers(number: nat) returns (n: nat)
      ensures n == Count(rows, number)
    {
      n := 0;
      var room := 0;
      assert rows[0..] == rows;
      while room < |rows|
        invariant 0 <= room <= |rows|
        invariant n + Count(rows[room..], number) == Count(rows, number)
      {
        assert rows[room..][1..] == rows[room + 1..];
        if rows[room].number == number {
          n := n + 1;
        }
        room := room + 1;
      }
    }

    method ClearSlot(segments: array<Segment>, slot: nat, nr: nat)
      requires slot + nr <= segments.Length
      modifies segments
      ensures forall j :: 0 <= j < segments.Length && !(slot <= j < slot + nr) ==> segments[j] == old(segments[j])
      ensures forall j :: slot <= j < slot + nr ==> !segments[j].busy
    {
      var k := 0;
      while k < nr
        invariant 0 <= k <= nr
        invariant forall j :: 0 <= j < segments.Length && !(slot <= j < slot + k) ==> segments[j] == old(segments[j])
        invariant forall j :: slot <= j < slot + k ==> !segments[j].busy
      {
        segments[slot + k] := segments[slot + k].(busy := false);
        k := k + 1;
      }
    }

    /** One member of the rebuild: its slot is cleared and filled, all others stay as they are. */
    method RebuildSlot(number: nat, ifc: Interface, segments: array<Segment>, slot: nat, nr: nat)
      requires Valid() && ifc.plci != 0 && nr == NrSegments(Count(rows, number)) && slot + nr <= segments.Length
      modifies this`active, segments
      ensures Valid() && active == Recount(rows, old(active), number, ifc, false)
      ensures SlotHolds(segments[..], slot, nr, SegmentsOf(rows, number, ifc, false))
      ensures forall j :: 0 <= j < segments.Length && !(slot <= j < slot + nr) ==> segments[j] == old(segments[j])
    {
      SegmentsFitSlot(rows, number, ifc);
      ClearSlot(segments, slot, nr);
      ghost var cleared := segments[..];
      UpdateMixerInto(number, ifc, segments, slot);
      assert forall j :: 0 <= j < segments.Length ==> segments[j] == segments[..][j];
      assert forall j :: 0 <= j < segments.Length && !(slot <= j < slot + nr) ==> cleared[j] == old(segments[j]);
    }

    /** The recorded PLCIs and the slots in front of the i-th belong to the same members, one by one. */
    ghost predicate Recorded(segments: seq<Segment>, plcis: seq<nat>, nr: nat, done: seq<Rebuilt>) {
      && |done| <= |plcis|
      && forall j :: 0 <= j < |done| ==> plcis[j] == done[j].plci && SlotHolds(segments, SlotAt(j, nr), nr, done[j].list)
    }

    lemma RecordedAfterSlot(before: seq<Segment>, now: seq<Segment>, plcis: seq<nat>, nr: nat, done: seq<Rebuilt>, i: nat)
      requires |now| == |before| && |done| <= i && Recorded(before, plcis, nr, done)
      requires forall j :: 0 <= j < |now| && !(SlotAt(i, nr) <= j < SlotAt(i, nr) + nr) ==> now[j] == before[j]
      ensures Recorded(now, plcis, nr, done)
    {
      forall j | 0 <= j < |done| ensures SlotHolds(now, SlotAt(j, nr), nr, done[j].list) {
        SlotsFit(j, i, nr);
      }
    }

    lemma OneMoreRecorded(segments: seq<Segment>, plcis: seq<nat>, nr: nat, done: seq<Rebuilt>, r: Rebuilt)
      requires |done| < |plcis| && Recorded(segments, plcis, nr, done)
      requires plcis[|done|] == r.plci && SlotHolds(segments, SlotAt(|done|, nr), nr, r.list)
      ensures Recorded(segments, plcis, nr, done + [r])
    {
    }

    /** The loop over the members of the room: everyone with a PLCI and a peer is recorded with its slot. */
    method RebuildSlots(number: nat, n: nat, nr: nat, segments: array<Segment>, plcis: array<nat>)
      returns (i: nat, ghost done: seq<Rebuilt>)
      requires Valid() && n == Count(rows, number) && nr == NrSegments(n)
      requires plcis.Length == n && segments.Length == SlotAt(n, nr)
      modifies this`active, segments, plcis
      ensures Valid() && i == |done| && Recorded(segments[..], plcis[..], nr, done)
      ensures done == Members(rows, |rows|, number)
      ensures active == RebuiltActive(rows, old(active), number)
    {
      i, done := 0, [];
      var room := 0;
      assert rows[0..] == rows;
      assert Recorded(segments[..], plcis[..], nr, done) && done == Members(rows, 0, number);
      hide *;
      while room < |rows|
        invariant Valid() && 0 <= room <= |rows| && i == |done|
        invariant i + Count(rows[room..], number) <= n
        invariant Recorded(segments[..], plcis[..], nr, done)
        invariant active == if AnyPlci(rows, room, number) then SetActive(rows, old(active), number, n) else old(active)
        invariant done == Members(rows, room, number)
      {
        OneMoreRow(rows, room, number);
        if rows[room].number == number && rows[room].ifc.plci != 0 {
          SetActiveTwice(rows, old(active), number, n);
          i, done := RebuildMember(number, rows[room].ifc, segments, plcis, i, n, nr, done);
        }
        room := room + 1;
      }
    }

    /** The rebuild of a room: the requests of every member with a PLCI, in list order. */
    method UpdateAllMixers(number: nat) returns (sent: seq<Request>)
      requires Valid()
      modifies this`active
      ensures Valid() && sent == RoomRequests(rows, number)
      ensures PlcisFit(rows) ==> ReachesEachOther(sent, rows, number)
      ensures active == RebuiltActive(rows, old(active), number)
    {
      if PlcisFit(rows) {
        RoomIsReached(rows, number);
      }
      hide PlcisFit, ReachesEachOther;
      var n := CountMembers(number);
      var nr := NrSegments(n);
      SlotAtIsProduct(n, nr);
      var segments := new Segment[n * nr](_ => Segment(false, 0, []));
      var plcis := new nat[n](_ => 0);
      var i, done := RebuildSlots(number, n, nr, segments, plcis);
      sent := SendAll(segments, plcis, i, nr, done);
    }

    method RebuildMember(number: nat, ifc: Interface, segments: array<Segment>, plcis: array<nat>, i: nat, n: nat, nr: nat, ghost done: seq<Rebuilt>)
      returns (next: nat, ghost longer: seq<Rebuilt>)
      requires Valid() && ifc.plci != 0 && n == Count(rows, number) && nr == NrSegments(n)
      requires Contains(rows, number, ifc)
      requires i == |done| < n == plcis.Length && segments.Length == SlotAt(n, nr)
      requires Recorded(segments[..], plcis[..], nr, done)
      modifies this`active, segments, plcis
      ensures Valid() && next == |longer| && Recorded(segments[..], plcis[..], nr, longer)
      ensures active == SetActive(rows, old(active), number, n)
      ensures longer == if SegmentsOf(rows, number, ifc, false) == [] then done
                        else done + [Rebuilt(ifc.plci, SegmentsOf(rows, number, ifc, false))]
    {
      ghost var before, list := segments[..], SegmentsOf(rows, number, ifc, false);
      SlotsFit(i, n, nr);
      SegmentsFitSlot(rows, number, ifc);
      RecountIsExact(rows, active, number, ifc, false);
      SlotAtIsProduct(i, nr);
      var slot := i * nr;
      RebuildSlot(number, ifc, segments, slot, nr);
      RecordedAfterSlot(before, segments[..], plcis[..], nr, done, i);
      next, longer := i, done;
      if segments[slot].busy {
        plcis[i] := ifc.plci;
        assert Recorded(segments[..], plcis[..], nr, done);
        next := i + 1;
        longer := done + [Rebuilt(ifc.plci, list)];
        OneMoreRecorded(segments[..], plcis[..], nr, done, Rebuilt(ifc.plci, list));
      }
    }

    method SendSlot(plci: nat, segments: array<Segment>, slot: nat, nr: nat, ghost list: seq<Segment>) returns (sent: seq<Request>)
      requires SlotHolds(segments[..], slot, nr, list)
      ensures sent == Requests(plci, list)
    {
      sent := SendSegments(plci, segments, slot, nr);
      ghost var mine := segments[slot..slot + nr];
      assert forall k :: 0 <= k < nr ==> mine[k] == segments[..][slot + k];
      RequestsIgnoreIdle(plci, mine, list);
    }

    method SendAll(segments: array<Segment>, plcis: array<nat>, i: nat, nr: nat, ghost done: seq<Rebuilt>) returns (sent: seq<Request>)
      requires i == |done| && Recorded(segments[..], plcis[..], nr, done)
      ensures sent == RebuiltRequests(done)
    {
      sent := [];
      var j := 0;
      assert done[..0] == [];
      while j < i
        invariant 0 <= j <= i && sent == RebuiltRequests(done[..j])
      {
        hide SlotHolds, Requests;
        assert plcis[j] == plcis[..][j] == done[j].plci;
        SlotAtIsProduct(j, nr);
        var more := SendSlot(plcis[j], segments, j * nr, nr, done[j].list);
        assert done[..j + 1][..j] == done[..j];
        sent := sent + more;
        j := j + 1;
      }
      assert done[..i] == done;
    }

    /** The number and mode a new row of this name gets */
    method ChooseNumber(name: string) returns (number: nat, mode: RoomMode)
      ensures (number, mode) == NumberAndMode(rows, name, 1)
    {
      number, mode := 1, FullDuplex;
      var room := 0;
      assert rows[0..] == rows;
      while room < |rows|
        invariant 0 <= room <= |rows|
        invariant mode == FullDuplex && NumberAndMode(rows, name, 1) == NumberAndMode(rows[room..], name, number)
      {
        assert rows[room..][1..] == rows[room + 1..];
        if rows[room].name == name {
          number, mode := rows[room].number, rows[room].mode;
          break;
        }
        if rows[room].number >= number {
          number := rows[room].number + 1;
        }
        room := room + 1;
      }
    }

    method ForgetRecent(number: nat)
      modifies this`rows
      ensures rows == ClearRecent(old(rows), number)
    {
      ghost var before := rows;
      var room := 0;
      while room < |rows|
        invariant 0 <= room <= |rows| == |before|
        invariant forall k :: 0 <= k < |rows| ==>
          rows[k] == if k < room && before[k].number == number then before[k].(recent := false) else before[k]
      {
        if rows[room].number == number {
          rows := rows[room := rows[room].(recent := false)];
        }
        room := room + 1;
      }
    }

    /** The part of a join under the list lock */
    method InsertRow(name: string, ifc: Interface, memberType: MemberType, group: nat) returns (number: nat)
      requires Valid() && forall k :: 0 <= k < |rows| && rows[k].name == name ==> rows[k].ifc != ifc
      modifies this
      ensures Valid() && rows == Inserted(old(rows), name, ifc, memberType, group) && active == [0] + old(active)
      ensures number == rows[0].number
    {
      InsertedKeepsRooms(rows, name, ifc, memberType, group);
      var mode;
      number, mode := ChooseNumber(name);
      hide NumberAndMode, ClearRecent;
      ForgetRecent(number);
      rows := [Row(name, number, memberType, mode, ifc, true, group)] + rows;
      active := [0] + active;
    }

    /** add_chat_member: the row, then the requests to the members already there */
    method AddMember(roomName: string, ifc: Interface, memberType: MemberType, group: nat) returns (sent: seq<Request>)
      requires Valid()
      requires forall k :: 0 <= k < |rows| && rows[k].name == GroupNames.StoredName(roomName, group) ==> rows[k].ifc != ifc
      modifies this
      ensures Valid() && rows == Inserted(old(rows), GroupNames.StoredName(roomName, group), ifc, memberType, group)
      ensures active == if ifc.plci == 0 then [0] + old(active) else Recount(rows, [0] + old(active), rows[0].number, ifc, false)
      ensures sent == if ifc.plci == 0 then [] else Requests(ifc.plci, SegmentsOf(rows, rows[0].number, ifc, false))
      ensures ifc.plci != 0 && PlcisFit(rows) ==>
        ListsInEights(sent, ifc.plci, if ifc.isNull && !ifc.hasLine then 0x30 else 0, Others(rows, 0, rows[0].number, ifc))
      ensures ifc.plci != 0 ==> Joins(old(View()), View(), GroupNames.StoredName(roomName, group), ifc, memberType, group)
    {
      ghost var before := View();
      var number := InsertRow(GroupNames.StoredName(roomName, group), ifc, memberType, group);
      ghost var mid := Registry(rows, active, {Joining(number, ifc)});
      sent := UpdateMixer(false, number, ifc, false);
      assert JoinStarts(before, mid, GroupNames.StoredName(roomName, group), ifc, memberType, group);
      if ifc.plci != 0 {
        assert Recounts(mid, View(), Joining(number, ifc)) by {
          assert mid.pending - {Joining(number, ifc)} == {};
        }
      }
    }

    /** del_chat_member; the row is the one of the given room and interface, as its address would tell. */
    method DeleteMember(number: nat, ifc: Interface, expectPlciRemoval: bool) returns (sent: seq<Request>, ghost at: nat)
      requires Valid() && Contains(rows, number, ifc)
      modifies this
      ensures Valid() && at < |old(rows)| && old(rows)[at].number == number && old(rows)[at].ifc == ifc
      ensures rows == Without(old(rows), at)
      ensures active == var kept := Without(old(active), at);
        if ifc.plci == 0 then kept else Recount(rows, kept, number, ifc, true)
      ensures sent == if ifc.plci == 0 || expectPlciRemoval then [] else Requests(ifc.plci, SegmentsOf(rows, number, ifc, true))
      ensures ifc.plci != 0 && !expectPlciRemoval && PlcisFit(rows) ==>
        ListsInEights(sent, ifc.plci, if ifc.hasLine then 0 else if ifc.isNull then 0x30 else 0x0c, Others(rows, 0, number, ifc))
      ensures ifc.plci != 0 ==> Leaves(old(View()), View(), at)
    {
      ghost var before := View();
      var room := 0;
      while !(rows[room].number == number && rows[room].ifc == ifc)
        invariant 0 <= room < |rows|
        invariant forall k :: 0 <= k < room ==> !(rows[k].number == number && rows[k].ifc == ifc)
        decreases |rows| - room
      {
        room := room + 1;
      }
      at := room;
      WithoutKeepsRooms(rows, room);
      rows := rows[..room] + rows[room + 1..];
      active := active[..room] + active[room + 1..];
      ghost var mid := Registry(rows, active, {Leaving(number, ifc)});
      sent := UpdateMixer(true, number, ifc, expectPlciRemoval);
      assert LeaveStarts(before, mid, at);
      if ifc.plci != 0 {
        assert Recounts(mid, View(), Leaving(number, ifc)) by {
          assert mid.pending - {Leaving(number, ifc)} == {};
        }
      }
    }

    /** The row pbx_capi_chat_mute acts on: by name, or because its interface serves the channel */
    predicate Matches(row: Row, roomName: string, hits: set<Interface>) {
      row.name == roomName || row.ifc in hits
    }

    /** pbx_capi_chat_mute: the first matching row names the room; its mode is set and all its requests are rebuilt. */
    method Mute(roomName: string, hits: set<Interface>, mode: RoomMode) returns (r: int, sent: seq<Request>, ghost at: nat)
      requires Valid()
      modifies this
      ensures Valid()
      ensures r == 0 || r == -1
      ensures r == -1 ==> rows == old(rows) && active == old(active) && sent == []
      ensures r == -1 ==> forall k :: 0 <= k < |rows| ==> !Matches(rows[k], roomName, hits)
      ensures r == 0 ==> at < |old(rows)| == |rows| && Matches(old(rows)[at], roomName, hits)
      ensures r == 0 ==> forall k :: 0 <= k < at ==> !Matches(old(rows)[k], roomName, hits)
      ensures r == 0 ==> rows == SetMode(old(rows), old(rows)[at].number, mode)
      ensures r == 0 ==> active == RebuiltActive(rows, old(active), old(rows)[at].number)
      ensures r == 0 ==> sent == RoomRequests(rows, old(rows)[at].number)
      ensures r == 0 && PlcisFit(rows) ==> ReachesEachOther(sent, rows, old(rows)[at].number)
      ensures r == 0 && AnyPlci(rows, |rows|, old(rows)[at].number) ==> Mutes(old(View()), View(), at, mode)
    {
      r, sent, at := -1, [], 0;
      var room := 0;
      while room < |rows|
        invariant 0 <= room <= |rows|
        invariant forall k :: 0 <= k < room ==> !Matches(rows[k], roomName, hits)
      {
        if Matches(rows[room], roomName, hits) {
          at := room;
          sent := MuteRoom(rows[room].number, mode);
          r := 0;
          return;
        }
        room := room + 1;
      }
    }

    method MuteRoom(number: nat, mode: RoomMode) returns (sent: seq<Request>)
      requires Valid()
      modifies this
      ensures Valid() && rows == SetMode(old(rows), number, mode) && sent == RoomRequests(rows, number)
      ensures PlcisFit(rows) ==> ReachesEachOther(sent, rows, number)
      ensures active == RebuiltActive(rows, old(active), number)
    {
      ghost var before := rows;
      SetModeKeepsRooms(rows, number, mode);
      var room := 0;
      while room < |rows|
        invariant 0 <= room <= |rows| == |before| && |active| == |rows|
        invariant forall k :: 0 <= k < |rows| ==>
          rows[k] == if k < room && before[k].number == number then before[k].(mode := mode) else before[k]
        modifies this`rows
      {
        if rows[room].number == number {
          rows := rows[room := rows[room].(mode := mode)];
        }
        room := room + 1;
      }
      assert rows == SetMode(before, number, mode);
      sent := UpdateAllMixers(number);
    }
  }
}
