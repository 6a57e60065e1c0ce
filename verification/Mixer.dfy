/**
 Line-interconnect requests of a chat room. For one member the list of the others is cut into
 segments of eight records by a loop that carries a resume pointer; a mute rebuilds the
 requests of every member into one shared array of segments.
 */
module Mixer {
  import opened Bytes
  import opened ChatRows

  const PLCI_PER_LX_REQUEST: nat := 8

  // ---------------------------------------------------------------- one segment

  datatype Role = Role(memberType: MemberType, mode: RoomMode)

  /** Role and room mode of the main member, as far as its row is found from start on */
  function MainRole(rows: seq<Row>, start: nat, ifc: Interface): Role
    decreases |rows| - start
  {
    if start >= |rows| then Role(Default, FullDuplex)
    else if rows[start].ifc == ifc then Role(rows[start].memberType, rows[start].mode)
    else MainRole(rows, start + 1, ifc)
  }

  /** Bit 0 lets the main member be heard by the listed one, bit 1 the listed one by the main member. */
  function TalkBits(main: Role, row: Row): nat {
    var mainListens, memberListens := Listens(main.memberType, main.mode), Listens(row.memberType, main.mode);
    if mainListens && memberListens then 0
    else if mainListens then 2
    else if memberListens then 1
    else 3
  }

  function NullBits(ifc: Interface): nat {
    if ifc.isNull && !ifc.hasLine then 0x30 else 0
  }

  /** The data path of one record; the last partner that is left gets its data back too. */
  function Destination(main: Role, row: Row, remove: bool, overallFound: nat): nat {
    if !remove then TalkBits(main, row) + NullBits(row.ifc)
    else if overallFound == 1 && !row.ifc.hasLine && !row.ifc.isNull then 0x0c
    else NullBits(row.ifc)
  }

  function Record(plci: nat, destination: nat): (s: seq<byte>)
    ensures |s| == 9
  {
    [8] + DWord(plci) + DWord(destination)
  }

  function Records(main: Role, others: seq<Row>, remove: bool, overallFound: nat): (s: seq<byte>)
    ensures |s| == 9 * |others|
  {
    if others == [] then []
    else Records(main, others[..|others| - 1], remove, overallFound)
         + Record(others[|others| - 1].ifc.plci, Destination(main, others[|others| - 1], remove, overallFound))
  }

  /** The data path of the request itself */
  function DataPath(ifc: Interface, remove: bool): nat {
    if remove then (if ifc.hasLine then 0 else if ifc.isNull then 0x30 else 0x0c)
    else NullBits(ifc)
  }

  /** deffered_chat_capi_message_t; wLen is the length of the list. */
  datatype Segment = Segment(busy: bool, datapath: nat, list: seq<byte>)

  /** The first n others from start on */
  function Listed(rows: seq<Row>, start: nat, number: nat, ifc: Interface, n: nat): (r: seq<Row>)
    ensures |r| <= n
    decreases |rows| - start
  {
    if start >= |rows| || n == 0 then []
    else if IsOther(rows[start], number, ifc) then [rows[start]] + Listed(rows, start + 1, number, ifc, n - 1)
    else Listed(rows, start + 1, number, ifc, n)
  }

  /** The row of the first other after n of them; the length of the list is the null pointer. */
  function Resume(rows: seq<Row>, start: nat, number: nat, ifc: Interface, n: nat): (r: nat)
    requires start <= |rows|
    ensures start <= r <= |rows|
    decreases |rows| - start
  {
    if start == |rows| then start
    else if IsOther(rows[start], number, ifc) then
      if n == 0 then start else Resume(rows, start + 1, number, ifc, n - 1)
    else Resume(rows, start + 1, number, ifc, n)
  }

  /** Without the patch for a single remaining partner the records do not depend on the count. */
  lemma {:induction false} RecordsUnpatched(main: Role, others: seq<Row>, remove: bool, overallFound: nat)
    requires !remove || overallFound != 1
    ensures Records(main, others, remove, overallFound) == Records(main, others, remove, 0)
  {
    if others == [] {
    } else {
      RecordsUnpatched(main, others[..|others| - 1], remove, overallFound);
    }
  }

  lemma SingleRecord(main: Role, row: Row, remove: bool, overallFound: nat)
    ensures Records(main, [row], remove, overallFound)
         == Record(row.ifc.plci, Destination(main, row, remove, overallFound))
  {
    assert [row][..0] == [];
    var r := Record(row.ifc.plci, Destination(main, row, remove, overallFound));
    assert [] + r == r;
  }

  const LIST_SIZE: nat := 254

  /** The data path bits of a listed member, one after the other as they are cleared */
  method ComputeDestination(main: Role, row: Row, remove: bool) returns (dest: nat)
    ensures dest == Destination(main, row, remove, 0)
  {
    dest := if remove then 0 else 3;
    if row.ifc.isNull && !row.ifc.hasLine {
      dest := dest + 0x30;
    }
    if !remove {
      var mainListens := Listens(main.memberType, main.mode);
      var memberListens := Listens(row.memberType, main.mode);
      if mainListens && memberListens {
        dest := dest - 3;
      } else if mainListens {
        dest := dest - 1;
      } else if memberListens {
        dest := dest - 2;
      }
    }
  }

  /** The only record of a removal, before and after its data path is patched */
  lemma PatchedRecord(main: Role, row: Row)
    ensures var before, after := Records(main, [row], true, 0), Records(main, [row], true, 1);
      after == if row.ifc.hasLine then before else before[5 := if !row.ifc.isNull then 0x0c else 0x30]
  {
    SingleRecord(main, row, true, 0);
    SingleRecord(main, row, true, 1);
    hide Records;
  }

  /** The data path of the message; a single remaining partner has its record patched in place. */
  method CompleteSegment(main: Role, ghost listed: seq<Row>, list: seq<byte>, last: Interface,
                         remove: bool, overallFound: nat, ifc: Interface) returns (segment: Segment)
    requires listed != [] && last == listed[|listed| - 1].ifc && list == Records(main, listed, remove, 0)
    requires overallFound == 1 ==> |listed| == 1
    ensures segment == Segment(true, DataPath(ifc, remove), Records(main, listed, remove, overallFound))
  {
    var datapath, patched := 0, list;
    if !remove || overallFound != 1 {
      RecordsUnpatched(main, listed, remove, overallFound);
    } else {
      assert listed == [listed[0]];
      PatchedRecord(main, listed[0]);
    }
    hide Records, Destination;
    if remove {
      if !ifc.hasLine {
        datapath := if !ifc.isNull then 0x0c else 0x30;
      }
      if overallFound == 1 {
        if !last.hasLine {
          patched := patched[5 := if !last.isNull then 0x0c else 0x30];
        }
      }
    }
    if ifc.isNull && !ifc.hasLine {
      if !remove {
        datapath := datapath + 0x30;
      }
    }
    segment := Segment(true, datapath, patched);
  }

  /** One row further down the list */
  lemma ScanStep(rows: seq<Row>, room: nat, number: nat, ifc: Interface, n: nat)
    requires room <= |rows|
    ensures room == |rows| || n == 0 ==> Listed(rows, room, number, ifc, n) == []
    ensures room == |rows| ==> Resume(rows, room, number, ifc, n) == |rows|
    ensures room < |rows| && !IsOther(rows[room], number, ifc) ==>
      Listed(rows, room, number, ifc, n) == Listed(rows, room + 1, number, ifc, n)
      && Resume(rows, room, number, ifc, n) == Resume(rows, room + 1, number, ifc, n)
    ensures room < |rows| && IsOther(rows[room], number, ifc) && n > 0 ==>
      Listed(rows, room, number, ifc, n) == [rows[room]] + Listed(rows, room + 1, number, ifc, n - 1)
      && Resume(rows, room, number, ifc, n) == Resume(rows, room + 1, number, ifc, n - 1)
    ensures room < |rows| && IsOther(rows[room], number, ifc) && n == 0 ==> Resume(rows, room, number, ifc, n) == room
  {
  }

  /** Lists one member: nine bytes, the PLCI and the data path in little-endian order. */
  method AppendRecord(list: seq<byte>, main: Role, row: Row, remove: bool, ghost all: seq<Row>, ghost found: nat)
    returns (longer: seq<byte>)
    requires found < |all| && all[found] == row && list == Records(main, all[..found], remove, 0)
    ensures longer == Records(main, all[..found + 1], remove, 0)
  {
    var dest := ComputeDestination(main, row, remove);
    longer := list + ([8] + DWord(row.ifc.plci) + DWord(dest));
    assert all[..found + 1][..found] == all[..found];
  }

  lemma DropOne<T>(all: seq<T>, k: nat, x: T, rest: seq<T>)
    requires k <= |all| && all[k..] == [x] + rest
    ensures k < |all| && all[k] == x && all[k + 1..] == rest
  {
    assert all[k..][0] == x && all[k..][1..] == rest;
  }

  /** Up to a row, the first of those to list have been found. */
  ghost predicate Scanned(rows: seq<Row>, start: nat, room: nat, number: nat, ifc: Interface, found: nat) {
    && start <= room <= |rows| && found <= PLCI_PER_LX_REQUEST
    && var all := Listed(rows, start, number, ifc, PLCI_PER_LX_REQUEST);
       found <= |all|
       && all[found..] == Listed(rows, room, number, ifc, PLCI_PER_LX_REQUEST - found)
       && Resume(rows, start, number, ifc, PLCI_PER_LX_REQUEST) == Resume(rows, room, number, ifc, PLCI_PER_LX_REQUEST - found)
  }

  lemma ScanStarts(rows: seq<Row>, start: nat, number: nat, ifc: Interface)
    requires start <= |rows|
    ensures Scanned(rows, start, start, number, ifc, 0)
  {
    hide Listed, Resume;
  }

  lemma ScanSkips(rows: seq<Row>, start: nat, room: nat, number: nat, ifc: Interface, found: nat)
    requires Scanned(rows, start, room, number, ifc, found) && room < |rows| && !IsOther(rows[room], number, ifc)
    ensures Scanned(rows, start, room + 1, number, ifc, found)
  {
    hide Listed, Resume;
    ScanStep(rows, room, number, ifc, PLCI_PER_LX_REQUEST - found);
  }

  lemma ScanLists(rows: seq<Row>, start: nat, room: nat, number: nat, ifc: Interface, found: nat)
    requires Scanned(rows, start, room, number, ifc, found) && room < |rows| && IsOther(rows[room], number, ifc)
    requires found < PLCI_PER_LX_REQUEST
    ensures Scanned(rows, start, room + 1, number, ifc, found + 1)
    ensures var all := Listed(rows, start, number, ifc, PLCI_PER_LX_REQUEST); found < |all| && all[found] == rows[room]
  {
    hide Listed, Resume;
    ScanStep(rows, room, number, ifc, PLCI_PER_LX_REQUEST - found);
    DropOne(Listed(rows, start, number, ifc, PLCI_PER_LX_REQUEST), found, rows[room],
            Listed(rows, room + 1, number, ifc, PLCI_PER_LX_REQUEST - found - 1));
  }

  lemma ScanEnds(rows: seq<Row>, start: nat, room: nat, number: nat, ifc: Interface, found: nat)
    requires Scanned(rows, start, room, number, ifc, found)
    requires room == |rows| || (found == PLCI_PER_LX_REQUEST && IsOther(rows[room], number, ifc))
    ensures found == |Listed(rows, start, number, ifc, PLCI_PER_LX_REQUEST)|
    ensures room == Resume(rows, start, number, ifc, PLCI_PER_LX_REQUEST)
  {
    hide Listed, Resume;
    ScanStep(rows, room, number, ifc, PLCI_PER_LX_REQUEST - found);
  }

  /** The record loop of update_capi_mixer_part, with the room at which it stopped */
  method ListOthers(rows: seq<Row>, start: nat, main: Role, remove: bool, number: nat, ifc: Interface)
    returns (list: seq<byte>, found: nat, last: Interface, next: nat)
    requires start <= |rows|
    ensures next == Resume(rows, start, number, ifc, PLCI_PER_LX_REQUEST)
    ensures var listed := Listed(rows, start, number, ifc, PLCI_PER_LX_REQUEST);
      found == |listed| && list == Records(main, listed, remove, 0) && (found > 0 ==> last == listed[found - 1].ifc)
  {
    assert Records(main, [], remove, 0) == [];
    hide Listed, Resume, Records, Scanned;
    list, found, last, next := [], 0, ifc, |rows|;
    ghost var all := Listed(rows, start, number, ifc, PLCI_PER_LX_REQUEST);
    assert all[..0] == [];
    var room := start;
    ScanStarts(rows, start, number, ifc);
    while room < |rows|
      invariant start <= room <= |rows| && next == |rows| && found <= |all| && found <= PLCI_PER_LX_REQUEST
      invariant Scanned(rows, start, room, number, ifc, found)
      invariant list == Records(main, all[..found], remove, 0)
      invariant found > 0 ==> last == all[found - 1].ifc
    {
      if rows[room].number == number && rows[room].ifc != ifc {
        if found >= PLCI_PER_LX_REQUEST || |list| + 9 > LIST_SIZE {
          next := room;
          break;
        }
        ScanLists(rows, start, room, number, ifc, found);
        list := AppendRecord(list, main, rows[room], remove, all, found);
        found := found + 1;
        last := rows[room].ifc;
      } else {
        ScanSkips(rows, start, room, number, ifc, found);
      }
      room := room + 1;
    }
    ScanEnds(rows, start, room, number, ifc, found);
    assert all[..found] == all;
  }

  /** update_capi_mixer_part; `message` is the segment as the caller left it. */
  method UpdateMixerPart(rows: seq<Row>, start: nat, overallFound: nat, message: Segment,
                         remove: bool, number: nat, ifc: Interface) returns (segment: Segment, next: nat)
    requires start <= |rows|
    requires |Listed(rows, start, number, ifc, PLCI_PER_LX_REQUEST)| <= overallFound
    ensures next == Resume(rows, start, number, ifc, PLCI_PER_LX_REQUEST)
    ensures var listed := Listed(rows, start, number, ifc, PLCI_PER_LX_REQUEST);
      segment == if listed == [] then message
                 else Segment(true, DataPath(ifc, remove), Records(MainRole(rows, start, ifc), listed, remove, overallFound))
  {
    hide Listed, Resume, Records, DataPath, MainRole;
    var main := FindMainRole(rows, start, ifc);
    var list, found, last;
    list, found, last, next := ListOthers(rows, start, main, remove, number, ifc);
    segment := message;
    if found != 0 {
      segment := CompleteSegment(main, Listed(rows, start, number, ifc, PLCI_PER_LX_REQUEST), list, last, remove, overallFound, ifc);
    }
  }

  method FindMainRole(rows: seq<Row>, start: nat, ifc: Interface) returns (main: Role)
    requires start <= |rows|
    ensures main == MainRole(rows, start, ifc)
  {
    main := Role(Default, FullDuplex);
    var room := start;
    while room < |rows|
      invariant start <= room <= |rows|
      invariant MainRole(rows, start, ifc) == MainRole(rows, room, ifc)
    {
      if rows[room].ifc == ifc {
        main := Role(rows[room].memberType, rows[room].mode);
        break;
      }
      room := room + 1;
    }
  }

  // ---------------------------------------------------------------- chunking

  function Take<T>(s: seq<T>, n: nat): seq<T> {
    if n < |s| then s[..n] else s
  }

  function Drop<T>(s: seq<T>, n: nat): seq<T> {
    if n < |s| then s[n..] else []
  }

  /** The resume pointer stands in front of what has not been listed yet, and is null when nothing is left. */
  lemma {:induction false} ListedThenResumed(rows: seq<Row>, start: nat, number: nat, ifc: Interface, n: nat)
    requires start <= |rows|
    ensures var others := Others(rows, start, number, ifc); var next := Resume(rows, start, number, ifc, n);
      Listed(rows, start, number, ifc, n) == Take(others, n)
      && Others(rows, next, number, ifc) == Drop(others, n)
      && (|others| <= n <==> next == |rows|)
      && (|others| > 0 && n > 0 ==> start < next)
    decreases |rows| - start
  {
    if start >= |rows| {
    } else {
      var rest := Others(rows, start + 1, number, ifc);
      if IsOther(rows[start], number, ifc) {
        if n > 0 {
          ListedThenResumed(rows, start + 1, number, ifc, n - 1);
          TakeDropCons(rows[start], rest, n);
        } else {
          assert Take([rows[start]] + rest, 0) == [];
        }
      } else {
        ListedThenResumed(rows, start + 1, number, ifc, n);
        assert [] + rest == rest;
      }
    }
  }

  lemma TakeDropCons<T>(x: T, rest: seq<T>, n: nat)
    requires n > 0
    ensures Take([x] + rest, n) == [x] + Take(rest, n - 1)
    ensures Drop([x] + rest, n) == Drop(rest, n - 1)
  {
  }

  function NrSegments(n: nat): nat {
    n / PLCI_PER_LX_REQUEST + if n % PLCI_PER_LX_REQUEST != 0 then 1 else 0
  }

  /** A list cut into pieces of eight */
  function Chunks<T>(s: seq<T>): seq<seq<T>>
    decreases |s|
  {
    if s == [] then [] else [Take(s, 8)] + Chunks(Drop(s, 8))
  }

  function Flatten<T>(ss: seq<seq<T>>): seq<T> {
    if ss == [] then [] else ss[0] + Flatten(ss[1..])
  }

  /** ceil(n/8) pieces, all of eight but the last, that together are the list again */
  lemma {:induction false} ChunksCover<T>(s: seq<T>)
    ensures |Chunks(s)| == NrSegments(|s|)
    ensures Flatten(Chunks(s)) == s
    ensures forall k :: 0 <= k < |Chunks(s)| ==>
      (if k < |Chunks(s)| - 1 then |Chunks(s)[k]| == 8 else 1 <= |Chunks(s)[k]| <= 8)
    decreases |s|
  {
    if s == [] {
    } else {
      ChunksCover(Drop(s, 8));
      assert Take(s, 8) + Drop(s, 8) == s;
      assert Chunks(s)[1..] == Chunks(Drop(s, 8));
    }
  }

  /** The requests of one member from a row on, each with the role found from its own start */
  function SegmentsFrom(rows: seq<Row>, start: nat, number: nat, ifc: Interface, remove: bool, overallFound: nat): (s: seq<Segment>)
    requires start <= |rows|
    decreases |rows| - start
  {
    var listed := Listed(rows, start, number, ifc, PLCI_PER_LX_REQUEST);
    var next := Resume(rows, start, number, ifc, PLCI_PER_LX_REQUEST);
    if listed == [] || next <= start then []
    else
      [Segment(true, DataPath(ifc, remove), Records(MainRole(rows, start, ifc), listed, remove, overallFound))]
      + SegmentsFrom(rows, next, number, ifc, remove, overallFound)
  }

  /** All requests of one member */
  function SegmentsOf(rows: seq<Row>, number: nat, ifc: Interface, remove: bool): seq<Segment> {
    SegmentsFrom(rows, 0, number, ifc, remove, |Others(rows, 0, number, ifc)|)
  }

  /** The starting rows of the segments */
  function StartsFrom(rows: seq<Row>, start: nat, number: nat, ifc: Interface): seq<nat>
    requires start <= |rows|
    decreases |rows| - start
  {
    var next := Resume(rows, start, number, ifc, PLCI_PER_LX_REQUEST);
    if Listed(rows, start, number, ifc, PLCI_PER_LX_REQUEST) == [] || next <= start then []
    else [start] + StartsFrom(rows, next, number, ifc)
  }

  /** There are ceil(n/8) requests, and the k-th lists the k-th piece of the list of others. */
  lemma {:induction false} SegmentsListChunks(rows: seq<Row>, start: nat, number: nat, ifc: Interface, remove: bool, overallFound: nat)
    requires start <= |rows|
    ensures var segments := SegmentsFrom(rows, start, number, ifc, remove, overallFound);
      var chunks := Chunks(Others(rows, start, number, ifc));
      var starts := StartsFrom(rows, start, number, ifc);
      |segments| == |chunks| == |starts| == NrSegments(|Others(rows, start, number, ifc)|)
      && (forall k :: 0 <= k < |segments| ==> start <= starts[k] < |rows|)
      && forall k :: 0 <= k < |segments| ==>
           segments[k] == Segment(true, DataPath(ifc, remove), Records(MainRole(rows, starts[k], ifc), chunks[k], remove, overallFound))
    decreases |rows| - start
  {
    var others := Others(rows, start, number, ifc);
    ChunksCover(others);
    ListedThenResumed(rows, start, number, ifc, PLCI_PER_LX_REQUEST);
    var next := Resume(rows, start, number, ifc, PLCI_PER_LX_REQUEST);
    hide NrSegments, Listed, Resume, Others, Records, MainRole, DataPath, Flatten;
    if others == [] {
    } else {
      SegmentsListChunks(rows, next, number, ifc, remove, overallFound);
    }
  }

  /** An array of segments after the first n of a list were written from base on, and nowhere else */
  ghost predicate Holds(now: seq<Segment>, before: seq<Segment>, base: nat, list: seq<Segment>, n: nat) {
    && |now| == |before| && n <= |list| && base + n <= |now|
    && forall j :: 0 <= j < |now| ==> now[j] == if base <= j < base + n then list[j - base] else before[j]
  }

  /** One more segment in its place */
  lemma HoldsOneMore(now: seq<Segment>, was: seq<Segment>, before: seq<Segment>, base: nat, list: seq<Segment>, n: nat)
    requires Holds(was, before, base, list, n) && n < |list| && base + n < |now| == |was|
    requires now[base + n] == list[n] && forall j :: 0 <= j < |now| && j != base + n ==> now[j] == was[j]
    ensures Holds(now, before, base, list, n + 1)
  {
  }

  /** One round of the loop over the segments */
  method FillSegment(rows: seq<Row>, overallFound: nat, segments: array<Segment>, slot: nat, chatStart: nat,
                     remove: bool, number: nat, ifc: Interface) returns (next: nat)
    requires chatStart <= |rows| && slot < segments.Length
    requires 0 < |Others(rows, chatStart, number, ifc)| <= overallFound
    modifies segments
    ensures chatStart < next == Resume(rows, chatStart, number, ifc, PLCI_PER_LX_REQUEST) <= |rows|
    ensures |Others(rows, next, number, ifc)| <= overallFound
    ensures next < |rows| ==> Others(rows, next, number, ifc) != [] && SegmentsFrom(rows, next, number, ifc, remove, overallFound) != []
    ensures SegmentsFrom(rows, chatStart, number, ifc, remove, overallFound)
         == [segments[slot]] + SegmentsFrom(rows, next, number, ifc, remove, overallFound)
    ensures forall j :: 0 <= j < segments.Length && j != slot ==> segments[j] == old(segments[j])
  {
    hide Listed, Resume, Others, Records, MainRole, DataPath;
    ListedThenResumed(rows, chatStart, number, ifc, PLCI_PER_LX_REQUEST);
    var message := segments[slot].(busy := false);
    var segment;
    segment, next := UpdateMixerPart(rows, chatStart, overallFound, message, remove, number, ifc);
    segments[slot] := segment;
    ListedThenResumed(rows, next, number, ifc, PLCI_PER_LX_REQUEST);
  }

  /**
   The loop over the segments of one member: only its own slots are written, and the resume
   pointer ends null.
   */
  method FillSegments(rows: seq<Row>, overallFound: nat, segments: array<Segment>, base: nat,
                      remove: bool, number: nat, ifc: Interface) returns (count: nat, chatStart: nat)
    requires overallFound == |Others(rows, 0, number, ifc)| > 0
    requires base + NrSegments(overallFound) <= segments.Length
    modifies segments
    ensures count == NrSegments(overallFound) && chatStart == |rows|
    ensures Holds(segments[..], old(segments[..]), base, SegmentsOf(rows, number, ifc, remove), count)
  {
    var nrSegments := NrSegments(overallFound);
    count, chatStart := 0, 0;
    ghost var before := segments[..];
    ghost var all := SegmentsOf(rows, number, ifc, remove);
    assert all[0..] == all && Holds(segments[..], before, base, all, 0);
    AllSegmentsCount(rows, number, ifc, remove);
    NothingLeft(rows, number, ifc, remove, overallFound);
    hide NrSegments, Others, Resume, SegmentsFrom, SegmentsOf, Holds;
    while count < nrSegments && chatStart < |rows|
      invariant 0 <= count <= nrSegments && chatStart <= |rows|
      invariant all[count..] == SegmentsFrom(rows, chatStart, number, ifc, remove, overallFound)
      invariant chatStart < |rows| ==> 0 < |Others(rows, chatStart, number, ifc)| <= overallFound
      invariant chatStart < |rows| <==> count < nrSegments
      invariant Holds(segments[..], before, base, all, count)
      decreases nrSegments - count
    {
      ghost var was := segments[..];
      chatStart := FillSegment(rows, overallFound, segments, base + count, chatStart, remove, number, ifc);
      DropOne(all, count, segments[base + count], SegmentsFrom(rows, chatStart, number, ifc, remove, overallFound));
      HoldsOneMore(segments[..], was, before, base, all, count);
      count := count + 1;
    }
  }

  lemma AllSegmentsCount(rows: seq<Row>, number: nat, ifc: Interface, remove: bool)
    ensures |SegmentsOf(rows, number, ifc, remove)| == NrSegments(|Others(rows, 0, number, ifc)|)
  {
    SegmentsListChunks(rows, 0, number, ifc, remove, |Others(rows, 0, number, ifc)|);
  }

  lemma NothingLeft(rows: seq<Row>, number: nat, ifc: Interface, remove: bool, overallFound: nat)
    ensures SegmentsFrom(rows, |rows|, number, ifc, remove, overallFound) == []
    ensures rows == [] ==> Others(rows, 0, number, ifc) == []
  {
  }
}
