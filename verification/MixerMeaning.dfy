/**
 What the mixer's requests say to the one who reads them: the bytes of a request give its
 data path and its pairs of PLCI and data path back, and the pairs agree with each other.
 */
module MixerMeaning {
  import opened Bytes
  import opened Common
  import opened ChatRows
  import opened Mixer
  import Rooms = RoomRegistry
  import Capi = CapiMessage

  const FACILITYSELECTOR_LINE_INTERCONNECT: nat := 0x0005
  const LI_CONNECT: nat := 0x0001

  // ---------------------------------------------------------------- reading a list of records

  /** The pairs of PLCI and data path in a list of nine-byte records */
  function ReadRecords(list: seq<byte>): Option<seq<(nat, nat)>>
    decreases |list|
  {
    if list == [] then Some([])
    else if |list| < 9 || list[0] != 8 then None
    else
      match ReadRecords(list[9..])
      case None => None
      case Some(rest) => Some([(ReadDWord(list[1..5]), ReadDWord(list[5..9]))] + rest)
  }

  function Pairs(main: Role, others: seq<Row>, remove: bool, overallFound: nat): (r: seq<(nat, nat)>)
    ensures |r| == |others|
    ensures forall k :: 0 <= k < |others| ==>
      r[k] == (others[k].ifc.plci, Destination(main, others[k], remove, overallFound))
  {
    if others == [] then []
    else Pairs(main, others[..|others| - 1], remove, overallFound)
         + [(others[|others| - 1].ifc.plci, Destination(main, others[|others| - 1], remove, overallFound))]
  }

  lemma {:induction false} ReadRecordsSnoc(list: seq<byte>, plci: nat, destination: nat)
    requires ReadRecords(list).Some? && plci < 0x1_0000_0000 && destination < 0x1_0000_0000
    ensures ReadRecords(list + Record(plci, destination)) == Some(ReadRecords(list).value + [(plci, destination)])
    decreases |list|
  {
    var r := Record(plci, destination);
    ReadOneRecord(plci, destination);
    if list == [] {
      assert list + r == r && [] + [(plci, destination)] == [(plci, destination)];
    } else {
      var both := list + r;
      var first := (ReadDWord(list[1..5]), ReadDWord(list[5..9]));
      assert both[0] == 8 && both[1..5] == list[1..5] && both[5..9] == list[5..9] && both[9..] == list[9..] + r;
      ReadRecordsSnoc(list[9..], plci, destination);
      assert [first] + (ReadRecords(list[9..]).value + [(plci, destination)])
          == [first] + ReadRecords(list[9..]).value + [(plci, destination)];
    }
  }

  lemma ReadOneRecord(plci: nat, destination: nat)
    requires plci < 0x1_0000_0000 && destination < 0x1_0000_0000
    ensures ReadRecords(Record(plci, destination)) == Some([(plci, destination)])
  {
    hide DWord, ReadDWord, Low;
    var r := Record(plci, destination);
    assert r[0] == 8 && r[1..5] == DWord(plci) && r[5..9] == DWord(destination) && r[9..] == [];
    ReadDWordOfDWord(plci);
    ReadDWordOfDWord(destination);
    assert ReadDWord(r[1..5]) == plci && ReadDWord(r[5..9]) == destination;
    assert ReadRecords(r[9..]) == Some([]);
    assert [(plci, destination)] + [] == [(plci, destination)];
  }

  /** The records of a segment are read back as its members' PLCIs with their data paths. */
  lemma {:induction false} ReadRecordsOfRecords(main: Role, others: seq<Row>, remove: bool, overallFound: nat)
    requires forall k :: 0 <= k < |others| ==> others[k].ifc.plci < 0x1_0000_0000
    ensures ReadRecords(Records(main, others, remove, overallFound)) == Some(Pairs(main, others, remove, overallFound))
  {
    if others == [] {
    } else {
      var n := |others| - 1;
      ReadRecordsOfRecords(main, others[..n], remove, overallFound);
      ReadRecordsSnoc(Records(main, others[..n], remove, overallFound), others[n].ifc.plci,
                      Destination(main, others[n], remove, overallFound));
    }
  }

  // ---------------------------------------------------------------- reading a request

  /** The format "w(w(dc))" with the arguments of a segment */
  function Format(s: Segment): seq<Capi.Op> {
    [Capi.PutWord(FACILITYSELECTOR_LINE_INTERCONNECT), Capi.Open, Capi.PutWord(LI_CONNECT), Capi.Open,
     Capi.PutDWord(s.datapath), Capi.PutPrestruct(s.list), Capi.Close, Capi.Close]
  }

  function Tree(s: Segment): Capi.Forest {
    Capi.Leaf(Capi.PutWord(FACILITYSELECTOR_LINE_INTERCONNECT), Capi.Group(Connect(s), Capi.Nil))
  }

  function Connect(s: Segment): Capi.Forest {
    Capi.Leaf(Capi.PutWord(LI_CONNECT), Capi.Group(Parameter(s), Capi.Nil))
  }

  function Parameter(s: Segment): Capi.Forest {
    Capi.Leaf(Capi.PutDWord(s.datapath), Capi.Leaf(Capi.PutPrestruct(s.list), Capi.Nil))
  }

  const REQUEST_SHAPE: Capi.Shape :=
    Capi.WordField(Capi.GroupField(Capi.WordField(Capi.GroupField(Capi.DWordField(Capi.StructField(Capi.End)), Capi.End)), Capi.End))

  function RequestValue(datapath: nat, list: seq<byte>): Capi.Value {
    Capi.WordValue(FACILITYSELECTOR_LINE_INTERCONNECT, Capi.GroupValue(
      Capi.WordValue(LI_CONNECT, Capi.GroupValue(
        Capi.DWordValue(datapath, Capi.StructValue(list, Capi.Done)), Capi.Done)), Capi.Done))
  }

  /** One structure, the pattern "(...)" */
  lemma OneGroup(body: Capi.Forest)
    requires Capi.ValidForest(body) && Capi.ShortGroups(body) && Capi.Decodable(body) && |Capi.Encode(body)| <= 254
    ensures var g := Capi.Group(body, Capi.Nil);
      Capi.ValidForest(g) && Capi.ShortGroups(g) && Capi.Decodable(g)
      && |Capi.Encode(g)| == 1 + |Capi.Encode(body)|
      && Capi.Flatten(g) == [Capi.Open] + Capi.Flatten(body) + [Capi.Close]
      && Capi.ShapeOf(g) == Capi.GroupField(Capi.ShapeOf(body), Capi.End)
      && Capi.ValueOf(g) == Capi.GroupValue(Capi.ValueOf(body), Capi.Done)
  {
    var g := Capi.Group(body, Capi.Nil);
    assert Capi.Flatten(g) == [Capi.Open] + Capi.Flatten(body) + [Capi.Close] + Capi.Flatten(Capi.Nil);
  }

  /** A word followed by one structure, the pattern "w(...)" */
  lemma FieldThenGroup(w: int, body: Capi.Forest)
    requires Capi.ValidForest(body) && Capi.ShortGroups(body) && Capi.Decodable(body) && |Capi.Encode(body)| <= 254
    ensures var f := Capi.Leaf(Capi.PutWord(w), Capi.Group(body, Capi.Nil));
      Capi.ValidForest(f) && Capi.ShortGroups(f) && Capi.Decodable(f)
      && |Capi.Encode(f)| == 3 + |Capi.Encode(body)|
      && Capi.Flatten(f) == [Capi.PutWord(w), Capi.Open] + Capi.Flatten(body) + [Capi.Close]
      && Capi.ShapeOf(f) == Capi.WordField(Capi.GroupField(Capi.ShapeOf(body), Capi.End))
      && Capi.ValueOf(f) == Capi.WordValue(w % 0x1_0000, Capi.GroupValue(Capi.ValueOf(body), Capi.Done))
  {
    hide Capi.Flatten, Capi.Encode, Capi.ShortGroups, Capi.Decodable, Capi.ShapeOf, Capi.ValueOf, Capi.ValidForest;
    OneGroup(body);
    AfterWord(w, Capi.Group(body, Capi.Nil));
    var ops := Capi.Flatten(body);
    assert [Capi.PutWord(w)] + ([Capi.Open] + ops + [Capi.Close]) == [Capi.PutWord(w), Capi.Open] + ops + [Capi.Close];
  }

  lemma AfterWord(w: int, next: Capi.Forest)
    requires Capi.ValidForest(next) && Capi.ShortGroups(next) && Capi.Decodable(next)
    ensures var f := Capi.Leaf(Capi.PutWord(w), next);
      Capi.ValidForest(f) && Capi.ShortGroups(f) && Capi.Decodable(f)
      && |Capi.Encode(f)| == 2 + |Capi.Encode(next)|
      && Capi.Flatten(f) == [Capi.PutWord(w)] + Capi.Flatten(next)
      && Capi.ShapeOf(f) == Capi.WordField(Capi.ShapeOf(next))
      && Capi.ValueOf(f) == Capi.WordValue(w % 0x1_0000, Capi.ValueOf(next))
  {
  }

  lemma ParameterIsShort(s: Segment)
    requires |s.list| <= 72
    ensures var f := Parameter(s);
      Capi.ValidForest(f) && Capi.ShortGroups(f) && Capi.Decodable(f) && |Capi.Encode(f)| <= 77
      && Capi.Flatten(f) == [Capi.PutDWord(s.datapath), Capi.PutPrestruct(s.list)]
      && Capi.ShapeOf(f) == Capi.DWordField(Capi.StructField(Capi.End))
      && Capi.ValueOf(f) == Capi.DWordValue(s.datapath % 0x1_0000_0000, Capi.StructValue(s.list, Capi.Done))
  {
    var g := Capi.Leaf(Capi.PutPrestruct(s.list), Capi.Nil);
    assert Capi.Flatten(g) == [Capi.PutPrestruct(s.list)] + Capi.Flatten(Capi.Nil);
    assert Capi.ValidForest(g) && Capi.ShortGroups(g) && Capi.Decodable(g);
    assert Capi.ShapeOf(g) == Capi.StructField(Capi.End);
    assert Capi.ValueOf(g) == Capi.StructValue(s.list, Capi.Done);
    assert |Capi.Encode(g)| <= 73;
  }

  /** The format is balanced, its structures are short, and it has the shape a receiver expects. */
  lemma FormatIsTree(s: Segment)
    requires |s.list| <= 72 && s.datapath < 0x1_0000_0000
    ensures Capi.ValidForest(Tree(s)) && Capi.ShortGroups(Tree(s)) && Capi.Decodable(Tree(s))
    ensures Capi.Flatten(Tree(s)) == Format(s) && Capi.ShapeOf(Tree(s)) == REQUEST_SHAPE
    ensures Capi.ValueOf(Tree(s)) == RequestValue(s.datapath, s.list)
  {
    ParameterIsShort(s);
    FieldThenGroup(LI_CONNECT, Parameter(s));
    FieldThenGroup(FACILITYSELECTOR_LINE_INTERCONNECT, Connect(s));
  }

  /** Behind any header, the bytes sent for a segment read as its data path and its list. */
  lemma RequestReadsBack(header: seq<byte>, s: Segment)
    requires header != [] && |s.list| <= 72 && s.datapath < 0x1_0000_0000
    ensures Capi.ValidOps(Format(s))
    ensures var out := Capi.Run(Capi.State(header, 0, false), Format(s)).out;
      |out| >= |header| && Capi.Decode(REQUEST_SHAPE, out[|header|..]) == Some((RequestValue(s.datapath, s.list), []))
  {
    FormatIsTree(s);
    var f := Tree(s);
    hide Tree, Format, Capi.Run, Capi.Encode, Capi.Decode, Capi.ShapeOf, Capi.ValueOf;
    Capi.RunForest(Capi.State(header, 0, false), f);
    Capi.DecodeEncode(f, []);
    assert Capi.Encode(f) + [] == Capi.Encode(f);
    assert (header + Capi.Encode(f))[|header|..] == Capi.Encode(f);
  }

  /**
   End to end for the k-th request of a member: its bytes decode to the member's data path
   and, for the k-th eight of the others in list order, each one's PLCI and data path.
   */
  lemma SegmentReadsBack(header: seq<byte>, rows: seq<Row>, number: nat, ifc: Interface, remove: bool, k: nat)
    requires header != [] && forall r <- rows :: r.ifc.plci < 0x1_0000_0000
    requires k < |SegmentsOf(rows, number, ifc, remove)|
    ensures var others := Others(rows, 0, number, ifc); var starts := StartsFrom(rows, 0, number, ifc);
      k < |Chunks(others)| == |starts| && starts[k] < |rows|
      && var s := SegmentsOf(rows, number, ifc, remove)[k];
         Capi.ValidOps(Format(s))
         && var out := Capi.Run(Capi.State(header, 0, false), Format(s)).out;
            |out| >= |header|
            && Capi.Decode(REQUEST_SHAPE, out[|header|..]) == Some((RequestValue(DataPath(ifc, remove), s.list), []))
            && ReadRecords(s.list) == Some(Pairs(MainRole(rows, starts[k], ifc), Chunks(others)[k], remove, |others|))
  {
    var others := Others(rows, 0, number, ifc);
    SegmentsListChunks(rows, 0, number, ifc, remove, |others|);
    ChunksCover(others);
    var chunk := Chunks(others)[k];
    OthersAreRows(rows, 0, number, ifc);
    ChunkElements(others, k);
    ReadRecordsOfRecords(MainRole(rows, StartsFrom(rows, 0, number, ifc)[k], ifc), chunk, remove, |others|);
    RequestReadsBack(header, SegmentsOf(rows, number, ifc, remove)[k]);
  }

  lemma {:induction false} OthersAreRows(rows: seq<Row>, start: nat, number: nat, ifc: Interface)
    ensures forall r <- Others(rows, start, number, ifc) :: r in rows
    decreases |rows| - start
  {
    if start >= |rows| {
    } else {
      OthersAreRows(rows, start + 1, number, ifc);
    }
  }

  lemma {:induction false} ChunkElements<T>(s: seq<T>, k: nat)
    requires k < |Chunks(s)|
    ensures forall i :: 0 <= i < |Chunks(s)[k]| ==> Chunks(s)[k][i] in s
    decreases |s|
  {
    if k == 0 {
    } else {
      ChunkElements(Drop(s, 8), k - 1);
    }
  }

  /** The k-th piece of a list are its elements from 8 * k on, eight of them if there are that many. */
  lemma {:induction false} ChunkIs<T>(s: seq<T>, k: nat)
    requires k < |Chunks(s)|
    ensures 8 * k < |s| && Chunks(s)[k] == s[8 * k..if 8 * k + 8 < |s| then 8 * k + 8 else |s|]
    decreases k
  {
    if k == 0 {
    } else {
      ChunkIs(Drop(s, 8), k - 1);
    }
  }

  /** What a request lists: the PLCIs of its piece of the others */
  lemma KthRequestLists(rows: seq<Row>, number: nat, ifc: Interface, remove: bool, k: nat)
    requires forall r <- rows :: r.ifc.plci < 0x1_0000_0000
    requires k < |SegmentsOf(rows, number, ifc, remove)|
    ensures var others := Others(rows, 0, number, ifc); var read := ReadRecords(SegmentsOf(rows, number, ifc, remove)[k].list);
      read.Some? && 8 * k + |read.value| <= |others|
      && |read.value| == (if 8 * k + 8 < |others| then 8 else |others| - 8 * k)
      && forall j :: 0 <= j < |read.value| ==> read.value[j].0 == others[8 * k + j].ifc.plci
  {
    hide Records, ReadRecords, MainRole, StartsFrom, Others, Chunks, SegmentsFrom, NrSegments;
    var others := Others(rows, 0, number, ifc);
    SegmentsListChunks(rows, 0, number, ifc, remove, |others|);
    OthersAreRows(rows, 0, number, ifc);
    ChunkElements(others, k);
    ChunkIs(others, k);
    ReadRecordsOfRecords(MainRole(rows, StartsFrom(rows, 0, number, ifc)[k], ifc), Chunks(others)[k], remove, |others|);
  }

  // ---------------------------------------------------------------- the data paths agree

  /** Bit 0: the main member may be heard by the listed one. Bit 1: the other way round. */
  lemma BitsMean(main: Role, row: Row)
    ensures TalkBits(main, row) % 2 == 1 <==> !Listens(main.memberType, main.mode)
    ensures TalkBits(main, row) / 2 == 1 <==> !Listens(row.memberType, main.mode)
  {
  }

  /**
   Besides the talk bits, a join sets bits 4 and 5 for a NULL interface without a line. In a
   leave such an interface has them alone; an ordinary one without a line gets bits 2 and 3
   back when it leaves, and so does the last one that is left.
   */
  lemma PathsMean(main: Role, row: Row, overallFound: nat)
    ensures var d := Destination(main, row, false, overallFound);
      d % 4 == TalkBits(main, row) && d - d % 4 == DataPath(row.ifc, false)
    ensures DataPath(row.ifc, false) == if row.ifc.isNull && !row.ifc.hasLine then 0x30 else 0
    ensures DataPath(row.ifc, true) == if row.ifc.hasLine then 0 else if row.ifc.isNull then 0x30 else 0x0c
    ensures Destination(main, row, true, overallFound) == DataPath(row.ifc, overallFound == 1)
  {
  }

  /** The role is found exactly when the search starts at or before the member's only row. */
  lemma {:induction false} RoleIsFound(rows: seq<Row>, start: nat, a: nat)
    requires a < |rows| && forall k :: 0 <= k < |rows| && k != a ==> rows[k].ifc != rows[a].ifc
    ensures MainRole(rows, start, rows[a].ifc)
         == if start <= a then Role(rows[a].memberType, rows[a].mode) else Role(Default, FullDuplex)
    decreases |rows| - start
  {
    if start >= |rows| || start == a {
    } else {
      RoleIsFound(rows, start + 1, a);
    }
  }

  /** The others between two rows */
  function Between(rows: seq<Row>, start: nat, end: nat, number: nat, ifc: Interface): nat
    requires end <= |rows|
    decreases |rows| - start
  {
    if start >= end then 0 else Bit(IsOther(rows[start], number, ifc)) + Between(rows, start + 1, end, number, ifc)
  }

  lemma {:induction false} BetweenAdds(rows: seq<Row>, a: nat, b: nat, c: nat, number: nat, ifc: Interface)
    requires a <= b <= c <= |rows|
    ensures Between(rows, a, c, number, ifc) == Between(rows, a, b, number, ifc) + Between(rows, b, c, number, ifc)
    decreases b - a
  {
    if a == b {
    } else {
      BetweenAdds(rows, a + 1, b, c, number, ifc);
    }
  }

  /** Unless it is null, the resume pointer is an other and has n of them in front of it. */
  lemma {:induction false} ResumeSkips(rows: seq<Row>, start: nat, number: nat, ifc: Interface, n: nat)
    requires start <= |rows|
    ensures var r := Resume(rows, start, number, ifc, n);
      r < |rows| ==> Between(rows, start, r, number, ifc) == n && IsOther(rows[r], number, ifc)
    decreases |rows| - start
  {
    if start == |rows| {
    } else if IsOther(rows[start], number, ifc) && n == 0 {
    } else {
      ResumeSkips(rows, start + 1, number, ifc, if IsOther(rows[start], number, ifc) then n - 1 else n);
    }
  }

  /** The k-th request starts at the first of its eight, behind 8 * k others; the first one at the head of the list. */
  lemma {:induction false} StartsBehind(rows: seq<Row>, start: nat, number: nat, ifc: Interface, k: nat)
    requires start <= |rows| && k < |StartsFrom(rows, start, number, ifc)|
    ensures var s := StartsFrom(rows, start, number, ifc)[k];
      start <= s < |rows| && Between(rows, start, s, number, ifc) == 8 * k
      && (if k == 0 then s == start else IsOther(rows[s], number, ifc))
    decreases k
  {
    var next := Resume(rows, start, number, ifc, PLCI_PER_LX_REQUEST);
    ResumeSkips(rows, start, number, ifc, PLCI_PER_LX_REQUEST);
    hide Resume, Listed, IsOther, Between;
    if k == 0 {
    } else {
      StartsBehind(rows, next, number, ifc, k - 1);
      BetweenAdds(rows, start, next, StartsFrom(rows, start, number, ifc)[k], number, ifc);
    }
  }

  /** The k-th request of a member starts at or before its row exactly if it is the first, or more than 8 * k others stand in front. */
  lemma StartsInTimeExactly(rows: seq<Row>, number: nat, a: nat, k: nat)
    requires a < |rows| && k < |StartsFrom(rows, 0, number, rows[a].ifc)|
    ensures StartsFrom(rows, 0, number, rows[a].ifc)[k] <= a <==> k == 0 || Between(rows, 0, a, number, rows[a].ifc) > 8 * k
  {
    var ifc := rows[a].ifc;
    var s := StartsFrom(rows, 0, number, ifc)[k];
    StartsBehind(rows, 0, number, ifc, k);
    if k == 0 {
    } else if s <= a {
      BetweenAdds(rows, 0, s, a, number, ifc);
      assert s < a && Between(rows, s, a, number, ifc) > 0;
    } else {
      BetweenAdds(rows, 0, a, s, number, ifc);
    }
  }

  /**
   A request that starts behind its member's own row is built without that member's role and
   room mode. So the bits a record of the k-th request has are those of the real role exactly
   if k is 0, or more than 8 * k others stand in front of the member's row, or the member may
   talk and the listed one is not a plain member of a muted room.
   */
  lemma BitsRightExactlyWhen(rows: seq<Row>, number: nat, a: nat, b: nat, k: nat)
    requires a < |rows| && b < |rows| && forall j :: 0 <= j < |rows| && j != a ==> rows[j].ifc != rows[a].ifc
    requires k < |StartsFrom(rows, 0, number, rows[a].ifc)|
    ensures var start := StartsFrom(rows, 0, number, rows[a].ifc)[k];
      TalkBits(MainRole(rows, start, rows[a].ifc), rows[b]) == TalkBits(Role(rows[a].memberType, rows[a].mode), rows[b])
      <==> k == 0 || Between(rows, 0, a, number, rows[a].ifc) > 8 * k
           || (!Listens(rows[a].memberType, rows[a].mode) && !(rows[b].memberType == Default && rows[a].mode == Muted))
  {
    StartsInTimeExactly(rows, number, a, k);
    RoleIsFound(rows, StartsFrom(rows, 0, number, rows[a].ifc)[k], a);
  }

  /** What the k-th request of a member lists, and as whom it knows the member */
  lemma KthRequest(rows: seq<Row>, number: nat, ifc: Interface, k: nat)
    requires k < |SegmentsOf(rows, number, ifc, false)|
    ensures var others := Others(rows, 0, number, ifc); var starts := StartsFrom(rows, 0, number, ifc);
      k < |starts| && starts[k] < |rows| && k < |Chunks(others)|
      && SegmentsOf(rows, number, ifc, false)[k].list == Records(MainRole(rows, starts[k], ifc), Chunks(others)[k], false, |others|)
  {
    hide Records, MainRole, StartsFrom, Others, SegmentsFrom, NrSegments;
    SegmentsListChunks(rows, 0, number, ifc, false, |Others(rows, 0, number, ifc)|);
  }

  /** What is read from the k-th request of a member */
  lemma KthRequestReads(rows: seq<Row>, number: nat, ifc: Interface, k: nat)
    requires forall r <- rows :: r.ifc.plci < 0x1_0000_0000
    requires k < |SegmentsOf(rows, number, ifc, false)|
    ensures var others := Others(rows, 0, number, ifc); var starts := StartsFrom(rows, 0, number, ifc);
      k < |starts| && starts[k] < |rows| && k < |Chunks(others)|
      && ReadRecords(SegmentsOf(rows, number, ifc, false)[k].list)
         == Some(Pairs(MainRole(rows, starts[k], ifc), Chunks(others)[k], false, |others|))
  {
    hide Records, ReadRecords, MainRole, StartsFrom, Others, SegmentsOf, Chunks, Pairs;
    KthRequest(rows, number, ifc, k);
    var others := Others(rows, 0, number, ifc);
    OthersAreRows(rows, 0, number, ifc);
    ChunkElements(others, k);
    ReadRecordsOfRecords(MainRole(rows, StartsFrom(rows, 0, number, ifc)[k], ifc), Chunks(others)[k], false, |others|);
  }

  /**
   A join puts its row in front of all others. From its second request on the new member counts
   as a talker in full duplex: its direction is opened to everyone, and everyone's but the
   listeners' to it, whatever its role and the room's mode.
   */
  lemma JoinedMemberIsHeard(rows: seq<Row>, k: nat)
    requires rows != [] && forall r <- rows :: r.ifc.plci < 0x1_0000_0000
    requires forall j :: 0 < j < |rows| ==> rows[j].ifc != rows[0].ifc
    requires 0 < k < |SegmentsOf(rows, rows[0].number, rows[0].ifc, false)|
    ensures var others := Others(rows, 0, rows[0].number, rows[0].ifc);
      k < |Chunks(others)|
      && var read := ReadRecords(SegmentsOf(rows, rows[0].number, rows[0].ifc, false)[k].list);
         read.Some? && |read.value| == |Chunks(others)[k]|
         && forall j :: 0 <= j < |read.value| ==>
              read.value[j].0 == Chunks(others)[k][j].ifc.plci
              && read.value[j].1 % 4 == if Chunks(others)[k][j].memberType == Listener then 1 else 3
  {
    assert Between(rows, 0, 0, rows[0].number, rows[0].ifc) == 0;
    hide *;
    var number, ifc := rows[0].number, rows[0].ifc;
    KthRequestReads(rows, number, ifc, k);
    StartsInTimeExactly(rows, number, 0, k);
    RoleIsFound(rows, StartsFrom(rows, 0, number, ifc)[k], 0);
    var others := Others(rows, 0, number, ifc);
    forall j | 0 <= j < |Chunks(others)[k]|
      ensures Destination(Role(Default, FullDuplex), Chunks(others)[k][j], false, |others|) % 4
           == if Chunks(others)[k][j].memberType == Listener then 1 else 3
    {
      UnknownRoleBits(Chunks(others)[k][j], |others|);
    }
  }

  lemma UnknownRoleBits(row: Row, overallFound: nat)
    ensures Destination(Role(Default, FullDuplex), row, false, overallFound) % 4 == if row.memberType == Listener then 1 else 3
  {
  }

  /** A room of n operators, as n joins make it */
  function Crowd(n: nat): seq<Row> {
    if n == 0 then [] else Rooms.Inserted(Crowd(n - 1), "r", Interface(n, n, false, false), Operator, 0)
  }

  lemma {:induction false} CrowdRows(n: nat)
    ensures |Crowd(n)| == n
    ensures forall r <- Crowd(n) :: r.name == "r" && r.number == 1 && r.mode == FullDuplex
                                   && r.memberType == Operator && r.ifc.id <= n && r.ifc.plci <= n
  {
    if n == 0 {
    } else {
      CrowdRows(n - 1);
      var before := Crowd(n - 1);
      if n > 1 {
        assert before[0] in before;
      }
    }
  }

  lemma {:induction false} AllAreOthers(rows: seq<Row>, start: nat, number: nat, ifc: Interface)
    requires start <= |rows| && forall j :: start <= j < |rows| ==> IsOther(rows[j], number, ifc)
    ensures Others(rows, start, number, ifc) == rows[start..]
    decreases |rows| - start
  {
    if start == |rows| {
    } else {
      AllAreOthers(rows, start + 1, number, ifc);
    }
  }

  /** It does happen: the tenth to join, as a listener, is heard by the one listed in its second request. */
  lemma TenthListenerIsHeard()
    ensures var listener := Interface(10, 10, false, false);
      var rows := Rooms.Inserted(Crowd(9), "r", listener, Listener, 0);
      Listens(rows[0].memberType, rows[0].mode) && rows[0].ifc == listener
      && |SegmentsOf(rows, 1, listener, false)| == 2
      && var read := ReadRecords(SegmentsOf(rows, 1, listener, false)[1].list);
         read.Some? && |read.value| == 1 && read.value[0].1 % 4 == 3
  {
    var listener := Interface(10, 10, false, false);
    CrowdRows(9);
    JoinsCrowd(Crowd(9), listener);
    var rows := Rooms.Inserted(Crowd(9), "r", listener, Listener, 0);
    assert Listens(rows[0].memberType, rows[0].mode);
    hide *;
    TenthRequest(rows);
  }

  lemma JoinsCrowd(crowd: seq<Row>, listener: Interface)
    requires |crowd| == 9 && listener.plci == 10
    requires forall r <- crowd :: r.name == "r" && r.number == 1 && r.memberType == Operator && r.ifc.plci <= 9
    ensures var rows := Rooms.Inserted(crowd, "r", listener, Listener, 0);
      |rows| == 10 && rows[0].ifc == listener && rows[0].number == 1 && rows[0].memberType == Listener
      && forall j :: 0 < j < 10 ==>
           rows[j].number == 1 && rows[j].ifc.plci <= 9 && rows[j].ifc != listener && rows[j].memberType == Operator
  {
    assert crowd[0] in crowd;
    var rows := Rooms.Inserted(crowd, "r", listener, Listener, 0);
    forall j | 0 < j < 10
      ensures rows[j].number == 1 && rows[j].ifc.plci <= 9 && rows[j].ifc != listener && rows[j].memberType == Operator
    {
      assert crowd[j - 1] in crowd;
    }
  }

  lemma TenthRequest(rows: seq<Row>)
    requires |rows| == 10 && rows[0].number == 1 && rows[0].ifc.plci == 10
    requires forall j :: 0 < j < 10 ==>
      rows[j].number == 1 && rows[j].ifc.plci <= 9 && rows[j].ifc != rows[0].ifc && rows[j].memberType == Operator
    ensures |SegmentsOf(rows, 1, rows[0].ifc, false)| == 2
    ensures var read := ReadRecords(SegmentsOf(rows, 1, rows[0].ifc, false)[1].list);
      read.Some? && |read.value| == 1 && read.value[0].1 % 4 == 3
  {
    hide SegmentsOf, ReadRecords;
    var ifc := rows[0].ifc;
    AllAreOthers(rows, 1, 1, ifc);
    var others := Others(rows, 0, 1, ifc);
    assert others == [] + rows[1..];
    AllSegmentsCount(rows, 1, ifc, false);
    JoinedMemberIsHeard(rows, 1);
    SecondOfNine(others);
    assert others[8] == rows[9];
  }

  lemma SecondOfNine<T>(s: seq<T>)
    requires |s| == 9
    ensures |Chunks(s)| == 2 && Chunks(s)[1] == [s[8]]
  {
    assert Drop(s, 8) == [s[8]] && Drop([s[8]], 8) == [];
    assert Chunks(Drop(s, 8)) == [[s[8]]];
  }

  /** Seen from either end of a pair in one room, the same directions are open. */
  lemma BothEndsAgree(rows: seq<Row>, a: nat, b: nat, startA: nat, startB: nat)
    requires Rooms.Rooms(rows) && a < |rows| && b < |rows| && a != b && rows[a].number == rows[b].number
    requires forall k :: 0 <= k < |rows| && k != a ==> rows[k].ifc != rows[a].ifc
    requires forall k :: 0 <= k < |rows| && k != b ==> rows[k].ifc != rows[b].ifc
    requires startA <= a && startB <= b
    ensures var fromA := TalkBits(MainRole(rows, startA, rows[a].ifc), rows[b]);
      var fromB := TalkBits(MainRole(rows, startB, rows[b].ifc), rows[a]);
      fromA % 2 == fromB / 2 && fromA / 2 == fromB % 2
      && (fromA % 2 == 1 <==> !Listens(rows[a].memberType, rows[a].mode))
      && (fromB % 2 == 1 <==> !Listens(rows[b].memberType, rows[b].mode))
  {
    RoleIsFound(rows, startA, a);
    RoleIsFound(rows, startB, b);
    BitsMean(Role(rows[a].memberType, rows[a].mode), rows[b]);
    BitsMean(Role(rows[b].memberType, rows[b].mode), rows[a]);
    hide TalkBits;
    assert rows[a].mode == rows[b].mode by {
      assert if a < b then Rooms.Compatible(rows[a], rows[b]) else Rooms.Compatible(rows[b], rows[a]);
    }
  }
}
