/**
 The registry of chat rooms: what joining, leaving and muting do to the global list of rows,
 and what every run of them keeps. A join inserts its row under the list lock and recomputes
 the room's counters under the lock taken again; a leave does the same in the opposite order
 of effects. Other members' steps come in between.
 */
module RoomRegistry {
  import opened ChatRows
  import opened Common

  // ---------------------------------------------------------------- the list operations

  /** Number and mode of a new row: those of the first row of that name, else a number above all. */
  function NumberAndMode(rows: seq<Row>, name: string, number: nat): (r: (nat, RoomMode))
    decreases |rows|
  {
    if rows == [] then (number, FullDuplex)
    else if rows[0].name == name then (rows[0].number, rows[0].mode)
    else NumberAndMode(rows[1..], name, if rows[0].number >= number then rows[0].number + 1 else number)
  }

  function ClearRecent(rows: seq<Row>, number: nat): (r: seq<Row>)
    ensures |r| == |rows|
    ensures forall k :: 0 <= k < |rows| ==> r[k] == if rows[k].number == number then rows[k].(recent := false) else rows[k]
  {
    if rows == [] then []
    else [if rows[0].number == number then rows[0].(recent := false) else rows[0]] + ClearRecent(rows[1..], number)
  }

  function NewRow(rows: seq<Row>, name: string, ifc: Interface, memberType: MemberType, group: nat): Row {
    var (number, mode) := NumberAndMode(rows, name, 1);
    Row(name, number, memberType, mode, ifc, true, group)
  }

  function Inserted(rows: seq<Row>, name: string, ifc: Interface, memberType: MemberType, group: nat): seq<Row> {
    var row := NewRow(rows, name, ifc, memberType, group);
    [row] + ClearRecent(rows, row.number)
  }

  function SetMode(rows: seq<Row>, number: nat, mode: RoomMode): (r: seq<Row>)
    ensures |r| == |rows|
    ensures forall k :: 0 <= k < |rows| ==> r[k] == if rows[k].number == number then rows[k].(mode := mode) else rows[k]
  {
    if rows == [] then []
    else [if rows[0].number == number then rows[0].(mode := mode) else rows[0]] + SetMode(rows[1..], number, mode)
  }

  function SetActive(rows: seq<Row>, active: seq<nat>, number: nat, count: nat): (r: seq<nat>)
    requires |active| == |rows|
    ensures |r| == |rows|
    ensures forall k :: 0 <= k < |rows| ==> r[k] == if rows[k].number == number then count else active[k]
  {
    if rows == [] then []
    else [if rows[0].number == number then count else active[0]] + SetActive(rows[1..], active[1..], number, count)
  }

  /** The number of rows of a room */
  function Count(rows: seq<Row>, number: nat): nat {
    if rows == [] then 0 else (if rows[0].number == number then 1 else 0) + Count(rows[1..], number)
  }

  /** The counter update_capi_mixer stores: the others, and the member itself while it stays */
  function Recount(rows: seq<Row>, active: seq<nat>, number: nat, ifc: Interface, remove: bool): seq<nat>
    requires |active| == |rows|
  {
    SetActive(rows, active, number, |Others(rows, 0, number, ifc)| + if remove then 0 else 1)
  }

  // ---------------------------------------------------------------- the registry as a state machine

  /** A recomputation that a join or a leave still has to make */
  datatype Pending = Joining(number: nat, ifc: Interface) | Leaving(number: nat, ifc: Interface)

  datatype Registry = Registry(rows: seq<Row>, active: seq<nat>, pending: set<Pending>)

  const EMPTY := Registry([], [], {})

  ghost predicate Busy(r: Registry, ifc: Interface) {
    exists p <- r.pending :: p.ifc == ifc
  }

  /** An interface runs one join or leave at a time and enters a room it is not in. */
  ghost predicate JoinStarts(r: Registry, s: Registry, name: string, ifc: Interface, memberType: MemberType, group: nat) {
    && |r.active| == |r.rows| && !Busy(r, ifc)
    && (forall row <- r.rows :: row.name == name ==> row.ifc != ifc)
    && s.rows == Inserted(r.rows, name, ifc, memberType, group)
    && s.active == [0] + r.active
    && s.pending == r.pending + {Joining(s.rows[0].number, ifc)}
  }

  ghost predicate LeaveStarts(r: Registry, s: Registry, k: nat) {
    && |r.active| == |r.rows| && k < |r.rows| && !Busy(r, r.rows[k].ifc)
    && s == Registry(Without(r.rows, k), Without(r.active, k), r.pending + {Leaving(r.rows[k].number, r.rows[k].ifc)})
  }

  ghost predicate Recounts(r: Registry, s: Registry, p: Pending) {
    && |r.active| == |r.rows| && p in r.pending
    && s == Registry(r.rows, Recount(r.rows, r.active, p.number, p.ifc, p.Leaving?), r.pending - {p})
  }

  /** A mute sets the mode and recomputes the whole room without releasing the lock. */
  ghost predicate Mutes(r: Registry, s: Registry, k: nat, mode: RoomMode) {
    && |r.active| == |r.rows| && k < |r.rows|
    && var number := r.rows[k].number;
       s.rows == SetMode(r.rows, number, mode) && s.pending == r.pending
       && s.active == SetActive(s.rows, r.active, number, Count(s.rows, number))
  }

  ghost predicate Next(r: Registry, s: Registry) {
    || (exists name, ifc, memberType, group :: JoinStarts(r, s, name, ifc, memberType, group))
    || (exists k :: LeaveStarts(r, s, k))
    || (exists p :: Recounts(r, s, p))
    || (exists k, mode :: Mutes(r, s, k, mode))
  }

  // ---------------------------------------------------------------- the invariant

  /**
   Two rows share a number exactly if they share a name, and then they share the room's mode,
   are not both marked recent, and belong to different interfaces.
   */
  predicate Compatible(a: Row, b: Row) {
    && (a.number == b.number <==> a.name == b.name)
    && (a.number == b.number ==> a.mode == b.mode && !(a.recent && b.recent) && a.ifc != b.ifc)
  }

  ghost predicate Rooms(rows: seq<Row>) {
    forall a, b :: 0 <= a < b < |rows| ==> Compatible(rows[a], rows[b])
  }

  ghost predicate Contains(rows: seq<Row>, number: nat, ifc: Interface) {
    exists k :: 0 <= k < |rows| && rows[k].number == number && rows[k].ifc == ifc
  }

  ghost predicate Quiet(r: Registry, number: nat) {
    forall p <- r.pending :: p.number != number
  }

  /** A room without a pending join or leave has the right count in all of its rows. */
  ghost predicate CountsAreRight(r: Registry) {
    && |r.active| == |r.rows|
    && forall k :: 0 <= k < |r.rows| && Quiet(r, r.rows[k].number) ==> r.active[k] == Count(r.rows, r.rows[k].number)
  }

  /** A joining member's row is there, a leaving member's is gone. */
  ghost predicate PendingMatches(r: Registry) {
    && (forall p <- r.pending :: Contains(r.rows, p.number, p.ifc) <==> p.Joining?)
    && (forall p <- r.pending, q <- r.pending :: p.ifc == q.ifc ==> p == q)
  }

  ghost predicate Inv(r: Registry) {
    Rooms(r.rows) && PendingMatches(r) && CountsAreRight(r)
  }

  // ---------------------------------------------------------------- counting

  lemma {:induction false} CountConcat(a: seq<Row>, b: seq<Row>, number: nat)
    ensures Count(a + b, number) == Count(a, number) + Count(b, number)
  {
    if a == [] {
      assert a + b == b;
    } else {
      assert (a + b)[1..] == a[1..] + b;
      CountConcat(a[1..], b, number);
    }
  }

  lemma {:induction false} CountOfSameNumbers(a: seq<Row>, b: seq<Row>, number: nat)
    requires |a| == |b| && forall k :: 0 <= k < |a| ==> a[k].number == b[k].number
    ensures Count(a, number) == Count(b, number)
  {
    if a == [] {
    } else {
      CountOfSameNumbers(a[1..], b[1..], number);
    }
  }

  lemma CountWithout(rows: seq<Row>, k: nat, number: nat)
    requires k < |rows|
    ensures Count(rows, number) == Count(Without(rows, k), number) + if rows[k].number == number then 1 else 0
  {
    assert rows == rows[..k] + ([rows[k]] + rows[k + 1..]);
    CountConcat(rows[..k], [rows[k]] + rows[k + 1..], number);
    CountConcat(rows[..k], rows[k + 1..], number);
  }

  /** The others of a member, and the member itself if it is in the room, are the room. */
  lemma {:induction false} OthersAndSelf(rows: seq<Row>, start: nat, number: nat, ifc: Interface)
    requires start <= |rows| && Rooms(rows)
    ensures |Others(rows, start, number, ifc)| + (if Contains(rows[start..], number, ifc) then 1 else 0)
         == Count(rows[start..], number)
    decreases |rows| - start
  {
    if start >= |rows| {
    } else {
      OthersAndSelf(rows, start + 1, number, ifc);
      var tail := rows[start..];
      assert tail[1..] == rows[start + 1..];
      if rows[start].number == number && rows[start].ifc == ifc {
        assert tail[0] == rows[start];
        forall k | 0 <= k < |tail[1..]| ensures tail[1..][k].number == number ==> tail[1..][k].ifc != ifc {
          assert tail[1..][k] == rows[start + 1 + k] && Compatible(rows[start], rows[start + 1 + k]);
        }
      } else if Contains(tail[1..], number, ifc) {
        var k :| 0 <= k < |tail[1..]| && tail[1..][k].number == number && tail[1..][k].ifc == ifc;
        assert tail[k + 1] == tail[1..][k];
      } else {
        assert forall k :: 0 < k < |tail| ==> tail[k] == tail[1..][k - 1];
      }
    }
  }

  /** A recomputation stores the true number of rows exactly when the member is in the room as it should be. */
  lemma RecountIsExact(rows: seq<Row>, active: seq<nat>, number: nat, ifc: Interface, remove: bool)
    requires |active| == |rows| && Rooms(rows)
    ensures Recount(rows, active, number, ifc, remove) == SetActive(rows, active, number, Count(rows, number))
       <==> Count(rows, number) == 0 || (Contains(rows, number, ifc) <==> !remove)
  {
    assert rows[0..] == rows;
    OthersAndSelf(rows, 0, number, ifc);
    SetActiveOfAbsent(rows, active, number, |Others(rows, 0, number, ifc)| + if remove then 0 else 1, Count(rows, number));
  }

  lemma {:induction false} SetActiveOfAbsent(rows: seq<Row>, active: seq<nat>, number: nat, a: nat, b: nat)
    requires |active| == |rows|
    ensures SetActive(rows, active, number, a) == SetActive(rows, active, number, b) <==> a == b || Count(rows, number) == 0
  {
    if rows == [] {
    } else {
      SetActiveOfAbsent(rows[1..], active[1..], number, a, b);
      var x, y := SetActive(rows, active, number, a), SetActive(rows, active, number, b);
      assert x == [x[0]] + x[1..] && y == [y[0]] + y[1..];
      assert x == y <==> x[0] == y[0] && x[1..] == y[1..];
    }
  }

  // ---------------------------------------------------------------- the steps keep the invariant

  /** A known name brings its room's number and mode along. */
  lemma {:induction false} KnownName(rows: seq<Row>, name: string, number: nat) returns (k: nat)
    requires exists j :: 0 <= j < |rows| && rows[j].name == name
    ensures k < |rows| && rows[k].name == name
    ensures NumberAndMode(rows, name, number) == (rows[k].number, rows[k].mode)
    decreases |rows|
  {
    if rows[0].name == name {
      k := 0;
    } else {
      var j :| 0 <= j < |rows| && rows[j].name == name;
      assert rows[1..][j - 1].name == name;
      k := KnownName(rows[1..], name, if rows[0].number >= number then rows[0].number + 1 else number);
      k := k + 1;
    }
  }

  /** A new name gets a number above all others, in full-duplex mode. */
  lemma {:induction false} FreshName(rows: seq<Row>, name: string, number: nat)
    requires forall j :: 0 <= j < |rows| ==> rows[j].name != name
    ensures var (n, mode) := NumberAndMode(rows, name, number);
      n >= number && mode == FullDuplex && forall j :: 0 <= j < |rows| ==> rows[j].number < n
    decreases |rows|
  {
    if rows == [] {
    } else {
      FreshName(rows[1..], name, if rows[0].number >= number then rows[0].number + 1 else number);
      assert forall j :: 0 < j < |rows| ==> rows[j] == rows[1..][j - 1];
    }
  }

  lemma FitsThroughNamesake(row: Row, namesake: Row, there: Row)
    requires row.name == namesake.name && row.number == namesake.number && row.mode == namesake.mode
    requires there == namesake || Compatible(there, namesake) || Compatible(namesake, there)
    requires there.name == row.name ==> there.ifc != row.ifc
    ensures Compatible(row, if there.number == row.number then there.(recent := false) else there)
  {
  }

  /** A new row fits every row that is there, once those of its room are no longer recent. */
  lemma NewRowFits(rows: seq<Row>, name: string, ifc: Interface, memberType: MemberType, group: nat, j: nat)
    requires Rooms(rows) && j < |rows|
    requires forall k :: 0 <= k < |rows| && rows[k].name == name ==> rows[k].ifc != ifc
    ensures var row := NewRow(rows, name, ifc, memberType, group);
      Compatible(row, if rows[j].number == row.number then rows[j].(recent := false) else rows[j])
  {
    var row := NewRow(rows, name, ifc, memberType, group);
    hide NumberAndMode;
    if exists k :: 0 <= k < |rows| && rows[k].name == name {
      var k := KnownName(rows, name, 1);
      assert j < k ==> Compatible(rows[j], rows[k]);
      assert k < j ==> Compatible(rows[k], rows[j]);
      FitsThroughNamesake(row, rows[k], rows[j]);
    } else {
      FreshName(rows, name, 1);
    }
  }

  /** A row at the front fits its room in number, name and mode, and is the only recent one. */
  lemma InsertedKeepsRooms(rows: seq<Row>, name: string, ifc: Interface, memberType: MemberType, group: nat)
    requires Rooms(rows)
    requires forall k :: 0 <= k < |rows| && rows[k].name == name ==> rows[k].ifc != ifc
    ensures Rooms(Inserted(rows, name, ifc, memberType, group))
  {
    var row := NewRow(rows, name, ifc, memberType, group);
    var cleared := ClearRecent(rows, row.number);
    var s := Inserted(rows, name, ifc, memberType, group);
    assert s == [row] + cleared;
    assert |cleared| == |rows|;
    hide Inserted, NewRow, NumberAndMode;
    forall a, b | 0 <= a < b < |s| ensures Compatible(s[a], s[b]) {
      assert s[b] == cleared[b - 1];
      if a == 0 {
        NewRowFits(rows, name, ifc, memberType, group, b - 1);
      } else {
        assert s[a] == cleared[a - 1] && Compatible(rows[a - 1], rows[b - 1]);
      }
    }
  }

  /** The number a join takes is that of the rows of its name and of no others. */
  lemma NumberIsOfTheName(rows: seq<Row>, name: string)
    requires Rooms(rows)
    ensures var (number, mode) := NumberAndMode(rows, name, 1);
      && (forall k :: 0 <= k < |rows| ==> (rows[k].name == name <==> rows[k].number == number))
      && (forall k :: 0 <= k < |rows| && rows[k].name == name ==> rows[k].mode == mode)
      && ((forall k :: 0 <= k < |rows| ==> rows[k].name != name) ==>
            mode == FullDuplex && forall k :: 0 <= k < |rows| ==> rows[k].number < number)
  {
    hide NumberAndMode;
    if exists k :: 0 <= k < |rows| && rows[k].name == name {
      var k := KnownName(rows, name, 1);
      forall j | 0 <= j < |rows|
        ensures rows[j].name == name <==> rows[j].number == rows[k].number
        ensures rows[j].name == name ==> rows[j].mode == rows[k].mode
      {
        assert j < k ==> Compatible(rows[j], rows[k]);
        assert k < j ==> Compatible(rows[k], rows[j]);
      }
    } else {
      FreshName(rows, name, 1);
    }
  }

  /**
   What a join does to the list: the new row is in front and marked recent, with number and mode
   of its namesakes or, without any, a new number and full duplex; of the others only those of
   its name change, and only in no longer being recent.
   */
  lemma InsertedExactly(rows: seq<Row>, name: string, ifc: Interface, memberType: MemberType, group: nat)
    requires Rooms(rows)
    ensures var s := Inserted(rows, name, ifc, memberType, group);
      && |s| == |rows| + 1
      && s[0].name == name && s[0].ifc == ifc && s[0].memberType == memberType && s[0].group == group && s[0].recent
      && (forall k :: 0 <= k < |rows| ==> s[k + 1] == rows[k].(recent := rows[k].recent && rows[k].name != name))
      && (forall k :: 0 <= k < |rows| && rows[k].name == name ==> s[0].number == rows[k].number && s[0].mode == rows[k].mode)
      && ((forall k :: 0 <= k < |rows| ==> rows[k].name != name) ==>
            s[0].mode == FullDuplex && forall k :: 0 <= k < |rows| ==> rows[k].number < s[0].number)
  {
    NumberIsOfTheName(rows, name);
    var row, s := NewRow(rows, name, ifc, memberType, group), Inserted(rows, name, ifc, memberType, group);
    var cleared := ClearRecent(rows, row.number);
    assert s == [row] + cleared && |cleared| == |rows|;
    hide Inserted, ClearRecent, NumberAndMode, Rooms;
    forall k | 0 <= k < |rows| ensures s[k + 1] == rows[k].(recent := rows[k].recent && rows[k].name != name) {
      assert s[k + 1] == cleared[k];
    }
  }

  lemma WithoutKeepsRooms(rows: seq<Row>, k: nat)
    requires k < |rows| && Rooms(rows)
    ensures Rooms(Without(rows, k))
  {
  }

  lemma SetModeKeepsRooms(rows: seq<Row>, number: nat, mode: RoomMode)
    requires Rooms(rows)
    ensures Rooms(SetMode(rows, number, mode))
  {
    hide SetMode;
    var s := SetMode(rows, number, mode);
    forall a, b | 0 <= a < b < |s| ensures Compatible(s[a], s[b]) {
      assert Compatible(rows[a], rows[b]);
    }
  }

  lemma InsertedContains(rows: seq<Row>, name: string, ifc: Interface, memberType: MemberType, group: nat, n: nat, i: Interface)
    ensures var s := Inserted(rows, name, ifc, memberType, group);
      Contains(s, n, i) <==> Contains(rows, n, i) || (n == s[0].number && i == ifc)
  {
    var s := Inserted(rows, name, ifc, memberType, group);
    if k :| 0 <= k < |rows| && rows[k].number == n && rows[k].ifc == i {
      assert s[k + 1].number == n && s[k + 1].ifc == i;
    }
    if k :| 0 < k < |s| && s[k].number == n && s[k].ifc == i {
      assert rows[k - 1].number == n && rows[k - 1].ifc == i;
    }
    assert s[0].ifc == ifc;
  }

  lemma InsertedCount(rows: seq<Row>, name: string, ifc: Interface, memberType: MemberType, group: nat, n: nat)
    ensures var s := Inserted(rows, name, ifc, memberType, group);
      Count(s, n) == Count(rows, n) + if s[0].number == n then 1 else 0
  {
    var s := Inserted(rows, name, ifc, memberType, group);
    CountOfSameNumbers(s[1..], rows, n);
  }

  lemma JoinKeepsInv(r: Registry, s: Registry, name: string, ifc: Interface, memberType: MemberType, group: nat)
    requires Inv(r) && JoinStarts(r, s, name, ifc, memberType, group)
    ensures Inv(s)
  {
    InsertedKeepsRooms(r.rows, name, ifc, memberType, group);
    var number := s.rows[0].number;
    forall p <- s.pending ensures Contains(s.rows, p.number, p.ifc) <==> p.Joining? {
      InsertedContains(r.rows, name, ifc, memberType, group, p.number, p.ifc);
    }
    forall k | 0 <= k < |s.rows| && Quiet(s, s.rows[k].number) ensures s.active[k] == Count(s.rows, s.rows[k].number) {
      var n := s.rows[k].number;
      assert Joining(number, ifc) in s.pending;
      assert Quiet(r, n) && r.rows[k - 1].number == n;
      InsertedCount(r.rows, name, ifc, memberType, group, n);
    }
  }

  lemma WithoutContains(rows: seq<Row>, k: nat, n: nat, i: Interface)
    requires k < |rows| && Rooms(rows)
    ensures Contains(Without(rows, k), n, i) <==> Contains(rows, n, i) && !(n == rows[k].number && i == rows[k].ifc)
  {
    var s := Without(rows, k);
    if j :| 0 <= j < |s| && s[j].number == n && s[j].ifc == i {
      var m := if j < k then j else j + 1;
      assert s[j] == rows[m];
      if m < k {
        assert Compatible(rows[m], rows[k]);
      } else {
        assert Compatible(rows[k], rows[m]);
      }
    }
    if j :| 0 <= j < |rows| && rows[j].number == n && rows[j].ifc == i && j != k {
      assert s[if j < k then j else j - 1] == rows[j];
    }
  }

  lemma LeaveKeepsInv(r: Registry, s: Registry, k: nat)
    requires Inv(r) && LeaveStarts(r, s, k)
    ensures Inv(s)
  {
    hide Rooms, Contains, Count;
    WithoutKeepsRooms(r.rows, k);
    var number, ifc := r.rows[k].number, r.rows[k].ifc;
    forall p: Pending | p in s.pending ensures Contains(s.rows, p.number, p.ifc) <==> p.Joining? {
      WithoutContains(r.rows, k, p.number, p.ifc);
    }
    forall j | 0 <= j < |s.rows| && Quiet(s, s.rows[j].number) ensures s.active[j] == Count(s.rows, s.rows[j].number) {
      var n := s.rows[j].number;
      assert Leaving(number, ifc) in s.pending;
      var i := if j < k then j else j + 1;
      assert s.rows[j] == r.rows[i] && s.active[j] == r.active[i] && Quiet(r, n);
      CountWithout(r.rows, k, n);
    }
  }

  lemma RecountKeepsInv(r: Registry, s: Registry, p: Pending)
    requires Inv(r) && Recounts(r, s, p)
    ensures Inv(s)
  {
    RecountIsExact(r.rows, r.active, p.number, p.ifc, p.Leaving?);
    forall k | 0 <= k < |s.rows| && Quiet(s, s.rows[k].number) ensures s.active[k] == Count(s.rows, s.rows[k].number) {
      var n := s.rows[k].number;
      if n != p.number {
        assert Quiet(r, n);
      }
    }
  }

  lemma MuteKeepsInv(r: Registry, s: Registry, k: nat, mode: RoomMode)
    requires Inv(r) && Mutes(r, s, k, mode)
    ensures Inv(s)
  {
    hide SetMode, Rooms;
    var number := r.rows[k].number;
    SetModeKeepsRooms(r.rows, number, mode);
    forall p <- r.pending ensures Contains(s.rows, p.number, p.ifc) <==> Contains(r.rows, p.number, p.ifc) {
      if j :| 0 <= j < |r.rows| && r.rows[j].number == p.number && r.rows[j].ifc == p.ifc {
        assert s.rows[j].number == p.number && s.rows[j].ifc == p.ifc;
      }
    }
    forall j | 0 <= j < |s.rows| && Quiet(s, s.rows[j].number) ensures s.active[j] == Count(s.rows, s.rows[j].number) {
      CountOfSameNumbers(s.rows, r.rows, s.rows[j].number);
      assert Quiet(r, r.rows[j].number);
    }
  }

  lemma NextKeepsInv(r: Registry, s: Registry)
    requires Inv(r) && Next(r, s)
    ensures Inv(s)
  {
    if name, ifc, memberType, group :| JoinStarts(r, s, name, ifc, memberType, group) {
      JoinKeepsInv(r, s, name, ifc, memberType, group);
    } else if k: nat :| LeaveStarts(r, s, k) {
      LeaveKeepsInv(r, s, k);
    } else if p :| Recounts(r, s, p) {
      RecountKeepsInv(r, s, p);
    } else {
      var k: nat, mode :| Mutes(r, s, k, mode);
      MuteKeepsInv(r, s, k, mode);
    }
  }

  /** A run: any interleaving of the members' steps from the empty list */
  ghost predicate Run(states: seq<Registry>) {
    if |states| <= 1 then states == [EMPTY]
    else Run(states[..|states| - 1]) && Next(states[|states| - 2], states[|states| - 1])
  }

  lemma RunUnfolds(states: seq<Registry>)
    requires Run(states)
    ensures states != []
    ensures if |states| == 1 then states[0] == EMPTY
            else Run(states[..|states| - 1]) && Next(states[..|states| - 1][|states| - 2], states[|states| - 1])
  {
    hide Next;
  }

  lemma {:induction false} RunKeepsInv(states: seq<Registry>)
    requires Run(states)
    ensures states != [] && Inv(states[|states| - 1])
  {
    assert Inv(EMPTY);
    hide Inv, Next, Run;
    RunUnfolds(states);
    if |states| == 1 {
    } else {
      var before := states[..|states| - 1];
      RunKeepsInv(before);
      NextKeepsInv(before[|before| - 1], states[|states| - 1]);
    }
  }

  /** With no join or leave under way, every row of every room shows how many rows the room has. */
  lemma ActiveIsRoomSize(states: seq<Registry>)
    requires Run(states) && states != [] && states[|states| - 1].pending == {}
    ensures var r := states[|states| - 1];
      |r.active| == |r.rows| && forall k :: 0 <= k < |r.rows| ==> r.active[k] == Count(r.rows, r.rows[k].number)
  {
    RunKeepsInv(states);
    var r := states[|states| - 1];
    assert forall k :: 0 <= k < |r.rows| ==> Quiet(r, r.rows[k].number);
  }

  /** Whoever is marked recent is the newest of its room: nobody of its name stands in front. */
  ghost predicate RecentInFront(rows: seq<Row>) {
    forall j, k :: 0 <= j < k < |rows| && rows[k].recent ==> rows[j].name != rows[k].name
  }

  lemma NextKeepsRecent(r: Registry, s: Registry)
    requires Inv(r) && RecentInFront(r.rows) && Next(r, s)
    ensures RecentInFront(s.rows)
  {
    if name, ifc, memberType, group :| JoinStarts(r, s, name, ifc, memberType, group) {
      hide Inserted, RecentInFront, Count;
      JoinKeepsRecent(r.rows, name, ifc, memberType, group);
    } else if k: nat :| LeaveStarts(r, s, k) {
      hide Without, RecentInFront, Count, Inv;
      WithoutKeepsRecent(r.rows, k);
    } else if p :| Recounts(r, s, p) {
      hide RecentInFront, Count, Inv;
    } else {
      var k: nat, mode :| Mutes(r, s, k, mode);
      hide SetMode, Inv, Count;
    }
  }

  lemma JoinKeepsRecent(rows: seq<Row>, name: string, ifc: Interface, memberType: MemberType, group: nat)
    requires Rooms(rows) && RecentInFront(rows)
    ensures RecentInFront(Inserted(rows, name, ifc, memberType, group))
  {
    var s := Inserted(rows, name, ifc, memberType, group);
    InsertedExactly(rows, name, ifc, memberType, group);
    hide Inserted, Rooms;
    forall j, k | 0 <= j < k < |s| && s[k].recent ensures s[j].name != s[k].name {
      assert s[k] == rows[k - 1].(recent := rows[k - 1].recent && rows[k - 1].name != name);
      if j > 0 {
        assert s[j].name == rows[j - 1].name;
      }
    }
  }

  lemma WithoutKeepsRecent(rows: seq<Row>, k: nat)
    requires k < |rows| && RecentInFront(rows)
    ensures RecentInFront(Without(rows, k))
  {
  }

  /** In every run the member marked recent is the one of its room that joined last. */
  lemma {:induction false} RecentIsNewest(states: seq<Registry>)
    requires Run(states)
    ensures states != [] && RecentInFront(states[|states| - 1].rows)
  {
    assert RecentInFront(EMPTY.rows);
    hide Inv, Next, Run, RecentInFront;
    RunUnfolds(states);
    if |states| == 1 {
    } else {
      var before := states[..|states| - 1];
      RecentIsNewest(before);
      RunKeepsInv(before);
      NextKeepsRecent(before[|before| - 1], states[|states| - 1]);
    }
  }
}
