/**
 The chat list as the bridges of large conferences use it: which rows belong to a group, which
 of them are the two ends of its bridge, and how the list functions count and find them. The
 loops compare stored names; for short names without ".G" they see the room and the group the
 row was made for.
 */
module BridgeRows {
  import opened Common
  import opened GroupNames

  /**
   What i->used and i->bridgePeer say about a row: an end of a bridge has no channel and a
   peer. The end in group 1 knows the group at the other end, the end in the group itself
   counts the group's users.
   */
  datatype End = MainEnd(peer: nat) | BridgeEnd(users: nat) | Member(caller: nat)

  /** A row by the room name and group it was added with */
  datatype Row = Row(room: string, group: nat, end: End) {
    function Name(): string {
      StoredName(room, group)
    }
  }

  predicate IsBridge(row: Row, room: string) {
    row.room == room && row.group > 1 && row.end.BridgeEnd?
  }

  // ---------------------------------------------------------------- what the loops compute

  /** The row that stands for the bridge of a group; the length of the list is the null pointer. */
  function GroupBridge(rows: seq<Row>, room: string, group: nat): (k: nat)
    ensures k <= |rows|
    ensures k < |rows| ==> IsBridge(rows[k], room) && rows[k].group == group
    ensures forall j :: 0 <= j < k ==> !(IsBridge(rows[j], room) && rows[j].group == group)
  {
    if rows == [] || (IsBridge(rows[0], room) && rows[0].group == group) then 0
    else 1 + GroupBridge(rows[1..], room, group)
  }

  function RoomBridge(rows: seq<Row>, room: string): (k: nat)
    ensures k <= |rows|
    ensures k < |rows| ==> IsBridge(rows[k], room)
    ensures forall j :: 0 <= j < k ==> !IsBridge(rows[j], room)
  {
    if rows == [] || IsBridge(rows[0], room) then 0 else 1 + RoomBridge(rows[1..], room)
  }

  predicate IsIdle(rows: seq<Row>, room: string) {
    forall row <- rows :: IsBridge(row, room) ==> row.end.users == 0
  }

  /** One more than the highest group of the room, at least 2 */
  function FreeGroup(rows: seq<Row>, room: string, selected: nat): nat {
    if rows == [] then selected + 1
    else FreeGroup(rows[1..], room, if rows[0].room == room && rows[0].group >= selected then rows[0].group else selected)
  }

  function AddUser(rows: seq<Row>, room: string, group: nat): seq<Row> {
    var k := GroupBridge(rows, room, group);
    if k == |rows| then rows else rows[k := rows[k].(end := BridgeEnd(rows[k].end.users + 1))]
  }

  function RemoveUser(rows: seq<Row>, room: string, group: nat): seq<Row> {
    var k := GroupBridge(rows, room, group);
    if k == |rows| || rows[k].end.users == 0 then rows else rows[k := rows[k].(end := BridgeEnd(rows[k].end.users - 1))]
  }

  /** The users of a group, 0 when there is no bridge */
  function Users(rows: seq<Row>, room: string, group: nat): nat {
    var k := GroupBridge(rows, room, group);
    if k == |rows| then 0 else rows[k].end.users
  }

  // ---------------------------------------------------------------- counting

  /** For one group: its rows, the ends of its bridge in it and in group 1, and its users */
  datatype Tally = Tally(rows: nat, ends: nat, mains: nat, users: nat) {
    function Plus(other: Tally): Tally {
      Tally(rows + other.rows, ends + other.ends, mains + other.mains, users + other.users)
    }
  }

  function Weigh(row: Row, room: string, group: nat): Tally {
    if row.room != room then Tally(0, 0, 0, 0)
    else if row.group != group then Tally(0, 0, if row.group == 1 && row.end == MainEnd(group) then 1 else 0, 0)
    else if row.end.BridgeEnd? then Tally(1, 1, 0, row.end.users)
    else Tally(1, 0, 0, 0)
  }

  function Sum(rows: seq<Row>, room: string, group: nat): Tally {
    if rows == [] then Tally(0, 0, 0, 0) else Weigh(rows[0], room, group).Plus(Sum(rows[1..], room, group))
  }

  lemma SumInserted(row: Row, rows: seq<Row>, room: string, group: nat)
    ensures Sum([row] + rows, room, group) == Weigh(row, room, group).Plus(Sum(rows, room, group))
  {
    assert ([row] + rows)[1..] == rows;
  }

  lemma {:induction false} SumWithout(rows: seq<Row>, k: nat, room: string, group: nat)
    requires k < |rows|
    ensures Sum(rows, room, group) == Weigh(rows[k], room, group).Plus(Sum(Without(rows, k), room, group))
  {
    hide Weigh;
    if k == 0 {
      assert Without(rows, 0) == rows[1..];
    } else {
      SumWithout(rows[1..], k - 1, room, group);
      assert Without(rows, k) == [rows[0]] + Without(rows[1..], k - 1);
      SumInserted(rows[0], Without(rows[1..], k - 1), room, group);
    }
  }

  lemma SumUpdated(rows: seq<Row>, k: nat, row: Row, room: string, group: nat)
    requires k < |rows|
    ensures exists rest: Tally ::
      Sum(rows, room, group) == Weigh(rows[k], room, group).Plus(rest)
      && Sum(rows[k := row], room, group) == Weigh(row, room, group).Plus(rest)
  {
    SumWithout(rows, k, room, group);
    SumWithout(rows[k := row], k, room, group);
    assert Without(rows[k := row], k) == Without(rows, k);
  }

  /** Something is counted exactly if some row is. */
  lemma SumPositive(rows: seq<Row>, room: string, group: nat)
    ensures Sum(rows, room, group).rows > 0 <==> exists row <- rows :: row.room == room && row.group == group
    ensures group > 1 ==> (Sum(rows, room, group).ends > 0 <==> exists row <- rows :: IsBridge(row, room) && row.group == group)
    ensures Sum(rows, room, group).mains > 0 ==> Row(room, 1, MainEnd(group)) in rows
  {
    if row :| row in rows && row.room == room && row.group == group {
      SumAtLeast(rows, row, room, group);
    }
    if row :| row in rows && IsBridge(row, room) && row.group == group {
      SumAtLeast(rows, row, room, group);
    }
    SomeRowCounts(rows, room, group);
  }

  lemma {:induction false} SumAtLeast(rows: seq<Row>, row: Row, room: string, group: nat)
    requires row in rows
    ensures var w, s := Weigh(row, room, group), Sum(rows, room, group);
      w.rows <= s.rows && w.ends <= s.ends && w.mains <= s.mains && w.users <= s.users
  {
    hide Weigh;
    if row == rows[0] {
    } else {
      SumAtLeast(rows[1..], row, room, group);
    }
  }

  /** Rows that make each of the sums positive, if it is */
  lemma {:induction false} SomeRowCounts(rows: seq<Row>, room: string, group: nat)
    ensures Sum(rows, room, group).rows > 0 ==> exists k :: 0 <= k < |rows| && Weigh(rows[k], room, group).rows > 0
    ensures Sum(rows, room, group).ends > 0 ==> exists k :: 0 <= k < |rows| && Weigh(rows[k], room, group).ends > 0
    ensures Sum(rows, room, group).mains > 0 ==> exists k :: 0 <= k < |rows| && Weigh(rows[k], room, group).mains > 0
  {
    hide Weigh;
    if rows == [] {
    } else {
      var rest := rows[1..];
      SomeRowCounts(rest, room, group);
      assert forall k :: 0 <= k < |rest| ==> rest[k] == rows[k + 1];
    }
  }

  /** With at most one end in the group, it is the one that counts the users. */
  lemma BridgeCountsUsers(rows: seq<Row>, room: string, group: nat)
    requires group > 1 && Sum(rows, room, group).ends <= 1
    ensures Users(rows, room, group) == Sum(rows, room, group).users
    ensures Sum(rows, room, group).ends == 1 <==> GroupBridge(rows, room, group) < |rows|
  {
    var k := GroupBridge(rows, room, group);
    SumPositive(rows, room, group);
    if k < |rows| {
      SumWithout(rows, k, room, group);
      NoEndsNoUsers(Without(rows, k), room, group);
    } else {
      NoEndsNoUsers(rows, room, group);
    }
  }

  lemma {:induction false} NoEndsNoUsers(rows: seq<Row>, room: string, group: nat)
    requires Sum(rows, room, group).ends == 0
    ensures Sum(rows, room, group).users == 0
  {
    if rows == [] {
    } else {
      NoEndsNoUsers(rows[1..], room, group);
    }
  }

  ghost predicate NoUsers(rows: seq<Row>, room: string) {
    forall g :: g > 1 ==> Sum(rows, room, g).users == 0
  }

  /** The bridges of a room are idle exactly if none of its groups has users. */
  lemma IdleExactly(rows: seq<Row>, room: string)
    requires forall g :: g > 1 ==> Sum(rows, room, g).ends <= 1
    ensures IsIdle(rows, room) <==> NoUsers(rows, room)
  {
    hide Sum;
    if IsIdle(rows, room) {
      forall g: nat | g > 1 ensures Sum(rows, room, g).users == 0 {
        BridgeCountsUsers(rows, room, g);
        var k := GroupBridge(rows, room, g);
        assert k < |rows| ==> rows[k] in rows;
      }
    }
    if NoUsers(rows, room) {
      forall row <- rows ensures IsBridge(row, room) ==> row.end.users == 0 {
        SumAtLeast(rows, row, room, row.group);
        assert row.group > 1 ==> Sum(rows, room, row.group).users == 0;
      }
    }
  }

  lemma BridgeWeighs(row: Row, users: nat, room: string, group: nat)
    requires row.group > 1
    ensures Weigh(row.(end := BridgeEnd(users)), room, group)
         == if row.room == room && row.group == group then Tally(1, 1, 0, users) else Tally(0, 0, 0, 0)
  {
  }

  /** Changing the users of a bridge's row changes the users of that group and nothing else. */
  lemma UsersSet(rows: seq<Row>, k: nat, users: nat, room: string, group: nat)
    requires k < |rows| && rows[k].group > 1 && rows[k].end.BridgeEnd?
    ensures var t := Sum(rows, room, group); var here := rows[k].room == room && rows[k].group == group;
      (here ==> t.users >= rows[k].end.users)
      && Sum(rows[k := rows[k].(end := BridgeEnd(users))], room, group)
         == if here then t.(users := t.users - rows[k].end.users + users) else t
  {
    hide Weigh, Sum;
    assert rows[k].(end := BridgeEnd(rows[k].end.users)) == rows[k];
    BridgeWeighs(rows[k], rows[k].end.users, room, group);
    BridgeWeighs(rows[k], users, room, group);
    SumUpdated(rows, k, rows[k].(end := BridgeEnd(users)), room, group);
  }

  /** Counting a user in or out changes the users of that group and nothing else. */
  lemma UserCounted(rows: seq<Row>, room: string, group: nat, room2: string, group2: nat)
    requires group > 1 && GroupBridge(rows, room, group) < |rows|
    ensures var t := Sum(rows, room2, group2); var here := room2 == room && group2 == group;
      Sum(AddUser(rows, room, group), room2, group2) == (if here then t.(users := t.users + 1) else t)
      && (Users(rows, room, group) > 0 && here ==> t.users > 0)
      && (Users(rows, room, group) > 0 ==>
            Sum(RemoveUser(rows, room, group), room2, group2) == if here then t.(users := t.users - 1) else t)
  {
    hide Weigh, Sum;
    var k := GroupBridge(rows, room, group);
    UsersSet(rows, k, rows[k].end.users + 1, room2, group2);
    if rows[k].end.users > 0 {
      UsersSet(rows, k, rows[k].end.users - 1, room2, group2);
    }
  }

  /** The free group lies above every row of the room, and directly above one of them unless it is 2. */
  lemma {:induction false} FreeGroupIsNext(rows: seq<Row>, room: string, selected: nat)
    ensures var g := FreeGroup(rows, room, selected);
      g > selected
      && (forall row <- rows :: row.room == room ==> row.group < g)
      && (g == selected + 1 || exists row <- rows :: row.room == room && row.group == g - 1)
    decreases |rows|
  {
    if rows == [] {
    } else {
      var next := if rows[0].room == room && rows[0].group >= selected then rows[0].group else selected;
      FreeGroupIsNext(rows[1..], room, next);
      assert rows == [rows[0]] + rows[1..];
      assert rows[0] in rows;
    }
  }

  // ---------------------------------------------------------------- the loops

  /** Rows whose stored names can be told apart */
  ghost predicate Fits(rows: seq<Row>) {
    forall row <- rows :: FitsRow(row)
  }

  ghost predicate FitsRow(row: Row) {
    && PlainName(row.room) && |row.room| <= 8 && row.group <= 9999
    && (row.end.MainEnd? ==> row.group <= 1)
  }

  /** The comparisons of names in the loops mean what they should. */
  lemma NamesDecide(row: Row, room: string, group: nat)
    requires FitsRow(row) && PlainName(room) && row.group > 0
    ensures BelongsTo(row.Name(), room, row.group) <==> row.room == room
    ensures row.Name() == FullName(room, group) <==> row.room == room && row.group == group
  {
    StoredIsFull(row.room, row.group);
    OnlyItsOwnRoom(row.room, row.group, room);
    if row.Name() == FullName(room, group) {
      FullNamesDiffer(row.room, row.group, room, group);
    }
  }

  lemma CountsItself(row: Row, room: string, group: nat)
    ensures Weigh(row, room, group).rows == if row.room == room && row.group == group then 1 else 0
  {
  }

  /** A bridge interface has no channel and a peer. */
  predicate HasPeer(row: Row) {
    !row.end.Member?
  }

  class BridgeList {
    var rows: seq<Row>

    /** pbx_capi_chat_get_group_member_count */
    method CountMembers(room: string, group: nat) returns (n: nat)
      requires Fits(rows) && PlainName(room)
      ensures n == if group == 0 then 0 else Sum(rows, room, group).rows
    {
      hide Weigh, FullName, PlainName, StoredName;
      n := 0;
      var full := FullName(room, group);
      var k := 0;
      while group != 0 && k < |rows|
        invariant 0 <= k <= |rows|
        invariant group != 0 ==> n + Sum(rows[k..], room, group).rows == Sum(rows, room, group).rows
        invariant group == 0 ==> n == 0
      {
        assert rows[k..][0] == rows[k] && rows[k..][1..] == rows[k + 1..];
        CountsItself(rows[k], room, group);
        if rows[k].group == group {
          assert rows[k] in rows;
          NamesDecide(rows[k], room, group);
          if rows[k].Name() == full {
            n := n + 1;
          }
        }
        k := k + 1;
      }
    }

    /** pbx_capi_chat_find_free_group */
    method FindFreeGroup(room: string) returns (group: nat)
      requires Fits(rows) && PlainName(room)
      ensures group == FreeGroup(rows, room, 1)
    {
      var selected := 1;
      var k := 0;
      while k < |rows|
        invariant 0 <= k <= |rows| && selected >= 1
        invariant FreeGroup(rows[k..], room, selected) == FreeGroup(rows, room, 1)
      {
        assert rows[k..][0] == rows[k] && rows[k..][1..] == rows[k + 1..];
        if rows[k].group >= selected {
          assert rows[k] in rows;
          NamesDecide(rows[k], room, rows[k].group);
          if BelongsTo(rows[k].Name(), room, rows[k].group) {
            selected := rows[k].group;
          }
        }
        k := k + 1;
      }
      group := selected + 1;
    }

    /** pbx_capi_get_group_bridge */
    method GetGroupBridge(room: string, group: nat) returns (k: nat)
      requires Fits(rows) && PlainName(room) && group > 1
      ensures k == GroupBridge(rows, room, group)
    {
      k := 0;
      while k < |rows|
        invariant 0 <= k <= |rows|
        invariant k + GroupBridge(rows[k..], room, group) == GroupBridge(rows, room, group)
      {
        assert rows[k..][0] == rows[k] && rows[k..][1..] == rows[k + 1..];
        if rows[k].group == group {
          assert rows[k] in rows;
          NamesDecide(rows[k], room, group);
          if BelongsTo(rows[k].Name(), room, rows[k].group) && HasPeer(rows[k]) {
            return;
          }
        }
        k := k + 1;
      }
    }

    /** pbx_capi_get_room_bridge */
    method GetRoomBridge(room: string) returns (k: nat)
      requires Fits(rows) && PlainName(room)
      ensures k == RoomBridge(rows, room)
    {
      k := 0;
      while k < |rows|
        invariant 0 <= k <= |rows|
        invariant k + RoomBridge(rows[k..], room) == RoomBridge(rows, room)
      {
        assert rows[k..][0] == rows[k] && rows[k..][1..] == rows[k + 1..];
        if rows[k].group > 1 {
          assert rows[k] in rows;
          NamesDecide(rows[k], room, rows[k].group);
          if BelongsTo(rows[k].Name(), room, rows[k].group) && HasPeer(rows[k]) {
            break;
          }
        }
        k := k + 1;
      }
    }

    /** pbx_capi_is_bridge_idle */
    method IsBridgeIdle(room: string) returns (idle: bool)
      requires Fits(rows) && PlainName(room)
      ensures idle == IsIdle(rows, room)
      ensures idle <==> forall row <- rows :: row.room == room && row.group > 1 && row.end.BridgeEnd? ==> row.end.users == 0
    {
      idle := true;
      var k := 0;
      while idle && k < |rows|
        invariant 0 <= k <= |rows|
        invariant idle ==> IsIdle(rows[..k], room)
        invariant !idle ==> !IsIdle(rows, room)
      {
        assert rows[k] in rows;
        assert rows[..k + 1] == rows[..k] + [rows[k]];
        if rows[k].group > 1 {
          NamesDecide(rows[k], room, rows[k].group);
          if HasPeer(rows[k]) && rows[k].end.users != 0 && BelongsTo(rows[k].Name(), room, rows[k].group) {
            idle := false;
          }
        }
        k := k + 1;
      }
      assert rows[..|rows|] == rows;
    }

    /** pbx_capi_add_group_user */
    method AddGroupUser(room: string, group: nat) returns (users: nat)
      requires Fits(rows) && PlainName(room) && group > 1
      modifies this
      ensures rows == AddUser(old(rows), room, group)
      ensures users == Users(rows, room, group)
      ensures GroupBridge(old(rows), room, group) == |old(rows)| ==> rows == old(rows) && users == 0
    {
      users := 0;
      var k := GetGroupBridge(room, group);
      if k < |rows| {
        rows := rows[k := rows[k].(end := BridgeEnd(rows[k].end.users + 1))];
        users := rows[k].end.users;
      }
      FirstStaysFirst(old(rows), rows, room, group);
    }

    /** pbx_capi_remove_group_user */
    method RemoveGroupUser(room: string, group: nat) returns (users: nat)
      requires Fits(rows) && PlainName(room) && group > 1
      modifies this
      ensures rows == RemoveUser(old(rows), room, group)
      ensures users == Users(rows, room, group)
      ensures GroupBridge(old(rows), room, group) == |old(rows)| || Users(old(rows), room, group) == 0
              ==> rows == old(rows) && users == 0
    {
      users := 0;
      var k := GetGroupBridge(room, group);
      if k < |rows| {
        if rows[k].end.users != 0 {
          rows := rows[k := rows[k].(end := BridgeEnd(rows[k].end.users - 1))];
        }
        users := rows[k].end.users;
      }
      FirstStaysFirst(old(rows), rows, room, group);
    }

    // -------------------------------------------------------------- one caller in the section

    /**
     pbx_capi_find_group; `suits` says whether controller and size of a group admit the caller,
     `connects` whether the two ends of a new bridge can be set up.
     */
    method FindGroup(room: string, suits: nat -> bool, connects: bool) returns (group: nat)
      requires Fits(rows) && PlainName(room) && GroupsUpToFree(rows, room)
      modifies this
      ensures var free := FreeGroup(old(rows), room, 1);
        if exists i :: 1 < i < free && suits(i) then
          1 < group < free && suits(group) && (forall i :: 1 < i < group ==> !suits(i)) && rows == old(rows)
        else if connects then group == free && rows == Connected(old(rows), room, free)
        else group == 0 && rows == old(rows)
    {
      hide Sum, FreeGroup, Fits, PlainName;
      var i := 2;
      group := 0;
      ghost var free := FreeGroup(rows, room, 1);
      FreeGroupIsNext(rows, room, 1);
      while true
        invariant rows == old(rows) && 1 < i <= free && forall j :: 1 < j < i ==> !suits(j)
        decreases free - i
      {
        var v := CountMembers(room, i);
        if v == 0 {
          break;
        }
        if suits(i) {
          return i;
        }
        i := i + 1;
      }
      var selected := FindFreeGroup(room);
      if connects {
        rows := [Row(room, 1, MainEnd(selected))] + rows;
        rows := [Row(room, selected, BridgeEnd(0))] + rows;
        group := selected;
        assert rows == Connected(old(rows), room, selected);
      }
    }

    /** pbx_capi_get_group_main_bridge */
    method GetMainBridge(room: string, group: nat) returns (k: nat)
      requires group > 1 && Sum(rows, room, group).mains > 0
      ensures k < |rows| && rows[k] == Row(room, 1, MainEnd(group))
    {
      SumPositive(rows, room, group);
      hide Sum;
      ghost var there :| 0 <= there < |rows| && rows[there] == Row(room, 1, MainEnd(group));
      k := 0;
      while rows[k] != Row(room, 1, MainEnd(group))
        invariant 0 <= k <= there
        decreases there - k
      {
        k := k + 1;
      }
    }

    /** The loop that deletes the bridges of a room: both rows of each, and no other row. */
    method TearDown(room: string)
      requires Fits(rows) && PlainName(room) && Paired(rows, room)
      modifies this
      ensures RoomBridge(rows, room) == |rows| && OnlyEndsGone(rows, old(rows), room)
      ensures forall r, g :: g > 1 ==> Sum(rows, r, g) == if r == room then WithoutBridge(Sum(old(rows), r, g)) else Sum(old(rows), r, g)
    {
      hide Sum, Fits, FitsRow, Paired, SameOrTorn, RoomBridge, PlainName;
      ghost var before := rows;
      NothingTorn(rows, room);
      var k := GetRoomBridge(room);
      while k < |rows|
        invariant Fits(rows) && Paired(rows, room) && k == RoomBridge(rows, room)
        invariant PartlyTorn(rows, before, room) && OnlyEndsGone(rows, before, room)
        decreases |rows|
      {
        DeleteBridge(room, k, before);
        k := GetRoomBridge(room);
      }
      AllTorn(rows, before, room);
    }

    /** One round of the loop: the row at k and the main end its interface points to */
    method DeleteBridge(room: string, k: nat, ghost before: seq<Row>)
      requires Fits(rows) && Paired(rows, room) && PartlyTorn(rows, before, room) && OnlyEndsGone(rows, before, room)
      requires k < |rows| && IsBridge(rows[k], room)
      modifies this
      ensures |rows| == |old(rows)| - 2 && Fits(rows) && Paired(rows, room) && PartlyTorn(rows, before, room)
      ensures OnlyEndsGone(rows, before, room)
    {
      ghost var was := rows;
      var group := rows[k].group;
      assert rows[k] in rows;
      SumPositive(rows, room, group);
      var j := GetMainBridge(room, group);
      ghost var half := Without(rows, k);
      rows := rows[..k] + rows[k + 1..];
      var l := if j < k then j else j - 1;
      rows := rows[..l] + rows[l + 1..];
      BothEndsDeleted(was, k, l, room, group, before);
      EndGone(was, k, before, room);
      EndGone(half, l, before, room);
    }

    /** pbx_capi_cleanup_bridge */
    method CleanupBridge(room: string, group: nat)
      requires Fits(rows) && PlainName(room) && group > 1 && Paired(rows, room)
      modifies this
      ensures var left := RemoveUser(old(rows), room, group);
        if NoUsers(left, room) then
          RoomBridge(rows, room) == |rows| && OnlyEndsGone(rows, left, room)
          && forall r, g :: g > 1 ==> Sum(rows, r, g) == if r == room then WithoutBridge(Sum(left, r, g)) else Sum(left, r, g)
        else rows == left
    {
      ghost var was := rows;
      var bridgeUsers := RemoveGroupUser(room, group);
      RemovingKeeps(was, room, group);
      hide *;
      GroupUsers(rows, room, group);
      if bridgeUsers == 0 {
        var idle := IsBridgeIdle(room);
        if idle {
          TearDown(room);
        }
      }
    }
  }

  // ---------------------------------------------------------------- whole operations

  /** The groups of a room are exactly those below the free one. */
  ghost predicate GroupsUpToFree(rows: seq<Row>, room: string) {
    forall i :: i > 1 ==> (Sum(rows, room, i).rows > 0 <==> i < FreeGroup(rows, room, 1))
  }

  function Connected(rows: seq<Row>, room: string, group: nat): seq<Row> {
    [Row(room, group, BridgeEnd(0)), Row(room, 1, MainEnd(group))] + rows
  }

  /** Every bridge of the room has both its ends in the list, once. */
  ghost predicate Paired(rows: seq<Row>, room: string) {
    forall g :: g > 1 ==> Sum(rows, room, g).mains == Sum(rows, room, g).ends <= 1
  }

  function WithoutBridge(t: Tally): Tally {
    Tally(if t.ends <= t.rows then t.rows - t.ends else 0, 0, if t.ends <= t.mains then t.mains - t.ends else 0, 0)
  }

  predicate SameOrTorn(now: Tally, before: Tally, here: bool) {
    now == before || (here && now == WithoutBridge(before))
  }

  ghost predicate PartlyTorn(rows: seq<Row>, before: seq<Row>, room: string) {
    forall r, g :: g > 1 ==> SameOrTorn(Sum(rows, r, g), Sum(before, r, g), r == room)
  }

  /** An end of one of the room's bridges */
  predicate IsEnd(row: Row, room: string) {
    IsBridge(row, room) || (row.room == room && row.group == 1 && row.end.MainEnd?)
  }

  /** Every other row is in the list as often as before. */
  ghost predicate OnlyEndsGone(rows: seq<Row>, before: seq<Row>, room: string) {
    forall row: Row :: !IsEnd(row, room) ==> multiset(rows)[row] == multiset(before)[row]
  }

  lemma EndGone(rows: seq<Row>, k: nat, before: seq<Row>, room: string)
    requires OnlyEndsGone(rows, before, room) && k < |rows| && IsEnd(rows[k], room)
    ensures OnlyEndsGone(Without(rows, k), before, room)
  {
    hide IsEnd;
    assert rows == rows[..k] + [rows[k]] + rows[k + 1..];
  }

  lemma BothEndsDeleted(rows: seq<Row>, k: nat, l: nat, room: string, group: nat, before: seq<Row>)
    requires Fits(rows) && Paired(rows, room) && PartlyTorn(rows, before, room)
    requires k < |rows| && IsBridge(rows[k], room) && rows[k].group == group
    requires l < |Without(rows, k)| && Without(rows, k)[l] == Row(room, 1, MainEnd(group))
    ensures var left := Without(Without(rows, k), l);
      Fits(left) && Paired(left, room) && PartlyTorn(left, before, room)
  {
    hide Sum, Without, WithoutBridge, Fits;
    var half := Without(rows, k);
    var left := Without(half, l);
    FitsWithout(rows, k);
    FitsWithout(half, l);
    assert Sum(rows, room, group).mains == Sum(rows, room, group).ends <= 1;
    forall r, g: nat | g > 1
      ensures Sum(left, r, g) == if r == room && g == group then WithoutBridge(Sum(rows, r, g)) else Sum(rows, r, g)
    {
      EndsWeigh(rows, k, l, room, group, r, g);
    }
    forall g: nat | g > 1 ensures Sum(left, room, g).mains == Sum(left, room, g).ends <= 1 {
      assert Sum(rows, room, g).mains == Sum(rows, room, g).ends <= 1;
      TornTwice(Sum(rows, room, g), Sum(rows, room, g));
    }
    forall r, g: nat | g > 1 ensures SameOrTorn(Sum(left, r, g), Sum(before, r, g), r == room) {
      assert SameOrTorn(Sum(rows, r, g), Sum(before, r, g), r == room);
      TornTwice(Sum(rows, r, g), Sum(before, r, g));
    }
  }

  lemma NothingTorn(rows: seq<Row>, room: string)
    ensures PartlyTorn(rows, rows, room)
  {
    hide Sum;
  }

  lemma AllTorn(rows: seq<Row>, before: seq<Row>, room: string)
    requires RoomBridge(rows, room) == |rows| && PartlyTorn(rows, before, room)
    ensures forall r, g :: g > 1 ==> Sum(rows, r, g) == if r == room then WithoutBridge(Sum(before, r, g)) else Sum(before, r, g)
  {
    hide Sum;
    forall r, g: nat | g > 1
      ensures Sum(rows, r, g) == if r == room then WithoutBridge(Sum(before, r, g)) else Sum(before, r, g)
    {
      assert SameOrTorn(Sum(rows, r, g), Sum(before, r, g), r == room);
      SumPositive(rows, room, g);
      NoEndsNoUsers(rows, room, g);
      TornTwice(Sum(rows, r, g), Sum(before, r, g));
    }
  }

  lemma TornTwice(t: Tally, before: Tally)
    ensures t == WithoutBridge(before) ==> WithoutBridge(t) == t
    ensures t.mains == t.ends ==> WithoutBridge(t).mains == WithoutBridge(t).ends == 0
  {
  }

  lemma FitsWithout(rows: seq<Row>, k: nat)
    requires Fits(rows) && k < |rows|
    ensures Fits(Without(rows, k))
  {
    hide FitsRow;
    forall row <- Without(rows, k) ensures FitsRow(row) {
      assert row in rows;
    }
  }

  lemma EndsWeigh(rows: seq<Row>, k: nat, l: nat, room: string, group: nat, r: string, g: nat)
    requires k < |rows| && IsBridge(rows[k], room) && rows[k].group == group && g > 1
    requires l < |Without(rows, k)| && Without(rows, k)[l] == Row(room, 1, MainEnd(group))
    requires Sum(rows, room, group).mains == Sum(rows, room, group).ends <= 1
    ensures Sum(Without(Without(rows, k), l), r, g)
         == if r == room && g == group then WithoutBridge(Sum(rows, r, g)) else Sum(rows, r, g)
  {
    hide Sum, Without;
    var half := Without(rows, k);
    SumWithout(rows, k, r, g);
    SumWithout(half, l, r, g);
    if r == room && g == group {
      NoEndsNoUsers(Without(half, l), room, group);
    }
  }

  lemma GroupUsers(rows: seq<Row>, room: string, group: nat)
    requires Paired(rows, room) && group > 1
    ensures IsIdle(rows, room) <==> NoUsers(rows, room)
    ensures NoUsers(rows, room) ==> Users(rows, room, group) == 0
  {
    hide Sum, Users, IsIdle;
    assert Sum(rows, room, group).ends <= 1;
    BridgeCountsUsers(rows, room, group);
    IdleExactly(rows, room);
  }

  /** Counting a user out leaves the rows as paired and as readable as they were. */
  lemma RemovingKeeps(rows: seq<Row>, room: string, group: nat)
    requires Fits(rows) && Paired(rows, room) && group > 1
    ensures Fits(RemoveUser(rows, room, group)) && Paired(RemoveUser(rows, room, group), room)
  {
    var left := RemoveUser(rows, room, group);
    hide Sum;
    if GroupBridge(rows, room, group) < |rows| && Users(rows, room, group) > 0 {
      forall g: nat | g > 1 ensures Sum(left, room, g).mains == Sum(left, room, g).ends <= 1 {
        UserCounted(rows, room, group, room, g);
        assert Sum(rows, room, g).mains == Sum(rows, room, g).ends <= 1;
      }
      forall row <- left ensures FitsRow(row) {
        var j :| 0 <= j < |left| && left[j] == row;
        assert rows[j] in rows;
      }
    }
  }

  /** Counting users does not change which row is found. */
  lemma FirstStaysFirst(before: seq<Row>, after: seq<Row>, room: string, group: nat)
    requires after == AddUser(before, room, group) || after == RemoveUser(before, room, group)
    ensures |after| == |before| && GroupBridge(after, room, group) == GroupBridge(before, room, group)
  {
    var k, l := GroupBridge(before, room, group), GroupBridge(after, room, group);
    if k < |before| {
      assert IsBridge(after[k], room) && after[k].group == group;
    }
  }
}
