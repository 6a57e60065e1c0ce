/**
 Large conferences: any number of callers find or create a group, count themselves in, join and
 part, count themselves out and tear idle bridges down. A flag and a condition variable keep
 the first and the last part of a call to one caller at a time; everything that holds the list
 lock is one step, and steps of different callers interleave freely.
 */
module BridgeProtocol {
  import opened BridgeRows
  import opened Common

  /** What a caller enters the modify section for */
  datatype Aim = Find(room: string) | Clean(room: string, group: nat)

  /** Where a caller is in pbx_capi_chat */
  datatype Pc =
    | Idle
    | Entering(aim: Aim)                      // about to test the flag
    | Waiting(aim: Aim)                       // in ast_cond_wait
    | Finding(room: string, i: nat)           // about to count group i
    | Choosing(room: string, i: nat)          // group i was empty
    | Creating(room: string, group: nat)
    | Connecting(room: string, group: nat)    // the end in group 1 is in the list
    | Adding(room: string, group: nat)
    | Leaving(found: bool, room: string, group: nat)
    | Holding(room: string, group: nat)
    | Joined(room: string, group: nat)
    | Removing(room: string, group: nat)
    | Checking(room: string)
    | Tearing(room: string)
    | DeletingBridge(room: string, group: nat)
    | DeletingMain(room: string, group: nat)

  datatype State = State(modifying: bool, rows: seq<Row>, pcs: seq<Pc>)

  // ---------------------------------------------------------------- counting callers

  datatype Class =
    | Inside                                  // in the modify section
    | Blocked
    | Trying
    | Holds(room: string, group: nat)         // from add_group_user to remove_group_user
    | InRoom(room: string, group: nat)
    | Half(room: string, group: nat)          // has only the main end of a bridge in the list
    | Tears(room: string)
    | Serves(room: string)                    // is about to count itself in, to check or to tear down

  predicate Is(pc: Pc, k: Class) {
    match k
    case Inside => !pc.Idle? && !pc.Entering? && !pc.Waiting? && !pc.Holding? && !pc.Joined?
    case Blocked => pc.Waiting?
    case Trying => pc.Entering?
    case Holds(room, group) =>
      || pc == Leaving(true, room, group) || pc == Holding(room, group) || pc == Joined(room, group)
      || pc == Entering(Clean(room, group)) || pc == Waiting(Clean(room, group)) || pc == Removing(room, group)
    case InRoom(room, group) => pc == Joined(room, group)
    case Half(room, group) => pc == Connecting(room, group) || pc == DeletingMain(room, group)
    case Tears(room) => (pc.Tearing? || pc.DeletingBridge? || pc.DeletingMain?) && pc.room == room
    case Serves(room) =>
      (pc.Adding? || pc.Checking? || pc.Tearing? || pc.DeletingBridge? || pc.DeletingMain?) && pc.room == room
  }

  function Count(pcs: seq<Pc>, k: Class): nat {
    if pcs == [] then 0 else Bit(Is(pcs[0], k)) + Count(pcs[1..], k)
  }

  lemma {:induction false} CountUpdated(pcs: seq<Pc>, c: nat, pc: Pc, k: Class)
    requires c < |pcs|
    ensures Count(pcs[c := pc], k) + Bit(Is(pcs[c], k)) == Count(pcs, k) + Bit(Is(pc, k))
  {
    hide Is;
    if c == 0 {
      assert pcs[0 := pc][1..] == pcs[1..];
    } else {
      assert pcs[c := pc][1..] == pcs[1..][c - 1 := pc];
      CountUpdated(pcs[1..], c - 1, pc, k);
    }
  }

  lemma {:induction false} CountPositive(pcs: seq<Pc>, k: Class)
    ensures Count(pcs, k) > 0 <==> exists j :: 0 <= j < |pcs| && Is(pcs[j], k)
  {
    hide Is;
    if pcs == [] {
    } else {
      CountPositive(pcs[1..], k);
      if j :| 0 <= j < |pcs[1..]| && Is(pcs[1..][j], k) {
        assert Is(pcs[j + 1], k);
      }
      if j :| 0 <= j < |pcs| && Is(pcs[j], k) {
        assert j > 0 ==> pcs[1..][j - 1] == pcs[j];
      }
    }
  }

  /** A class within another has no more callers. */
  lemma {:induction false} CountWithin(pcs: seq<Pc>, small: Class, large: Class)
    requires forall pc :: Is(pc, small) ==> Is(pc, large)
    ensures Count(pcs, small) <= Count(pcs, large)
  {
    hide Is;
    if pcs == [] {
    } else {
      CountWithin(pcs[1..], small, large);
    }
  }

  // ---------------------------------------------------------------- the steps

  datatype Action =
    | Call(c: nat, name: string)
    | Test(c: nat)                            // test the flag, take it or wait
    | WakeUp(c: nat)                          // a wait may also end by itself
    | CountGroup(c: nat, take: bool)          // take: right controller and below the cap
    | Choose(c: nat)
    | CreateFails(c: nat)
    | AddMain(c: nat)
    | AddBridge(c: nat)
    | AddBridgeFails(c: nat, k: nat)
    | CountIn(c: nat)
    | Leave(c: nat, woken: nat)
    | Join(c: nat)
    | Part(c: nat, k: nat)
    | GiveUp(c: nat)
    | CountOut(c: nat)
    | CheckIdle(c: nat)
    | FindBridge(c: nat)
    | DeleteBridge(c: nat, k: nat)
    | DeleteMain(c: nat, k: nat)
    | OtherJoins(c: nat, row: Row)            // a row of an ordinary conference
    | OtherLeaves(c: nat, k: nat)

  ghost predicate SomeoneWaits(pcs: seq<Pc>) {
    exists j :: 0 <= j < |pcs| && pcs[j].Waiting?
  }

  ghost predicate Enabled(s: State, a: Action) {
    && a.c < |s.pcs|
    && var pc := s.pcs[a.c];
       match a
       case Call(_, _) => pc.Idle?
       case Test(_) => pc.Entering?
       case WakeUp(_) => pc.Waiting?
       case CountGroup(_, _) => pc.Finding?
       case Choose(_) => pc.Choosing?
       case CreateFails(_) => pc.Creating?
       case AddMain(_) => pc.Creating?
       case AddBridge(_) => pc.Connecting?
       case AddBridgeFails(_, k) => pc.Connecting? && k < |s.rows| && s.rows[k] == Row(pc.room, 1, MainEnd(pc.group))
       case CountIn(_) => pc.Adding?
       case Leave(_, woken) =>
         pc.Leaving? && if SomeoneWaits(s.pcs) then woken < |s.pcs| && s.pcs[woken].Waiting? else woken == a.c
       case Join(_) => pc.Holding?
       case Part(_, k) => pc.Joined? && k < |s.rows| && s.rows[k] == Row(pc.room, pc.group, Member(a.c))
       case GiveUp(_) => pc.Holding?
       case CountOut(_) => pc.Removing?
       case CheckIdle(_) => pc.Checking?
       case FindBridge(_) => pc.Tearing?
       case DeleteBridge(_, k) => pc.DeletingBridge? && k < |s.rows| && IsBridge(s.rows[k], pc.room) && s.rows[k].group == pc.group
       case DeleteMain(_, k) => pc.DeletingMain? && k < |s.rows| && s.rows[k] == Row(pc.room, 1, MainEnd(pc.group))
       case OtherJoins(_, row) => pc.Idle? && row.group == 0
       case OtherLeaves(_, k) => pc.Idle? && k < |s.rows| && s.rows[k].group == 0
  }

  function Begin(aim: Aim): Pc {
    match aim
    case Find(room) => Finding(room, 2)
    case Clean(room, group) => Removing(room, group)
  }

  /** Where the acting caller goes */
  function Target(s: State, a: Action): Pc
    requires Enabled(s, a)
  {
    var pc := s.pcs[a.c];
    match a
    case Call(_, name) => Entering(Find(name))
    case Test(_) => if s.modifying then Waiting(pc.aim) else Begin(pc.aim)
    case WakeUp(_) => Entering(pc.aim)
    case CountGroup(_, take) =>
      if Sum(s.rows, pc.room, pc.i).rows == 0 then Choosing(pc.room, pc.i)
      else if take then Adding(pc.room, pc.i)
      else Finding(pc.room, pc.i + 1)
    case Choose(_) => Creating(pc.room, FreeGroup(s.rows, pc.room, 1))
    case CreateFails(_) => Leaving(false, pc.room, 0)
    case AddMain(_) => Connecting(pc.room, pc.group)
    case AddBridge(_) => Adding(pc.room, pc.group)
    case AddBridgeFails(_, _) => Leaving(false, pc.room, 0)
    case CountIn(_) => Leaving(true, pc.room, pc.group)
    case Leave(_, _) => if pc.found then Holding(pc.room, pc.group) else Idle
    case Join(_) => Joined(pc.room, pc.group)
    case Part(_, _) => Entering(Clean(pc.room, pc.group))
    case GiveUp(_) => Entering(Clean(pc.room, pc.group))
    case CountOut(_) =>
      if Users(RemoveUser(s.rows, pc.room, pc.group), pc.room, pc.group) == 0 then Checking(pc.room) else Leaving(false, pc.room, 0)
    case CheckIdle(_) => if IsIdle(s.rows, pc.room) then Tearing(pc.room) else Leaving(false, pc.room, 0)
    case FindBridge(_) =>
      var k := RoomBridge(s.rows, pc.room);
      if k < |s.rows| then DeletingBridge(pc.room, s.rows[k].group) else Leaving(false, pc.room, 0)
    case DeleteBridge(_, _) => DeletingMain(pc.room, pc.group)
    case DeleteMain(_, _) => Tearing(pc.room)
    case OtherJoins(_, _) => Idle
    case OtherLeaves(_, _) => Idle
  }

  predicate Inserts(a: Action) {
    a.AddMain? || a.AddBridge? || a.Join? || a.OtherJoins?
  }

  predicate Deletes(a: Action) {
    a.AddBridgeFails? || a.Part? || a.DeleteBridge? || a.DeleteMain? || a.OtherLeaves?
  }

  function NewRow(s: State, a: Action): Row
    requires Enabled(s, a) && Inserts(a)
  {
    var pc := s.pcs[a.c];
    match a
    case AddMain(_) => Row(pc.room, 1, MainEnd(pc.group))
    case AddBridge(_) => Row(pc.room, pc.group, BridgeEnd(0))
    case Join(_) => Row(pc.room, pc.group, Member(a.c))
    case OtherJoins(_, row) => row
  }

  /** New rows go to the head of the list. */
  function RowsAfter(s: State, a: Action): seq<Row>
    requires Enabled(s, a)
  {
    var pc := s.pcs[a.c];
    if Inserts(a) then [NewRow(s, a)] + s.rows
    else if Deletes(a) then Without(s.rows, a.k)
    else if a.CountIn? then AddUser(s.rows, pc.room, pc.group)
    else if a.CountOut? then RemoveUser(s.rows, pc.room, pc.group)
    else s.rows
  }

  function Wake(pcs: seq<Pc>, w: nat): seq<Pc> {
    if w < |pcs| && pcs[w].Waiting? then pcs[w := Entering(pcs[w].aim)] else pcs
  }

  function PcsAfter(s: State, a: Action): (pcs: seq<Pc>)
    requires Enabled(s, a)
    ensures |pcs| == |s.pcs|
  {
    var pcs := s.pcs[a.c := Target(s, a)];
    if a.Leave? then Wake(pcs, a.woken) else pcs
  }

  function After(s: State, a: Action): State
    requires Enabled(s, a)
  {
    State(if a.Test? then true else if a.Leave? then false else s.modifying, RowsAfter(s, a), PcsAfter(s, a))
  }

  // ---------------------------------------------------------------- the invariant

  /** One caller in the section while the flag is set, none otherwise; and nobody waits for nothing. */
  ghost predicate Locked(s: State) {
    && Count(s.pcs, Inside) == Bit(s.modifying)
    && (!s.modifying && Count(s.pcs, Blocked) > 0 ==> Count(s.pcs, Trying) > 0)
  }

  /** The rows of a group are accounted for by its bridge and the callers. */
  ghost predicate AccountsFor(s: State, room: string, group: nat) {
    var t := Sum(s.rows, room, group);
    && t.ends <= 1 && (t.users > 0 ==> t.ends == 1)
    && t.users == Count(s.pcs, Holds(room, group))
    && t.rows == t.ends + Count(s.pcs, InRoom(room, group))
    && t.mains == t.ends + Count(s.pcs, Half(room, group))
  }

  ghost predicate Accounted(s: State) {
    forall room, group :: group > 1 ==> AccountsFor(s, room, group)
  }

  ghost predicate HasBridge(rows: seq<Row>, room: string, group: nat) {
    Sum(rows, room, group).ends > 0
  }

  /** Without a teardown under way, the groups of a room are 2..n. */
  ghost predicate NoGaps(s: State) {
    forall room, group :: group > 1 && Count(s.pcs, Tears(room)) == 0 && HasBridge(s.rows, room, group + 1)
                          ==> HasBridge(s.rows, room, group)
  }

  ghost predicate Filled(rows: seq<Row>, room: string, i: nat) {
    i > 1 && forall group :: 1 < group < i ==> HasBridge(rows, room, group)
  }

  ghost predicate NoHolders(pcs: seq<Pc>, room: string) {
    forall group :: group > 1 ==> Count(pcs, Holds(room, group)) == 0
  }

  /** What a caller relies on between its steps */
  ghost predicate PlaceOk(s: State, c: nat, pc: Pc) {
    match pc
    case Finding(room, i) => Filled(s.rows, room, i)
    case Choosing(room, i) => Filled(s.rows, room, i) && Sum(s.rows, room, i).rows == 0
    case Creating(room, group) => Filled(s.rows, room, group) && Sum(s.rows, room, group).rows == 0
    case Connecting(room, group) => Filled(s.rows, room, group) && Sum(s.rows, room, group).rows == 0
    case Adding(room, group) => group > 1 && HasBridge(s.rows, room, group)
    case Tearing(room) => NoHolders(s.pcs, room)
    case DeletingBridge(room, group) => NoHolders(s.pcs, room) && group > 1 && HasBridge(s.rows, room, group)
    case DeletingMain(room, group) => NoHolders(s.pcs, room) && group > 1 && !HasBridge(s.rows, room, group)
    case Leaving(found, _, group) => found ==> group > 1
    case Holding(_, group) => group > 1
    case Joined(room, group) => group > 1 && Row(room, group, Member(c)) in s.rows
    case Removing(_, group) => group > 1
    case Entering(aim) => aim.Clean? ==> aim.group > 1
    case Waiting(aim) => aim.Clean? ==> aim.group > 1
    case _ => true
  }

  ghost predicate Placed(s: State) {
    forall c :: 0 <= c < |s.pcs| ==> PlaceOk(s, c, s.pcs[c])
  }

  ghost predicate Inv(s: State) {
    Locked(s) && Accounted(s) && NoGaps(s) && Placed(s)
  }

  // ---------------------------------------------------------------- one caller at a time

  /** How a step changes the number of callers in a class */
  lemma CountsAfter(s: State, a: Action, k: Class)
    requires Enabled(s, a)
    ensures var woken := a.Leave? && SomeoneWaits(s.pcs);
      Count(PcsAfter(s, a), k) + Bit(Is(s.pcs[a.c], k)) + (if woken then Bit(Is(s.pcs[a.woken], k)) else 0)
      == Count(s.pcs, k) + Bit(Is(Target(s, a), k)) + (if woken then Bit(Is(Entering(s.pcs[a.woken].aim), k)) else 0)
  {
    assert a.Leave? ==> !Target(s, a).Waiting?;
    hide Is, Target;
    CountUpdated(s.pcs, a.c, Target(s, a), k);
    if a.Leave? && SomeoneWaits(s.pcs) {
      CountUpdated(s.pcs[a.c := Target(s, a)], a.woken, Entering(s.pcs[a.woken].aim), k);
    }
  }

  lemma FlagKept(s: State, a: Action)
    requires Locked(s) && Enabled(s, a)
    ensures Count(After(s, a).pcs, Inside) == Bit(After(s, a).modifying)
  {
    hide Sum, FreeGroup, IsIdle, RoomBridge, Users, RemoveUser, RowsAfter, PcsAfter, Count;
    CountsAfter(s, a, Inside);
    CountPositive(s.pcs, Inside);
    assert Is(s.pcs[a.c], Inside) ==> s.modifying;
  }

  lemma LockedKept(s: State, a: Action)
    requires Locked(s) && Enabled(s, a)
    ensures Locked(After(s, a))
  {
    hide Sum, FreeGroup, IsIdle, RoomBridge, Users, RemoveUser, RowsAfter, PcsAfter, Count;
    FlagKept(s, a);
    CountsAfter(s, a, Blocked);
    CountsAfter(s, a, Trying);
    CountPositive(s.pcs, Inside);
    CountPositive(s.pcs, Blocked);
    assert SomeoneWaits(s.pcs) <==> Count(s.pcs, Blocked) > 0 by {
      assert forall j :: 0 <= j < |s.pcs| ==> (Is(s.pcs[j], Blocked) <==> s.pcs[j].Waiting?);
    }
  }

  /** Of two different callers at most one is in the section. */
  lemma {:induction false} OneInside(pcs: seq<Pc>, i: nat, j: nat)
    requires i < |pcs| && j < |pcs| && i != j && Is(pcs[i], Inside) && Is(pcs[j], Inside)
    ensures Count(pcs, Inside) >= 2
  {
    CountUpdated(pcs, i, Idle, Inside);
    CountPositive(pcs[i := Idle], Inside);
    assert Is(pcs[i := Idle][j], Inside);
  }

  // ---------------------------------------------------------------- the accounts

  ghost predicate BridgeFound(s: State, pc: Pc)
    requires pc.Adding? || pc.Removing?
  {
    pc.group > 1 && GroupBridge(s.rows, pc.room, pc.group) < |s.rows|
    && (pc.Removing? ==> Users(s.rows, pc.room, pc.group) > 0)
  }

  /** How a step changes what is counted for a group */
  lemma RowsChange(s: State, a: Action, room: string, group: nat)
    requires Enabled(s, a) && (a.CountIn? || a.CountOut? ==> BridgeFound(s, s.pcs[a.c]))
    ensures var pc := s.pcs[a.c]; var t := Sum(s.rows, room, group); var u := Sum(RowsAfter(s, a), room, group);
      if Inserts(a) then u == Weigh(NewRow(s, a), room, group).Plus(t)
      else if Deletes(a) then t == Weigh(s.rows[a.k], room, group).Plus(u)
      else if (a.CountIn? || a.CountOut?) && pc.room == room && pc.group == group then
        if a.CountIn? then u == t.(users := t.users + 1) else t.users > 0 && u == t.(users := t.users - 1)
      else u == t
  {
    var pc := s.pcs[a.c];
    hide Weigh, Sum, AddUser, RemoveUser, Users, Without, FreeGroup, IsIdle;
    if Inserts(a) {
      SumInserted(NewRow(s, a), s.rows, room, group);
    } else if Deletes(a) {
      SumWithout(s.rows, a.k, room, group);
    } else if a.CountIn? || a.CountOut? {
      UserCounted(s.rows, pc.room, pc.group, room, group);
    }
  }

  /** A caller that counts itself in or out finds the bridge of its group, and never a count of zero. */
  lemma BridgeIsFound(s: State, c: nat)
    requires Accounted(s) && Placed(s) && c < |s.pcs| && (s.pcs[c].Adding? || s.pcs[c].Removing?)
    ensures BridgeFound(s, s.pcs[c])
  {
    var pc := s.pcs[c];
    hide Sum, GroupBridge;
    assert PlaceOk(s, c, pc) && AccountsFor(s, pc.room, pc.group);
    BridgeCountsUsers(s.rows, pc.room, pc.group);
    if pc.Removing? {
      CountPositive(s.pcs, Holds(pc.room, pc.group));
      assert Is(s.pcs[c], Holds(pc.room, pc.group));
    }
  }

  predicate Here(pc: Pc, room: string, group: nat) {
    !pc.Idle? && !pc.Entering? && !pc.Waiting? && !pc.Finding? && !pc.Choosing? && !pc.Checking? && !pc.Tearing?
    && pc.room == room && pc.group == group
  }

  /** Only counting in and out changes who holds a group. */
  lemma HoldersChange(s: State, a: Action, room: string, group: nat)
    requires Enabled(s, a)
    ensures var n := Count(s.pcs, Holds(room, group)); var m := Count(PcsAfter(s, a), Holds(room, group));
      var here := Here(s.pcs[a.c], room, group);
      if a.CountIn? && here then m == n + 1 else if a.CountOut? && here then m + 1 == n else m == n
  {
    hide PcsAfter, Sum, FreeGroup, IsIdle, RoomBridge, Users, RemoveUser, Count;
    CountsAfter(s, a, Holds(room, group));
  }

  lemma JoinedChange(s: State, a: Action, room: string, group: nat)
    requires Enabled(s, a)
    ensures var n := Count(s.pcs, InRoom(room, group)); var m := Count(PcsAfter(s, a), InRoom(room, group));
      var here := Here(s.pcs[a.c], room, group);
      if a.Join? && here then m == n + 1 else if a.Part? && here then m + 1 == n else m == n
  {
    hide PcsAfter, Sum, FreeGroup, IsIdle, RoomBridge, Users, RemoveUser, Count;
    CountsAfter(s, a, InRoom(room, group));
  }

  lemma HalvesChange(s: State, a: Action, room: string, group: nat)
    requires Enabled(s, a)
    ensures var n := Count(s.pcs, Half(room, group)); var m := Count(PcsAfter(s, a), Half(room, group));
      var here := Here(s.pcs[a.c], room, group);
      if (a.AddMain? || a.DeleteBridge?) && here then m == n + 1
      else if (a.AddBridge? || a.AddBridgeFails? || a.DeleteMain?) && here then m + 1 == n
      else m == n
  {
    hide PcsAfter, Sum, FreeGroup, IsIdle, RoomBridge, Users, RemoveUser, Count;
    CountsAfter(s, a, Half(room, group));
  }

  lemma AccountsKept(s: State, a: Action, room: string, group: nat)
    requires Accounted(s) && Placed(s) && Enabled(s, a) && group > 1
    ensures AccountsFor(After(s, a), room, group)
  {
    hide Sum, Count, Target, PcsAfter, RowsAfter, AddUser, RemoveUser, FreeGroup, IsIdle, Users, RoomBridge, GroupBridge, Without;
    if a.CountIn? || a.CountOut? {
      BridgeIsFound(s, a.c);
    }
    assert AccountsFor(s, room, group);
    assert PlaceOk(s, a.c, s.pcs[a.c]);
    RowsChange(s, a, room, group);
    HoldersChange(s, a, room, group);
    JoinedChange(s, a, room, group);
    HalvesChange(s, a, room, group);
  }

  // ---------------------------------------------------------------- the groups of a room

  /** Which bridges there are changes only when one is added or deleted. */
  lemma BridgesChange(s: State, a: Action, room: string, group: nat)
    requires Accounted(s) && Placed(s) && Enabled(s, a) && group > 1
    ensures var here := Here(s.pcs[a.c], room, group);
      HasBridge(RowsAfter(s, a), room, group)
      <==> (if a.AddBridge? && here then true else if a.DeleteBridge? && here then false else HasBridge(s.rows, room, group))
  {
    hide Sum, Count, Target, PcsAfter, RowsAfter, AddUser, RemoveUser, FreeGroup, IsIdle, Users, RoomBridge, GroupBridge, Without;
    if a.CountIn? || a.CountOut? {
      BridgeIsFound(s, a.c);
    }
    RowsChange(s, a, room, group);
    assert AccountsFor(s, room, group);
  }

  lemma TearersChange(s: State, a: Action, room: string)
    requires Enabled(s, a)
    ensures var n := Count(s.pcs, Tears(room)); var m := Count(PcsAfter(s, a), Tears(room));
      || m == n
      || (a.CheckIdle? && m == n + 1)
      || (a.FindBridge? && m + 1 == n && s.pcs[a.c].room == room && RoomBridge(s.rows, room) == |s.rows|)
    ensures a.DeleteBridge? && s.pcs[a.c].room == room ==> Count(PcsAfter(s, a), Tears(room)) > 0
  {
    hide PcsAfter, Sum, FreeGroup, IsIdle, RoomBridge, Users, RemoveUser, Count;
    CountsAfter(s, a, Tears(room));
    CountPositive(s.pcs, Tears(room));
  }

  lemma NoBridgeLeft(rows: seq<Row>, room: string, group: nat)
    requires RoomBridge(rows, room) == |rows| && group > 1
    ensures !HasBridge(rows, room, group)
  {
    hide Sum;
    SumPositive(rows, room, group);
  }

  lemma NoGapsKept(s: State, a: Action)
    requires Accounted(s) && NoGaps(s) && Placed(s) && Enabled(s, a)
    ensures NoGaps(After(s, a))
  {
    hide Sum, Count, Target, PcsAfter, RowsAfter, Accounted, HasBridge, RoomBridge;
    var u := After(s, a);
    assert PlaceOk(s, a.c, s.pcs[a.c]);
    forall room, group | group > 1 && Count(u.pcs, Tears(room)) == 0 && HasBridge(u.rows, room, group + 1)
      ensures HasBridge(u.rows, room, group)
    {
      BridgesChange(s, a, room, group);
      BridgesChange(s, a, room, group + 1);
      TearersChange(s, a, room);
      if a.FindBridge? && Count(s.pcs, Tears(room)) > 0 {
        NoBridgeLeft(s.rows, room, group + 1);
      }
    }
  }

  /** A group with any row has its bridge. */
  lemma RowsMeanBridge(s: State, room: string, group: nat)
    requires Accounted(s) && group > 1
    ensures Sum(s.rows, room, group).rows > 0 <==> HasBridge(s.rows, room, group)
    ensures Count(s.pcs, Holds(room, group)) > 0 ==> HasBridge(s.rows, room, group)
  {
    hide Sum, Count;
    assert AccountsFor(s, room, group);
    CountWithin(s.pcs, InRoom(room, group), Holds(room, group));
  }

  /** A caller in the section is alone in it. */
  lemma Alone(s: State, c: nat, k: Class)
    requires Locked(s) && c < |s.pcs| && Is(s.pcs[c], Inside) && !Is(s.pcs[c], k)
    requires forall pc :: Is(pc, k) ==> Is(pc, Inside)
    ensures Count(s.pcs, k) == 0
  {
    hide Is, Count;
    CountPositive(s.pcs, k);
    if j :| 0 <= j < |s.pcs| && Is(s.pcs[j], k) {
      OneInside(s.pcs, c, j);
    }
  }

  lemma {:induction false} GroupsBelow(s: State, room: string, low: nat, high: nat)
    requires NoGaps(s) && Count(s.pcs, Tears(room)) == 0
    requires 1 < low <= high && HasBridge(s.rows, room, high)
    ensures HasBridge(s.rows, room, low)
    decreases high
  {
    if low == high {
    } else {
      assert HasBridge(s.rows, room, high - 1 + 1);
      GroupsBelow(s, room, low, high - 1);
    }
  }

  lemma FreeGroupIsFirstGap(s: State, room: string)
    requires Accounted(s) && NoGaps(s) && Count(s.pcs, Tears(room)) == 0
    ensures var free := FreeGroup(s.rows, room, 1);
      free > 1 && forall group :: 1 < group ==> (HasBridge(s.rows, room, group) <==> group < free)
  {
    var free := FreeGroup(s.rows, room, 1);
    hide Sum, Count, FreeGroup;
    FreeGroupIsNext(s.rows, room, 1);
    forall group: nat | 1 < group ensures HasBridge(s.rows, room, group) <==> group < free {
      SumPositive(s.rows, room, group);
      RowsMeanBridge(s, room, group);
      if group < free {
        SumPositive(s.rows, room, free - 1);
        RowsMeanBridge(s, room, free - 1);
        GroupsBelow(s, room, group, free - 1);
      }
    }
  }

  /**
   The search for a group ends exactly at the first free number: while the room's groups are
   2..n, group i is counted empty if and only if i = n + 1, and that is the number a new
   group gets.
   */
  lemma SearchEndsAtFreeGroup(s: State, c: nat)
    requires Inv(s) && c < |s.pcs| && (s.pcs[c].Finding? || s.pcs[c].Choosing?)
    ensures var pc := s.pcs[c]; var free := FreeGroup(s.rows, pc.room, 1);
      1 < pc.i <= free && (pc.i == free <==> Sum(s.rows, pc.room, pc.i).rows == 0)
      && (forall group :: 1 < group ==> (HasBridge(s.rows, pc.room, group) <==> group < free))
  {
    var pc := s.pcs[c];
    hide Sum, Count, FreeGroup;
    assert PlaceOk(s, c, pc);
    Alone(s, c, Tears(pc.room));
    FreeGroupIsFirstGap(s, pc.room);
    RowsMeanBridge(s, pc.room, pc.i);
    assert !HasBridge(s.rows, pc.room, FreeGroup(s.rows, pc.room, 1));
  }

  // ---------------------------------------------------------------- where the callers are

  /** The bridges of a room are all idle exactly if nobody holds any of its groups. */
  lemma IdleIsNoHolders(s: State, room: string)
    requires Accounted(s)
    ensures IsIdle(s.rows, room) <==> NoHolders(s.pcs, room)
  {
    hide Sum, Count;
    forall group: nat | group > 1
      ensures Sum(s.rows, room, group).ends <= 1 && Sum(s.rows, room, group).users == Count(s.pcs, Holds(room, group))
    {
      assert AccountsFor(s, room, group);
    }
    IdleExactly(s.rows, room);
  }

  /** The acting caller may rely on what its next step needs. */
  lemma ActorKept(s: State, a: Action)
    requires Inv(s) && Enabled(s, a)
    ensures PlaceOk(After(s, a), a.c, Target(s, a))
  {
    hide Sum, Count, AddUser, RemoveUser, FreeGroup, Users, RoomBridge, GroupBridge, Without, Accounted, NoGaps, Locked, Is;
    var pc := s.pcs[a.c];
    assert PlaceOk(s, a.c, pc);
    if !a.CountIn? && !a.DeleteBridge? {
      FilledStays(s, a);
    }
    if !a.CountIn? {
      HoldersStay(s, a);
    }
    if a.CountGroup? || a.Choose? {
      SearchEndsAtFreeGroup(s, a.c);
      RowsMeanBridge(s, pc.room, pc.i);
    } else if a.AddMain? || a.AddBridge? || a.DeleteBridge? {
      RowsChange(s, a, pc.room, pc.group);
      BridgesChange(s, a, pc.room, pc.group);
    } else if a.CheckIdle? && IsIdle(s.rows, pc.room) {
      IdleIsNoHolders(s, pc.room);
    } else if a.FindBridge? {
      var k := RoomBridge(s.rows, pc.room);
      if k < |s.rows| {
        assert s.rows[k] in s.rows;
        SumPositive(s.rows, pc.room, s.rows[k].group);
      }
    }
  }

  lemma HoldersStay(s: State, a: Action)
    requires Enabled(s, a) && !a.CountIn?
    ensures forall room :: NoHolders(s.pcs, room) ==> NoHolders(PcsAfter(s, a), room)
  {
    hide Count, PcsAfter, Target;
    forall room, group: nat | NoHolders(s.pcs, room) && group > 1 ensures Count(PcsAfter(s, a), Holds(room, group)) == 0 {
      HoldersChange(s, a, room, group);
    }
  }

  lemma FilledStays(s: State, a: Action)
    requires Accounted(s) && Placed(s) && Enabled(s, a) && !a.DeleteBridge?
    ensures forall room, i :: Filled(s.rows, room, i) ==> Filled(RowsAfter(s, a), room, i)
  {
    hide HasBridge, RowsAfter;
    forall room, i, group: nat | Filled(s.rows, room, i) && 1 < group < i ensures HasBridge(RowsAfter(s, a), room, group) {
      BridgesChange(s, a, room, group);
    }
  }

  /** Nor does a step take away what another caller relies on. */
  lemma OthersKept(s: State, a: Action, j: nat)
    requires Inv(s) && Enabled(s, a) && j < |s.pcs| && j != a.c
    ensures PlaceOk(After(s, a), j, s.pcs[j])
  {
    assert PlaceOk(s, j, s.pcs[j]);
    if Is(s.pcs[j], Inside) {
      InsiderKept(s, a, j);
    } else if s.pcs[j].Joined? {
      MemberRowStays(s, a, j);
    }
  }

  /** The others' steps, while one caller is in the section */
  lemma InsiderKept(s: State, a: Action, j: nat)
    requires Inv(s) && Enabled(s, a) && j < |s.pcs| && j != a.c && Is(s.pcs[j], Inside)
    ensures PlaceOk(After(s, a), j, s.pcs[j])
  {
    hide Sum, Count, AddUser, RemoveUser, FreeGroup, Users, RoomBridge, GroupBridge, Without, Accounted, NoGaps, RowsAfter, PcsAfter;
    if Is(s.pcs[a.c], Inside) {
      OneInside(s.pcs, a.c, j);
      assert false;
    }
    var pc := s.pcs[j];
    assert PlaceOk(s, j, pc);
    HoldersStay(s, a);
    FilledStays(s, a);
    if pc.Choosing? {
      StillEmpty(s, a, pc.room, pc.i);
    } else if pc.Creating? || pc.Connecting? {
      StillEmpty(s, a, pc.room, pc.group);
    } else if pc.Adding? || pc.DeletingBridge? || pc.DeletingMain? {
      BridgesChange(s, a, pc.room, pc.group);
    }
  }

  lemma StillEmpty(s: State, a: Action, room: string, group: nat)
    requires Inv(s) && Enabled(s, a) && !Is(s.pcs[a.c], Inside)
    requires group > 1 && Sum(s.rows, room, group).rows == 0
    ensures Sum(RowsAfter(s, a), room, group).rows == 0
  {
    hide Sum, Count, Target, PcsAfter, Without, NoGaps, Locked, Placed, Accounted, AddUser, RemoveUser, FreeGroup, Users;
    RowsMeanBridge(s, room, group);
    RowsChange(s, a, room, group);
    if a.Join? && Here(s.pcs[a.c], room, group) {
      CountPositive(s.pcs, Holds(room, group));
    }
  }

  lemma MemberRowStays(s: State, a: Action, j: nat)
    requires Inv(s) && Enabled(s, a) && j < |s.pcs| && j != a.c && s.pcs[j].Joined?
    ensures Row(s.pcs[j].room, s.pcs[j].group, Member(j)) in RowsAfter(s, a)
  {
    var row := Row(s.pcs[j].room, s.pcs[j].group, Member(j));
    assert PlaceOk(s, j, s.pcs[j]);
    hide Sum, Count, FreeGroup, Users, Accounted, NoGaps, Locked, Placed;
    var k :| 0 <= k < |s.rows| && s.rows[k] == row;
    var rows := RowsAfter(s, a);
    if Inserts(a) {
      assert rows[k + 1] == row;
    } else if Deletes(a) {
      assert a.k != k;
      assert rows[if k < a.k then k else k - 1] == row;
    } else {
      assert rows[k] == row;
    }
  }

  lemma PlacedKept(s: State, a: Action)
    requires Inv(s) && Enabled(s, a)
    ensures Placed(After(s, a))
  {
    hide Inv, Enabled, Target, RowsAfter, Sum, Count, Filled, HasBridge, NoHolders;
    var u := After(s, a);
    ActorKept(s, a);
    forall j | 0 <= j < |u.pcs| ensures PlaceOk(u, j, u.pcs[j]) {
      if j != a.c {
        OthersKept(s, a, j);
      }
    }
  }

  // ---------------------------------------------------------------- what bridges are there for

  /** A room with a bridge has a holder, or a caller that is about to count itself in, to check or to tear down. */
  ghost predicate NoLeftovers(s: State) {
    forall room, group :: group > 1 && HasBridge(s.rows, room, group)
                          ==> !NoHolders(s.pcs, room) || Count(s.pcs, Serves(room)) > 0
  }

  lemma NoLeftoversKept(s: State, a: Action)
    requires Inv(s) && NoLeftovers(s) && Enabled(s, a)
    ensures NoLeftovers(After(s, a))
  {
    hide Inv, Enabled, RowsAfter, PcsAfter, HasBridge, NoHolders, Count;
    forall room, group: nat | group > 1 && HasBridge(After(s, a).rows, room, group)
      ensures !NoHolders(After(s, a).pcs, room) || Count(After(s, a).pcs, Serves(room)) > 0
    {
      StillInUse(s, a, room, group);
    }
  }

  lemma StillInUse(s: State, a: Action, room: string, group: nat)
    requires Inv(s) && NoLeftovers(s) && Enabled(s, a) && group > 1 && HasBridge(RowsAfter(s, a), room, group)
    ensures !NoHolders(PcsAfter(s, a), room) || Count(PcsAfter(s, a), Serves(room)) > 0
  {
    hide Sum, Count, PcsAfter, RowsAfter, FreeGroup, Users, RoomBridge, HasBridge, NoHolders, Locked, NoGaps, IsIdle, RemoveUser;
    BridgesChange(s, a, room, group);
    if a.AddBridge? && Here(s.pcs[a.c], room, group) {
      ActorServes(s, a, room);
    } else if !NoHolders(s.pcs, room) {
      HoldersLeft(s, a, room);
    } else {
      ServersLeft(s, a, room, group);
    }
  }

  lemma ActorServes(s: State, a: Action, room: string)
    requires Enabled(s, a) && Is(Target(s, a), Serves(room))
    ensures Count(PcsAfter(s, a), Serves(room)) > 0
  {
    hide Count, Sum, FreeGroup, Users, RoomBridge, IsIdle, RemoveUser;
    assert PcsAfter(s, a)[a.c] == Target(s, a);
    CountPositive(PcsAfter(s, a), Serves(room));
  }

  /** The last holder of a group checks its room, unless the room has others. */
  lemma HoldersLeft(s: State, a: Action, room: string)
    requires Inv(s) && Enabled(s, a) && !NoHolders(s.pcs, room)
    ensures !NoHolders(PcsAfter(s, a), room) || Count(PcsAfter(s, a), Serves(room)) > 0
  {
    hide Sum, Count, PcsAfter, FreeGroup, RoomBridge, Locked, NoGaps, IsIdle;
    var g: nat :| g > 1 && Count(s.pcs, Holds(room, g)) != 0;
    HoldersChange(s, a, room, g);
    if a.CountOut? && Here(s.pcs[a.c], room, g) {
      var left := RemoveUser(s.rows, room, g);
      AccountsKept(s, a, room, g);
      BridgeCountsUsers(left, room, g);
      if Users(left, room, g) == 0 {
        assert Is(Target(s, a), Serves(room));
        ActorServes(s, a, room);
      } else {
        assert Count(PcsAfter(s, a), Holds(room, g)) > 0;
      }
    }
  }

  lemma ServersLeft(s: State, a: Action, room: string, group: nat)
    requires Inv(s) && Enabled(s, a) && group > 1 && HasBridge(s.rows, room, group) && Count(s.pcs, Serves(room)) > 0
    ensures !NoHolders(PcsAfter(s, a), room) || Count(PcsAfter(s, a), Serves(room)) > 0
  {
    hide Sum, Count, PcsAfter, FreeGroup, Locked, NoGaps, Users, RemoveUser, RoomBridge;
    CountsAfter(s, a, Serves(room));
    if Is(s.pcs[a.c], Serves(room)) && !Is(Target(s, a), Serves(room)) {
      if a.CountIn? {
        assert PlaceOk(s, a.c, s.pcs[a.c]);
        HoldersChange(s, a, room, s.pcs[a.c].group);
      } else if a.CheckIdle? {
        IdleIsNoHolders(s, room);
        HoldersLeft(s, a, room);
      } else {
        NoBridgeLeft(s.rows, room, group);
      }
    }
  }

  // ---------------------------------------------------------------- every run

  lemma InvKept(s: State, a: Action)
    requires Inv(s) && Enabled(s, a)
    ensures Inv(After(s, a))
  {
    hide AccountsFor, Locked, NoGaps, Placed, Enabled, After;
    LockedKept(s, a);
    forall room, group: nat | group > 1 ensures AccountsFor(After(s, a), room, group) {
      AccountsKept(s, a, room, group);
    }
    NoGapsKept(s, a);
    PlacedKept(s, a);
  }

  function Start(callers: nat): State {
    State(false, [], seq(callers, _ => Idle))
  }

  ghost predicate Possible(s: State, actions: seq<Action>)
    decreases |actions|
  {
    actions == [] || (Enabled(s, actions[0]) && Possible(After(s, actions[0]), actions[1..]))
  }

  ghost function RunFrom(s: State, actions: seq<Action>): State
    requires Possible(s, actions)
    decreases |actions|
  {
    if actions == [] then s else RunFrom(After(s, actions[0]), actions[1..])
  }

  lemma {:induction false} InvAlong(s: State, actions: seq<Action>)
    requires Inv(s) && Possible(s, actions)
    ensures Inv(RunFrom(s, actions))
    decreases |actions|
  {
    hide Inv, Enabled, After;
    if actions == [] {
    } else {
      InvKept(s, actions[0]);
      InvAlong(After(s, actions[0]), actions[1..]);
    }
  }

  lemma {:induction false} NobodyIn(callers: nat, k: Class)
    ensures Count(seq(callers, _ => Idle), k) == 0
  {
    if callers == 0 {
    } else {
      assert seq(callers, _ => Idle)[1..] == seq(callers - 1, _ => Idle);
      NobodyIn(callers - 1, k);
    }
  }

  lemma {:induction false} NoLeftoversAlong(s: State, actions: seq<Action>)
    requires Inv(s) && NoLeftovers(s) && Possible(s, actions)
    ensures NoLeftovers(RunFrom(s, actions))
    decreases |actions|
  {
    hide Inv, Enabled, After, NoLeftovers;
    if actions == [] {
    } else {
      InvKept(s, actions[0]);
      NoLeftoversKept(s, actions[0]);
      NoLeftoversAlong(After(s, actions[0]), actions[1..]);
    }
  }

  lemma StartIsSound(callers: nat)
    ensures Inv(Start(callers)) && NoLeftovers(Start(callers))
  {
    var s := Start(callers);
    forall k: Class ensures Count(s.pcs, k) == 0 {
      NobodyIn(callers, k);
    }
  }

  lemma EveryRunIsSound(callers: nat, actions: seq<Action>)
    requires Possible(Start(callers), actions)
    ensures Inv(RunFrom(Start(callers), actions))
  {
    StartIsSound(callers);
    InvAlong(Start(callers), actions);
  }

  /** At most one caller is in the modify section, and only while the flag is set. */
  lemma MutualExclusion(callers: nat, actions: seq<Action>, i: nat, j: nat)
    requires Possible(Start(callers), actions)
    requires var pcs := RunFrom(Start(callers), actions).pcs;
      i < |pcs| && j < |pcs| && Is(pcs[i], Inside) && Is(pcs[j], Inside)
    ensures i == j && RunFrom(Start(callers), actions).modifying
  {
    EveryRunIsSound(callers, actions);
    var s := RunFrom(Start(callers), actions);
    hide Is, Count;
    CountPositive(s.pcs, Inside);
    if i != j {
      OneInside(s.pcs, i, j);
    }
  }

  /**
   The users a group's bridge counts are the callers between counting themselves in and
   counting themselves out. A caller that counts itself out finds the bridge with at least
   itself on it.
   */
  lemma UsersAreHolders(callers: nat, actions: seq<Action>, room: string, group: nat)
    requires Possible(Start(callers), actions) && group > 1
    ensures var s := RunFrom(Start(callers), actions);
      Users(s.rows, room, group) == Count(s.pcs, Holds(room, group))
      && (Count(s.pcs, Holds(room, group)) > 0 ==> GroupBridge(s.rows, room, group) < |s.rows|)
      && Sum(s.rows, room, group).rows == Bit(GroupBridge(s.rows, room, group) < |s.rows|) + Count(s.pcs, InRoom(room, group))
      && forall c :: 0 <= c < |s.pcs| && s.pcs[c].Removing? ==> Users(s.rows, s.pcs[c].room, s.pcs[c].group) > 0
  {
    EveryRunIsSound(callers, actions);
    var s := RunFrom(Start(callers), actions);
    hide Is, Count, Sum, Locked, NoGaps, Placed;
    assert AccountsFor(s, room, group);
    BridgeCountsUsers(s.rows, room, group);
    forall c | 0 <= c < |s.pcs| && s.pcs[c].Removing? ensures Users(s.rows, s.pcs[c].room, s.pcs[c].group) > 0 {
      BridgeIsFound(s, c);
    }
  }

  /** In every reachable state the bridges of a room are idle exactly if nobody holds any of its groups. */
  lemma IdleExactlyWithoutHolders(callers: nat, actions: seq<Action>, room: string)
    requires Possible(Start(callers), actions)
    ensures var s := RunFrom(Start(callers), actions);
      IsIdle(s.rows, room) <==> forall c, group :: 0 <= c < |s.pcs| && group > 1 ==> !Is(s.pcs[c], Holds(room, group))
  {
    EveryRunIsSound(callers, actions);
    var s := RunFrom(Start(callers), actions);
    hide Possible, RunFrom, Start, Is, Count;
    IdleIsNoHolders(s, room);
    forall group: nat | group > 1
      ensures Count(s.pcs, Holds(room, group)) == 0 <==> forall c :: 0 <= c < |s.pcs| ==> !Is(s.pcs[c], Holds(room, group))
    {
      CountPositive(s.pcs, Holds(room, group));
    }
  }

  /** In every reachable state with nobody in the section, a room has a bridge only while some group of it is held. */
  lemma BridgesAreForHolders(callers: nat, actions: seq<Action>, room: string, group: nat)
    requires Possible(Start(callers), actions) && group > 1
    requires !RunFrom(Start(callers), actions).modifying && HasBridge(RunFrom(Start(callers), actions).rows, room, group)
    ensures exists g: nat :: g > 1 && Count(RunFrom(Start(callers), actions).pcs, Holds(room, g)) > 0
  {
    StartIsSound(callers);
    InvAlong(Start(callers), actions);
    NoLeftoversAlong(Start(callers), actions);
    var s := RunFrom(Start(callers), actions);
    hide Possible, RunFrom, Start, Count, Is, HasBridge;
    ServersAreInside(s, room);
  }

  lemma ServersAreInside(s: State, room: string)
    requires Locked(s) && !s.modifying
    ensures Count(s.pcs, Serves(room)) == 0
  {
    CountWithin(s.pcs, Serves(room), Inside);
  }

  /** While a bridge of a room is torn down, no caller holds any group of that room. */
  lemma NoTeardownUnderAHolder(callers: nat, actions: seq<Action>, c: nat, d: nat, group: nat)
    requires Possible(Start(callers), actions) && group > 1
    requires var pcs := RunFrom(Start(callers), actions).pcs;
      c < |pcs| && d < |pcs| && (pcs[c].Tearing? || pcs[c].DeletingBridge? || pcs[c].DeletingMain?)
    ensures var pcs := RunFrom(Start(callers), actions).pcs; !Is(pcs[d], Holds(pcs[c].room, group))
  {
    hide Possible, RunFrom, Start, PlaceOk, Is;
    EveryRunIsSound(callers, actions);
    TearerIsAlone(RunFrom(Start(callers), actions), c, d, group);
  }

  lemma TearerIsAlone(s: State, c: nat, d: nat, group: nat)
    requires Placed(s) && group > 1
    requires c < |s.pcs| && d < |s.pcs| && (s.pcs[c].Tearing? || s.pcs[c].DeletingBridge? || s.pcs[c].DeletingMain?)
    ensures !Is(s.pcs[d], Holds(s.pcs[c].room, group))
  {
    assert PlaceOk(s, c, s.pcs[c]);
    hide Is, Count;
    CountPositive(s.pcs, Holds(s.pcs[c].room, group));
  }

  /** Whoever is about to delete a bridge finds both of its ends, each in the list once. */
  lemma BothEndsFound(s: State, c: nat)
    requires Inv(s) && c < |s.pcs| && (s.pcs[c].DeletingBridge? || s.pcs[c].DeletingMain?)
    ensures var pc := s.pcs[c]; var t := Sum(s.rows, pc.room, pc.group);
      t.mains == 1 && Row(pc.room, 1, MainEnd(pc.group)) in s.rows
      && (pc.DeletingBridge? ==> t.ends == 1 && GroupBridge(s.rows, pc.room, pc.group) < |s.rows|)
  {
    var pc := s.pcs[c];
    hide Sum, Count;
    assert PlaceOk(s, c, pc) && AccountsFor(s, pc.room, pc.group);
    SumPositive(s.rows, pc.room, pc.group);
    BridgeCountsUsers(s.rows, pc.room, pc.group);
    if pc.DeletingBridge? {
      Alone(s, c, Half(pc.room, pc.group));
    } else {
      OnlyHalf(s, c);
    }
  }

  lemma OnlyHalf(s: State, c: nat)
    requires Locked(s) && c < |s.pcs| && s.pcs[c].DeletingMain?
    ensures Count(s.pcs, Half(s.pcs[c].room, s.pcs[c].group)) == 1
  {
    var k := Half(s.pcs[c].room, s.pcs[c].group);
    CountPositive(s.pcs, k);
    CountWithin(s.pcs, k, Inside);
  }

  /** Outside a teardown the groups of a room are 2..n, without gaps. */
  lemma GroupsAreTwoToN(callers: nat, actions: seq<Action>, room: string)
    requires Possible(Start(callers), actions) && Count(RunFrom(Start(callers), actions).pcs, Tears(room)) == 0
    ensures var rows := RunFrom(Start(callers), actions).rows; var free := FreeGroup(rows, room, 1);
      free > 1 && forall group :: 1 < group ==> (HasBridge(rows, room, group) <==> group < free)
  {
    EveryRunIsSound(callers, actions);
    FreeGroupIsFirstGap(RunFrom(Start(callers), actions), room);
  }

  /**
   The search makes progress: every group it skips brings it nearer to the free number, and
   no other caller moves that number meanwhile.
   */
  lemma SearchProgresses(s: State, a: Action, c: nat)
    requires Inv(s) && Enabled(s, a) && c < |s.pcs| && s.pcs[c].Finding? && After(s, a).pcs[c].Finding?
    ensures var t := After(s, a); var room := s.pcs[c].room;
      t.pcs[c].room == room && t.pcs[c].i <= FreeGroup(t.rows, room, 1) == FreeGroup(s.rows, room, 1)
      && t.pcs[c].i == s.pcs[c].i + Bit(a.c == c)
  {
    var t := After(s, a);
    var room := s.pcs[c].room;
    InvKept(s, a);
    hide Inv, FreeGroup, RowsAfter, Sum, Count;
    var m, n := FreeGroup(s.rows, room, 1), FreeGroup(t.rows, room, 1);
    SearchEndsAtFreeGroup(s, c);
    SearchEndsAtFreeGroup(t, c);
    NoBridgeMoves(s, a, c, m);
    NoBridgeMoves(s, a, c, n);
  }

  lemma NoBridgeMoves(s: State, a: Action, c: nat, group: nat)
    requires Inv(s) && Enabled(s, a) && c < |s.pcs| && s.pcs[c].Finding? && group > 1
    ensures HasBridge(RowsAfter(s, a), s.pcs[c].room, group) <==> HasBridge(s.rows, s.pcs[c].room, group)
  {
    hide RowsAfter, HasBridge, Count;
    BridgesChange(s, a, s.pcs[c].room, group);
    if a.AddBridge? || a.DeleteBridge? {
      OneInside(s.pcs, a.c, c);
    }
  }

  predicate Active(pc: Pc) {
    Is(pc, Inside) || Is(pc, Trying)
  }

  /** No wakeup is lost: while anybody waits, some caller is before or in the section and can go on. */
  lemma SomebodyGoesOn(s: State)
    requires Inv(s) && SomeoneWaits(s.pcs)
    ensures exists a :: Enabled(s, a) && Active(s.pcs[a.c])
  {
    CountPositive(s.pcs, Blocked);
    CountPositive(s.pcs, Trying);
    CountPositive(s.pcs, Inside);
    var w :| 0 <= w < |s.pcs| && s.pcs[w].Waiting?;
    assert Is(s.pcs[w], Blocked);
    var c :| 0 <= c < |s.pcs| && Active(s.pcs[c]);
    var a := CanGoOn(s, c);
  }

  lemma CanGoOn(s: State, c: nat) returns (a: Action)
    requires Inv(s) && c < |s.pcs| && Active(s.pcs[c])
    ensures a.c == c && Enabled(s, a)
  {
    hide Inv, Sum, Count;
    var pc := s.pcs[c];
    match pc
    case Entering(_) => a := Test(c);
    case Finding(_, _) => a := CountGroup(c, true);
    case Choosing(_, _) => a := Choose(c);
    case Creating(_, _) => a := AddMain(c);
    case Connecting(_, _) => a := AddBridge(c);
    case Adding(_, _) => a := CountIn(c);
    case Leaving(_, _, _) =>
      a := Leave(c, c);
      if w: nat :| w < |s.pcs| && s.pcs[w].Waiting? {
        a := Leave(c, w);
      }
    case Removing(_, _) => a := CountOut(c);
    case Checking(_) => a := CheckIdle(c);
    case Tearing(_) => a := FindBridge(c);
    case DeletingBridge(room, group) =>
      BothEndsFound(s, c);
      a := DeleteBridge(c, GroupBridge(s.rows, room, group));
    case DeletingMain(room, group) =>
      BothEndsFound(s, c);
      var k :| 0 <= k < |s.rows| && s.rows[k] == Row(room, 1, MainEnd(group));
      a := DeleteMain(c, k);
  }

  /**
   What FindGroup and CleanupBridge of the list ask for is what every caller finds that is in
   the section and not amid a bridge of its own.
   */
  lemma SequentialPremisesHold(s: State, c: nat, room: string)
    requires Inv(s) && c < |s.pcs| && (s.pcs[c].Finding? || s.pcs[c].Removing?)
    ensures GroupsUpToFree(s.rows, room) && Paired(s.rows, room)
  {
    hide Sum, Count, FreeGroup;
    Alone(s, c, Tears(room));
    FreeGroupIsFirstGap(s, room);
    forall g: nat | g > 1
      ensures Sum(s.rows, room, g).rows > 0 <==> g < FreeGroup(s.rows, room, 1)
      ensures Sum(s.rows, room, g).mains == Sum(s.rows, room, g).ends <= 1
    {
      RowsMeanBridge(s, room, g);
      Alone(s, c, Half(room, g));
      assert AccountsFor(s, room, g);
    }
  }
}
