/** The rows of the global chat list and the interfaces they belong to. */
module ChatRows {

  datatype MemberType = Default | Listener | Operator

  datatype RoomMode = FullDuplex | Muted

  /**
   An interface as the mixer sees it; `id` stands for the address of its structure. `isNull`
   is the NULL channel type, `hasLine` a non-null line_plci.
   */
  datatype Interface = Interface(id: nat, plci: nat, isNull: bool, hasLine: bool)

  /**
   A row without its `active` counter: the counters are kept beside the rows, in the same
   order, because every recomputation overwrites those of a whole room at once.
   */
  datatype Row = Row(
    name: string,
    number: nat,
    memberType: MemberType,
    mode: RoomMode,
    ifc: Interface,
    recent: bool,
    group: nat)

  /** Effectively a listener: by role, or as a plain member of a muted room */
  predicate Listens(memberType: MemberType, mode: RoomMode) {
    memberType == Listener || (memberType == Default && mode == Muted)
  }

  predicate IsOther(row: Row, number: nat, ifc: Interface) {
    row.number == number && row.ifc != ifc
  }

  /** The other members of a room, from a given row on, in list order */
  function Others(rows: seq<Row>, start: nat, number: nat, ifc: Interface): (r: seq<Row>)
    decreases |rows| - start
  {
    if start >= |rows| then []
    else (if IsOther(rows[start], number, ifc) then [rows[start]] else []) + Others(rows, start + 1, number, ifc)
  }

  /** They are the rows of the room that belong to another interface, all of them and in list order. */
  lemma {:induction false} OthersExactly(rows: seq<Row>, start: nat, number: nat, ifc: Interface) returns (idx: seq<nat>)
    requires start <= |rows|
    ensures |idx| == |Others(rows, start, number, ifc)|
    ensures forall k :: 0 <= k < |idx| ==> start <= idx[k] < |rows| && Others(rows, start, number, ifc)[k] == rows[idx[k]]
    ensures forall k, l :: 0 <= k < l < |idx| ==> idx[k] < idx[l]
    ensures forall j :: start <= j < |rows| ==> (rows[j].number == number && rows[j].ifc != ifc <==> j in idx)
    decreases |rows| - start
  {
    if start == |rows| {
      idx := [];
    } else {
      var rest := OthersExactly(rows, start + 1, number, ifc);
      assert Others(rows, start, number, ifc)
          == (if IsOther(rows[start], number, ifc) then [rows[start]] else []) + Others(rows, start + 1, number, ifc);
      hide Others;
      idx := (if IsOther(rows[start], number, ifc) then [start] else []) + rest;
      assert forall j :: j in idx <==> j in rest || (IsOther(rows[start], number, ifc) && j == start);
    }
  }
}
