/**
 Calls and B channels: what the handlers of CAPI messages, a new call and a hangup do to the
 interfaces and to each controller's counter of free B channels, first step by step and then
 over every run in which CAPI opens at most one NCCI per PLCI and closes it before the PLCI.
 */
module BChannels {
  import opened Common

  /** CAPI_STATE_...; the values between dialling and hanging up behave alike here. */
  datatype CallState = Disconnected | ConnectPending | Alerting | Connected | Did | InCall | OnHold | Disconnecting

  /** started: CAPI_ISDN_STATE_PBX, the dialplan runs or the call is outgoing */
  datatype Interface = Interface(
    kind: ChannelType, controller: nat, used: bool, owner: bool, started: bool,
    plci: nat, onhold: nat, ncci: nat, message: nat, state: CallState)

  const REMOVED: nat := 0xdead0000

  datatype Driver = Driver(ifs: seq<Interface>, free: seq<int>)

  ghost predicate Valid(d: Driver) {
    forall i <- d.ifs :: i.controller < |d.free|
  }

  datatype Event =
    | NewNull(controller: nat, message: nat)
    | RemoveNull(k: nat)
    | Request(k: nat, created: bool)
    | Call(k: nat, message: nat, error: bool)
    | Hangup(k: nat, early: bool)               // early: still online by request, or B3 is up
    | ConnectConf(message: nat, plci: nat, accepted: bool)
    | ConnectInd(plci: nat, message: nat, k: nat, did: bool, created: bool)  // k: the interface whose number matches
    | StartPbx(k: nat)
    | AlertConf(plci: nat)
    | Hold(k: nat)
    | HoldInd(plci: nat, accepted: bool)
    | RetrieveInd(plci: nat, accepted: bool)
    | ConnectActiveInd(plci: nat)
    | ConnectB3Ind(plci: nat, ncci: nat)
    | ConnectB3Conf(plci: nat, ncci: nat, accepted: bool)
    | DisconnectB3Ind(plci: nat)
    | DisconnectInd(plci: nat)

  // ---------------------------------------------------------------- the handlers as functions

  /** capi_find_interface_by_plci; the number of interfaces stands for NULL. */
  function ByPlci(ifs: seq<Interface>, plci: nat): (k: nat)
    ensures k <= |ifs|
    ensures k < |ifs| ==> ifs[k].plci == plci && plci != 0
    ensures plci != 0 ==> forall j :: 0 <= j < k ==> ifs[j].plci != plci
    ensures plci == 0 ==> k == |ifs|
  {
    if ifs == [] || (plci != 0 && ifs[0].plci == plci) then 0 else 1 + ByPlci(ifs[1..], plci)
  }

  /** capi_find_interface_by_msgnum */
  function ByMessage(ifs: seq<Interface>, message: nat): (k: nat)
    ensures k <= |ifs|
    ensures k < |ifs| ==> ifs[k].message == message != 0 && ifs[k].plci == 0
    ensures message != 0 ==> forall j :: 0 <= j < k ==> !(ifs[j].message == message && ifs[j].plci == 0)
    ensures message == 0 ==> k == |ifs|
  {
    if ifs == [] || (message != 0 && ifs[0].plci == 0 && ifs[0].message == message) then 0
    else 1 + ByMessage(ifs[1..], message)
  }

  function CleanedUp(i: Interface): Interface {
    i.(used := false, owner := false, started := false, plci := 0, onhold := 0, ncci := 0, message := 0)
  }

  function SetState(d: Driver, k: nat, state: CallState): Driver {
    if k < |d.ifs| then d.(ifs := d.ifs[k := d.ifs[k].(state := state)]) else d
  }

  function CountFree(free: seq<int>, i: Interface, change: int): seq<int> {
    if i.kind != NullChannel && i.controller < |free| then free[i.controller := free[i.controller] + change] else free
  }

  function Hungup(i: Interface, early: bool): Interface {
    if i.state == Disconnected then CleanedUp(i)
    else
      var j := i.(state := Disconnecting, owner := false);
      if !(i.state == Alerting || i.state == Did || i.state == InCall) && !early && i.kind == NullChannel && i.plci == 0
      then CleanedUp(j) else j
  }

  function Opened(d: Driver, k: nat, ncci: nat): Driver {
    if k < |d.ifs| then Driver(d.ifs[k := d.ifs[k].(ncci := ncci)], CountFree(d.free, d.ifs[k], -1)) else d
  }

  function Ended(i: Interface): Interface {
    var j := i.(state := Disconnected);
    if i.owner && (i.state == Did || i.state == InCall) && !i.started then j
    else if i.state == Disconnecting then CleanedUp(j)
    else j.(plci := REMOVED)
  }

  function After(d: Driver, e: Event): Driver {
    match e
    case NewNull(controller, message) =>
      d.(ifs := d.ifs + [Interface(NullChannel, controller, true, true, true, 0, 0, 0, message, ConnectPending)])
    case RemoveNull(k) => if k < |d.ifs| then d.(ifs := d.ifs[..k] + d.ifs[k + 1..]) else d
    case Request(k, created) =>
      if k >= |d.ifs| then d
      else if created then d.(ifs := d.ifs[k := d.ifs[k].(used := true, owner := true, state := Disconnected, plci := 0, onhold := 0)])
      else d.(ifs := d.ifs[k := CleanedUp(d.ifs[k])])
    case Call(k, message, error) =>
      if k >= |d.ifs| then d
      else d.(ifs := d.ifs[k := d.ifs[k].(started := true, message := message, state := if error then Disconnected else ConnectPending)])
    case Hangup(k, early) => if k < |d.ifs| then d.(ifs := d.ifs[k := Hungup(d.ifs[k], early)]) else d
    case ConnectConf(message, plci, accepted) =>
      var k := ByMessage(d.ifs, message);
      if ByPlci(d.ifs, plci) < |d.ifs| || k == |d.ifs| then d
      else if accepted then d.(ifs := d.ifs[k := d.ifs[k].(plci := plci)])
      else SetState(d, k, Disconnected)
    case ConnectInd(plci, message, k, did, created) =>
      if ByPlci(d.ifs, plci) < |d.ifs| || k >= |d.ifs| then d
      else
        var i := d.ifs[k].(plci := plci, onhold := 0, message := message, used := true, owner := created, state := if did then Did else InCall);
        d.(ifs := d.ifs[k := if created then i else CleanedUp(i)])
    case StartPbx(k) => if k < |d.ifs| then d.(ifs := d.ifs[k := d.ifs[k].(started := true)]) else d
    case AlertConf(plci) =>
      var k := ByPlci(d.ifs, plci);
      if k < |d.ifs| && d.ifs[k].owner && d.ifs[k].state != Disconnecting then SetState(d, k, Alerting) else d
    case Hold(k) => if k < |d.ifs| then d.(ifs := d.ifs[k := d.ifs[k].(onhold := d.ifs[k].plci)]) else d
    case HoldInd(plci, accepted) =>
      var k := ByPlci(d.ifs, plci);
      if k == |d.ifs| then d
      else if accepted then SetState(d, k, OnHold)
      else d.(ifs := d.ifs[k := d.ifs[k].(onhold := 0)])
    case RetrieveInd(plci, accepted) =>
      var k := ByPlci(d.ifs, plci);
      if k == |d.ifs| || !accepted then d
      else d.(ifs := d.ifs[k := d.ifs[k].(state := Connected, plci := d.ifs[k].onhold, onhold := 0)])
    case ConnectActiveInd(plci) =>
      var k := ByPlci(d.ifs, plci);
      if k < |d.ifs| && d.ifs[k].state != Disconnecting then SetState(d, k, Connected) else d
    case ConnectB3Ind(plci, ncci) => Opened(d, ByPlci(d.ifs, plci), ncci)
    case ConnectB3Conf(plci, ncci, accepted) => if accepted then Opened(d, ByPlci(d.ifs, plci), ncci) else d
    case DisconnectB3Ind(plci) =>
      var k := ByPlci(d.ifs, plci);
      if k < |d.ifs| then Driver(d.ifs[k := d.ifs[k].(ncci := 0)], CountFree(d.free, d.ifs[k], 1)) else d
    case DisconnectInd(plci) =>
      var k := ByPlci(d.ifs, plci);
      if k < |d.ifs| then d.(ifs := d.ifs[k := Ended(d.ifs[k])]) else d
  }

  // ---------------------------------------------------------------- the handlers in place

  class Channels {
    var ifs: seq<Interface>
    var free: seq<int>

    ghost function View(): Driver
      reads this
    {
      Driver(ifs, free)
    }

    method FindByPlci(plci: nat) returns (k: nat)
      ensures k == ByPlci(ifs, plci)
      ensures k <= |ifs| && (k < |ifs| ==> plci != 0 && ifs[k].plci == plci)
      ensures plci != 0 ==> forall j :: 0 <= j < k ==> ifs[j].plci != plci
    {
      if plci == 0 {
        return |ifs|;
      }
      k := 0;
      while k < |ifs| && ifs[k].plci != plci
        invariant 0 <= k <= |ifs| && k + ByPlci(ifs[k..], plci) == ByPlci(ifs, plci)
      {
        assert ifs[k..][0] == ifs[k] && ifs[k..][1..] == ifs[k + 1..];
        k := k + 1;
      }
      assert k < |ifs| ==> ifs[k..][0] == ifs[k];
    }

    method FindByMessage(message: nat) returns (k: nat)
      ensures k == ByMessage(ifs, message)
      ensures k <= |ifs| && (k < |ifs| ==> message != 0 && ifs[k].message == message && ifs[k].plci == 0)
      ensures message != 0 ==> forall j :: 0 <= j < k ==> !(ifs[j].message == message && ifs[j].plci == 0)
    {
      k := 0;
      while k < |ifs| && !(message != 0 && ifs[k].plci == 0 && ifs[k].message == message)
        invariant 0 <= k <= |ifs| && k + ByMessage(ifs[k..], message) == ByMessage(ifs, message)
      {
        assert ifs[k..][0] == ifs[k] && ifs[k..][1..] == ifs[k + 1..];
        k := k + 1;
      }
      assert k < |ifs| ==> ifs[k..][0] == ifs[k];
    }

    method Cleanup(k: nat)
      requires k < |ifs|
      modifies this
      ensures View() == old(View()).(ifs := old(ifs)[k := CleanedUp(old(ifs)[k])])
    {
      ifs := ifs[k := ifs[k].(used := false, owner := false, started := false, plci := 0, onhold := 0, ncci := 0, message := 0)];
    }

    method AddFree(k: nat, change: int)
      requires Valid(View()) && k < |ifs|
      modifies this`free
      ensures free == CountFree(old(free), ifs[k], change)
    {
      assert ifs[k] in View().ifs;
      if ifs[k].kind != NullChannel {
        free := free[ifs[k].controller := free[ifs[k].controller] + change];
      }
    }

    method HandleConnectB3Indication(plci: nat, ncci: nat)
      requires Valid(View())
      modifies this
      ensures View() == After(old(View()), ConnectB3Ind(plci, ncci))
    {
      var k := FindByPlci(plci);
      if k < |ifs| {
        AddFree(k, -1);
        ifs := ifs[k := ifs[k].(ncci := ncci)];
      }
    }

    method HandleConnectB3Confirmation(plci: nat, ncci: nat, info: nat)
      requires Valid(View())
      modifies this
      ensures View() == After(old(View()), ConnectB3Conf(plci, ncci, info / 256 % 256 == 0))
    {
      var k := FindByPlci(plci);
      if k == |ifs| {
        return;
      }
      if info / 256 % 256 == 0 {
        AddFree(k, -1);
        ifs := ifs[k := ifs[k].(ncci := ncci)];
      }
    }

    method HandleDisconnectB3Indication(plci: nat)
      requires Valid(View())
      modifies this
      ensures View() == After(old(View()), DisconnectB3Ind(plci))
    {
      var k := FindByPlci(plci);
      if k < |ifs| {
        AddFree(k, 1);
        ifs := ifs[k := ifs[k].(ncci := 0)];
      }
    }

    method HandleDisconnectIndication(plci: nat)
      modifies this
      ensures View() == After(old(View()), DisconnectInd(plci))
    {
      var k := FindByPlci(plci);
      if k == |ifs| {
        return;
      }
      var state := ifs[k].state;
      ifs := ifs[k := ifs[k].(state := Disconnected)];
      if ifs[k].owner && (state == Did || state == InCall) && !ifs[k].started {
        return;
      }
      if state == Disconnecting {
        Cleanup(k);
      } else {
        ifs := ifs[k := ifs[k].(plci := REMOVED)];
      }
    }

    /** The HOLD answer of capidev_handle_supplementary_indication, 0 for success */
    method HandleHoldIndication(plci: nat, info: nat)
      modifies this
      ensures View() == After(old(View()), HoldInd(plci, info == 0))
    {
      var k := FindByPlci(plci);
      if k == |ifs| {
        return;
      }
      if info != 0 {
        ifs := ifs[k := ifs[k].(onhold := 0)];
      } else {
        ifs := ifs[k := ifs[k].(state := OnHold)];
      }
    }

    /** The RETRIEVE answer: the PLCI that was put aside comes back. */
    method HandleRetrieveIndication(plci: nat, info: nat)
      modifies this
      ensures View() == After(old(View()), RetrieveInd(plci, info == 0))
    {
      var k := FindByPlci(plci);
      if k < |ifs| && info == 0 {
        ifs := ifs[k := ifs[k].(state := Connected)];
        ifs := ifs[k := ifs[k].(plci := ifs[k].onhold)];
        ifs := ifs[k := ifs[k].(onhold := 0)];
      }
    }

    method HandleConnectConfirmation(message: nat, plci: nat, info: nat)
      modifies this
      ensures View() == After(old(View()), ConnectConf(message, plci, info == 0))
    {
      var i := FindByPlci(plci);
      if i < |ifs| {
        return;
      }
      var k := FindByMessage(message);
      if k == |ifs| {
        return;
      }
      if info == 0 {
        ifs := ifs[k := ifs[k].(plci := plci)];
      } else {
        ifs := ifs[k := ifs[k].(state := Disconnected)];
      }
    }

    method Hangup(k: nat, early: bool)
      requires k < |ifs|
      modifies this
      ensures View() == After(old(View()), Event.Hangup(k, early))
    {
      var state := ifs[k].state;
      if state == Disconnected {
        Cleanup(k);
      } else {
        ifs := ifs[k := ifs[k].(state := Disconnecting)];
        ActiveHangup(k, state, early);
      }
      ifs := ifs[k := ifs[k].(owner := false)];
    }

    /** capi_activehangup, as far as it changes the interface */
    method ActiveHangup(k: nat, state: CallState, early: bool)
      requires k < |ifs|
      modifies this
      ensures free == old(free) && |ifs| == |old(ifs)|
      ensures ifs == if !(state == Alerting || state == Did || state == InCall) && !early
                        && old(ifs)[k].kind == NullChannel && old(ifs)[k].plci == 0
                     then old(ifs)[k := CleanedUp(old(ifs)[k])] else old(ifs)
    {
      if state == Alerting || state == Did || state == InCall {
        return;
      }
      if early {
        return;
      }
      if ifs[k].kind == NullChannel && ifs[k].plci == 0 {
        Cleanup(k);
      }
    }
  }

  // ---------------------------------------------------------------- the balance, step by step

  /** Holds one of its controller's B channels */
  predicate IsOpen(i: Interface) {
    i.kind != NullChannel && i.ncci != 0
  }

  function Open(ifs: seq<Interface>, controller: nat): nat {
    if ifs == [] then 0 else Bit(IsOpen(ifs[0]) && ifs[0].controller == controller) + Open(ifs[1..], controller)
  }

  lemma {:induction false} OpenWithout(ifs: seq<Interface>, k: nat, controller: nat)
    requires k < |ifs|
    ensures Open(ifs, controller)
         == Bit(IsOpen(ifs[k]) && ifs[k].controller == controller) + Open(ifs[..k] + ifs[k + 1..], controller)
  {
    var rest := ifs[..k] + ifs[k + 1..];
    if k == 0 {
      assert rest == ifs[1..];
    } else {
      assert rest[1..] == ifs[1..][..k - 1] + ifs[1..][k..];
      OpenWithout(ifs[1..], k - 1, controller);
    }
  }

  lemma OpenUpdated(ifs: seq<Interface>, k: nat, i: Interface, controller: nat)
    requires k < |ifs|
    ensures Open(ifs[k := i], controller) + Bit(IsOpen(ifs[k]) && ifs[k].controller == controller)
         == Open(ifs, controller) + Bit(IsOpen(i) && i.controller == controller)
  {
    OpenWithout(ifs, k, controller);
    OpenWithout(ifs[k := i], k, controller);
    assert ifs[k := i][..k] + ifs[k := i][k + 1..] == ifs[..k] + ifs[k + 1..];
  }

  lemma {:induction false} OpenAppended(ifs: seq<Interface>, i: Interface, controller: nat)
    requires !IsOpen(i)
    ensures Open(ifs + [i], controller) == Open(ifs, controller)
  {
    if ifs == [] {
      assert [i][1..] == [] && ifs + [i] == [i];
    } else {
      assert (ifs + [i])[1..] == ifs[1..] + [i];
      OpenAppended(ifs[1..], i, controller);
    }
  }

  /** Every controller's free channels and open ones together are all it has. */
  ghost predicate Balanced(d: Driver, total: seq<int>) {
    && |d.free| == |total|
    && forall c :: 0 <= c < |total| ==> d.free[c] + Open(d.ifs, c) == total[c]
  }

  /** The interface a step may clean up or remove, if any */
  function Cleaned(d: Driver, e: Event): nat {
    match e
    case RemoveNull(k) => k
    case Request(k, created) => if created then |d.ifs| else k
    case Hangup(k, _) => if k < |d.ifs| && d.ifs[k].state == Disconnected then k else |d.ifs|
    case ConnectInd(plci, _, k, _, created) => if created || ByPlci(d.ifs, plci) < |d.ifs| then |d.ifs| else k
    case DisconnectInd(plci) =>
      var k := ByPlci(d.ifs, plci);
      if k < |d.ifs| && d.ifs[k].state == Disconnecting then k else |d.ifs|
    case _ => |d.ifs|
  }

  /** What a step must find for the counters to stay right */
  predicate Guard(d: Driver, e: Event) {
    && (Cleaned(d, e) < |d.ifs| ==> !IsOpen(d.ifs[Cleaned(d, e)]))
    && (e.ConnectB3Ind? || (e.ConnectB3Conf? && e.accepted) ==>
          var k := ByPlci(d.ifs, e.plci);
          k < |d.ifs| && d.ifs[k].kind != NullChannel ==> e.ncci != 0 && d.ifs[k].ncci == 0)
    && (e.DisconnectB3Ind? ==>
          var k := ByPlci(d.ifs, e.plci);
          k < |d.ifs| && d.ifs[k].kind != NullChannel ==> d.ifs[k].ncci != 0)
  }

  lemma OneChanged(d: Driver, k: nat, i: Interface, change: int, total: seq<int>)
    requires Valid(d) && Balanced(d, total) && k < |d.ifs|
    requires i.controller == d.ifs[k].controller && i.kind == d.ifs[k].kind
    requires change == 0 || d.ifs[k].kind != NullChannel
    ensures Balanced(Driver(d.ifs[k := i], CountFree(d.free, d.ifs[k], change)), total)
       <==> change + Bit(IsOpen(i)) == Bit(IsOpen(d.ifs[k]))
  {
    assert d.ifs[k] in d.ifs;
    var u := Driver(d.ifs[k := i], CountFree(d.free, d.ifs[k], change));
    forall c | 0 <= c < |total|
      ensures u.free[c] + Open(u.ifs, c) == total[c]
         <==> (c == i.controller ==> change + Bit(IsOpen(i)) == Bit(IsOpen(d.ifs[k])))
    {
      OpenUpdated(d.ifs, k, i, c);
    }
  }

  lemma Unbalanced(d: Driver, k: nat, total: seq<int>)
    requires Valid(d) && Balanced(d, total) && k < |d.ifs|
    ensures Balanced(d.(ifs := d.ifs[..k] + d.ifs[k + 1..]), total) <==> !IsOpen(d.ifs[k])
  {
    assert d.ifs[k] in d.ifs;
    var u := d.(ifs := d.ifs[..k] + d.ifs[k + 1..]);
    forall c | 0 <= c < |total|
      ensures u.free[c] + Open(u.ifs, c) == total[c] <==> (c == d.ifs[k].controller ==> !IsOpen(d.ifs[k]))
    {
      OpenWithout(d.ifs, k, c);
    }
    var c := d.ifs[k].controller;
    assert u.free[c] + Open(u.ifs, c) == total[c] <==> !IsOpen(d.ifs[k]);
  }

  /** The step as a change of one interface: which, to what, and the change of the counter */
  function Touched(d: Driver, e: Event): (nat, int) {
    match e
    case ConnectB3Ind(plci, _) => (ByPlci(d.ifs, plci), -1)
    case ConnectB3Conf(plci, _, accepted) => if accepted then (ByPlci(d.ifs, plci), -1) else (|d.ifs|, 0)
    case DisconnectB3Ind(plci) => (ByPlci(d.ifs, plci), 1)
    case DisconnectInd(plci) => (ByPlci(d.ifs, plci), 0)
    case AlertConf(plci) => (ByPlci(d.ifs, plci), 0)
    case HoldInd(plci, _) => (ByPlci(d.ifs, plci), 0)
    case RetrieveInd(plci, _) => (ByPlci(d.ifs, plci), 0)
    case ConnectActiveInd(plci) => (ByPlci(d.ifs, plci), 0)
    case ConnectConf(message, _, _) => (ByMessage(d.ifs, message), 0)
    case NewNull(_, _) => (|d.ifs|, 0)
    case _ => (e.k, 0)
  }

  predicate Updates(d: Driver, e: Event) {
    !e.NewNull? && !e.RemoveNull? && Touched(d, e).0 < |d.ifs|
  }

  function Change(d: Driver, e: Event): int
    requires Updates(d, e)
  {
    if d.ifs[Touched(d, e).0].kind == NullChannel then 0 else Touched(d, e).1
  }

  lemma OneInterfaceChanges(d: Driver, e: Event)
    requires Valid(d) && Updates(d, e)
    ensures var k := Touched(d, e).0; var u := After(d, e);
      |u.ifs| == |d.ifs| && u == Driver(d.ifs[k := u.ifs[k]], CountFree(d.free, d.ifs[k], Change(d, e)))
      && u.ifs[k].kind == d.ifs[k].kind && u.ifs[k].controller == d.ifs[k].controller
  {
    hide ByPlci, ByMessage;
    var k := Touched(d, e).0;
    assert d.ifs[k] in d.ifs;
    assert CountFree(d.free, d.ifs[k], 0) == d.free;
    assert d.ifs[k := d.ifs[k]] == d.ifs;
  }

  lemma GuardForOne(d: Driver, e: Event)
    requires Updates(d, e)
    ensures var k := Touched(d, e).0; var u := After(d, e);
      |u.ifs| == |d.ifs| && (Guard(d, e) <==> Change(d, e) + Bit(IsOpen(u.ifs[k])) == Bit(IsOpen(d.ifs[k])))
  {
    hide CountFree, ByPlci, ByMessage;
  }

  lemma NothingTouched(d: Driver, e: Event)
    requires !e.NewNull? && Touched(d, e).0 >= |d.ifs|
    ensures After(d, e) == d && Guard(d, e)
  {
    hide ByPlci, ByMessage;
  }

  /**
   From any balanced state, without a word about what CAPI may send, a step keeps the balance
   exactly if the guard holds: no open interface is cleaned up, no NCCI is opened over another,
   none is closed that is not open.
   */
  lemma BalanceKeptExactly(d: Driver, e: Event, total: seq<int>)
    requires Valid(d) && Balanced(d, total)
    ensures Balanced(After(d, e), total) <==> Guard(d, e)
  {
    if e.NewNull? {
      NewIsBalanced(d, e.controller, e.message, total);
    } else if Touched(d, e).0 >= |d.ifs| {
      NothingTouched(d, e);
    } else if e.RemoveNull? {
      Unbalanced(d, e.k, total);
    } else {
      hide *;
      OneInterfaceChanges(d, e);
      GuardForOne(d, e);
      var k := Touched(d, e).0;
      ChangeOfNull(d, e);
      OneChanged(d, k, After(d, e).ifs[k], Change(d, e), total);
    }
  }

  lemma ChangeOfNull(d: Driver, e: Event)
    requires Updates(d, e)
    ensures Change(d, e) == 0 || d.ifs[Touched(d, e).0].kind != NullChannel
  {
  }

  lemma NewIsBalanced(d: Driver, controller: nat, message: nat, total: seq<int>)
    requires Balanced(d, total)
    ensures Balanced(After(d, NewNull(controller, message)), total)
  {
    var u := After(d, NewNull(controller, message));
    forall c | 0 <= c < |total| ensures u.free[c] + Open(u.ifs, c) == total[c] {
      OpenAppended(d.ifs, u.ifs[|d.ifs|], c);
    }
  }

  // ---------------------------------------------------------------- what CAPI may send

  /**
   The PLCIs CAPI has, each with its open NCCI or 0, the connect requests it has not answered,
   the PLCIs it was asked to hold, and those it holds
   */
  datatype World = World(calls: map<nat, nat>, asked: set<nat>, holding: set<nat>, held: set<nat>)

  ghost predicate FreshMessage(d: Driver, w: World, message: nat) {
    message != 0 && message !in w.asked && forall i <- d.ifs :: i.message != message
  }

  /** CAPI gives a PLCI to a new call only when no interface still stores it. */
  ghost predicate FreshPlci(d: Driver, w: World, plci: nat) {
    0 < plci < 0x1_0000 && plci !in w.calls && forall i <- d.ifs :: i.plci != plci
  }

  ghost predicate Enabled(d: Driver, w: World, e: Event) {
    match e
    case NewNull(controller, message) => controller < |d.free| && FreshMessage(d, w, message)
    case RemoveNull(k) => k < |d.ifs| && d.ifs[k].kind == NullChannel && d.ifs[k].plci == 0
    case Request(k, _) => k < |d.ifs| && d.ifs[k].kind == B && !d.ifs[k].used
    case Call(k, message, _) =>
      && k < |d.ifs| && d.ifs[k].owner && !d.ifs[k].started && d.ifs[k].state == Disconnected && d.ifs[k].plci == 0
      && FreshMessage(d, w, message)
    case Hangup(k, _) => k < |d.ifs| && d.ifs[k].owner
    case ConnectConf(message, plci, accepted) => message in w.asked && (accepted ==> FreshPlci(d, w, plci))
    case ConnectInd(plci, _, k, _, _) =>
      FreshPlci(d, w, plci) && (k < |d.ifs| ==> !d.ifs[k].used && d.ifs[k].kind != NullChannel)
    case StartPbx(k) => k < |d.ifs| && d.ifs[k].owner && d.ifs[k].plci != 0
    case AlertConf(plci) => plci in w.calls
    case Hold(k) => k < |d.ifs| && d.ifs[k].owner && d.ifs[k].ncci != 0 && d.ifs[k].plci !in w.holding + w.held
    case HoldInd(plci, _) => plci in w.holding
    case RetrieveInd(plci, _) => plci in w.held
    case ConnectActiveInd(plci) => plci in w.calls
    case ConnectB3Ind(plci, ncci) => plci in w.calls && w.calls[plci] == 0 && ncci != 0
    case ConnectB3Conf(plci, ncci, accepted) => plci in w.calls && (accepted ==> w.calls[plci] == 0 && ncci != 0)
    case DisconnectB3Ind(plci) => plci in w.calls && w.calls[plci] != 0
    case DisconnectInd(plci) => plci in w.calls && w.calls[plci] == 0
  }

  function WorldAfter(d: Driver, w: World, e: Event): World {
    match e
    case NewNull(_, message) => w.(asked := w.asked + {message})
    case Hold(k) => if k < |d.ifs| then w.(holding := w.holding + {d.ifs[k].plci}) else w
    case Call(_, message, error) => if error then w else w.(asked := w.asked + {message})
    case ConnectConf(message, plci, accepted) =>
      w.(calls := if accepted then w.calls[plci := 0] else w.calls, asked := w.asked - {message})
    case ConnectInd(plci, _, _, _, _) => w.(calls := w.calls[plci := 0])
    case ConnectB3Ind(plci, ncci) => w.(calls := w.calls[plci := ncci])
    case ConnectB3Conf(plci, ncci, accepted) => if accepted then w.(calls := w.calls[plci := ncci]) else w
    case DisconnectB3Ind(plci) => w.(calls := w.calls[plci := 0])
    case DisconnectInd(plci) => w.(calls := w.calls - {plci}, holding := w.holding - {plci}, held := w.held - {plci})
    case HoldInd(plci, accepted) =>
      w.(holding := w.holding - {plci}, held := if accepted then w.held + {plci} else w.held)
    case RetrieveInd(plci, accepted) => if accepted then w.(held := w.held - {plci}) else w
    case _ => w
  }

  // ---------------------------------------------------------------- every run

  /** One interface against CAPI's view: it knows the open NCCI of its PLCI and no other. */
  predicate Agrees(i: Interface, w: World) {
    && i.ncci == (if i.plci in w.calls then w.calls[i.plci] else 0)
    && (i.plci in w.calls ==> i.used && i.state != Disconnected)
    && (i.plci == 0 && i.message in w.asked ==> i.used && i.state != Disconnected)
    && (!i.used ==> i.plci == 0 && i.message == 0 && !i.owner)
    && (i.plci in w.holding + w.held ==> i.onhold == i.plci)
  }

  ghost predicate Apart(ifs: seq<Interface>, w: World) {
    forall i, j :: 0 <= i < j < |ifs| && ifs[i].plci == ifs[j].plci ==> ifs[i].plci !in w.calls
  }

  ghost predicate Inv(d: Driver, w: World) {
    && Valid(d) && 0 !in w.asked && (forall plci <- w.calls :: 0 < plci < 0x1_0000)
    && (forall plci <- w.holding + w.held :: plci in w.calls) && w.holding !! w.held
    && (forall k :: 0 <= k < |d.ifs| ==> Agrees(d.ifs[k], w))
    && Apart(d.ifs, w)
  }

  lemma GuardHolds(d: Driver, w: World, e: Event)
    requires Inv(d, w) && Enabled(d, w, e)
    ensures Guard(d, e)
  {
    var k := Cleaned(d, e);
    if k < |d.ifs| {
      assert Agrees(d.ifs[k], w);
    }
    if e.ConnectB3Ind? || e.ConnectB3Conf? || e.DisconnectB3Ind? {
      var j := ByPlci(d.ifs, e.plci);
      assert j < |d.ifs| ==> Agrees(d.ifs[j], w);
    }
  }

  /** The PLCI a message speaks of belongs to the interface it finds and to no other. */
  lemma OnlyOneFound(d: Driver, w: World, plci: nat, j: nat)
    requires Inv(d, w) && plci in w.calls && j < |d.ifs| && d.ifs[j].plci == plci
    ensures j == ByPlci(d.ifs, plci)
  {
    assert Agrees(d.ifs[j], w);
  }

  /** Where an interface was before the step, for all but a new one */
  function Before(d: Driver, e: Event, j: nat): nat {
    if e.RemoveNull? && j >= e.k then j + 1 else j
  }

  lemma OthersUntouched(d: Driver, e: Event, j: nat)
    requires j < |After(d, e).ifs| && !e.NewNull? && (e.RemoveNull? ==> e.k < |d.ifs|)
    ensures Before(d, e, j) < |d.ifs|
    ensures e.RemoveNull? || Touched(d, e).0 != j ==> After(d, e).ifs[j] == d.ifs[Before(d, e, j)]
  {
    hide ByPlci, ByMessage, Hungup, Ended, CleanedUp, CountFree;
  }

  lemma AgreesKept(d: Driver, w: World, e: Event, j: nat)
    requires Inv(d, w) && Enabled(d, w, e) && j < |After(d, e).ifs|
    ensures Agrees(After(d, e).ifs[j], WorldAfter(d, w, e))
  {
    if e.NewNull? {
      NewAgrees(d, w, e, j);
    } else {
      OthersUntouched(d, e, j);
      if e.RemoveNull? || Touched(d, e).0 != j {
        UntouchedAgrees(d, w, e, j);
      } else {
        TouchedAgrees(d, w, e, j);
      }
    }
  }

  lemma NewAgrees(d: Driver, w: World, e: Event, j: nat)
    requires Inv(d, w) && Enabled(d, w, e) && e.NewNull? && j < |After(d, e).ifs|
    ensures Agrees(After(d, e).ifs[j], WorldAfter(d, w, e))
  {
    if j < |d.ifs| {
      assert Agrees(d.ifs[j], w) && d.ifs[j] in d.ifs;
    }
  }

  lemma UntouchedAgrees(d: Driver, w: World, e: Event, j: nat)
    requires Inv(d, w) && Enabled(d, w, e) && !e.NewNull? && j < |After(d, e).ifs|
    requires Before(d, e, j) < |d.ifs| && After(d, e).ifs[j] == d.ifs[Before(d, e, j)]
    requires e.RemoveNull? || Touched(d, e).0 != j
    ensures Agrees(After(d, e).ifs[j], WorldAfter(d, w, e))
  {
    hide After;
    var i := d.ifs[Before(d, e, j)];
    assert Agrees(i, w) && i in d.ifs;
    if e.ConnectB3Ind? || e.ConnectB3Conf? || e.DisconnectB3Ind? || e.DisconnectInd? {
      if i.plci == e.plci {
        OnlyOneFound(d, w, e.plci, j);
      }
    }
  }

  lemma TouchedAgrees(d: Driver, w: World, e: Event, j: nat)
    requires Inv(d, w) && Enabled(d, w, e) && !e.NewNull? && !e.RemoveNull? && j == Touched(d, e).0 < |d.ifs|
    ensures j < |After(d, e).ifs| && Agrees(After(d, e).ifs[j], WorldAfter(d, w, e))
  {
    hide ByPlci, ByMessage, CountFree;
    assert Agrees(d.ifs[j], w) && d.ifs[j] in d.ifs;
    if e.ConnectConf? {
      assert ByPlci(d.ifs, e.plci) == |d.ifs| || !e.accepted;
    }
  }

  lemma ApartKept(d: Driver, w: World, e: Event)
    requires Inv(d, w) && Enabled(d, w, e)
    ensures Apart(After(d, e).ifs, WorldAfter(d, w, e))
  {
    var u, v := After(d, e), WorldAfter(d, w, e);
    forall i, j | 0 <= i < j < |u.ifs| && u.ifs[i].plci == u.ifs[j].plci ensures u.ifs[i].plci !in v.calls {
      PlciAfter(d, w, e, i);
      PlciAfter(d, w, e, j);
    }
  }

  /** The PLCI that comes back is the one the answer is about. */
  lemma RetrievedIsHeld(d: Driver, w: World, plci: nat)
    requires Inv(d, w) && plci in w.held
    ensures var k := ByPlci(d.ifs, plci); k < |d.ifs| ==> d.ifs[k].onhold == plci
  {
    var k := ByPlci(d.ifs, plci);
    assert k < |d.ifs| ==> Agrees(d.ifs[k], w);
  }

  /** An interface keeps its PLCI, loses it for one CAPI does not have, or gets the fresh one. */
  ghost predicate PlciHasOrigin(d: Driver, w: World, e: Event, j: nat)
    requires j < |After(d, e).ifs|
  {
    var plci, b := After(d, e).ifs[j].plci, Before(d, e, j);
    || plci !in WorldAfter(d, w, e).calls
    || (b < |d.ifs| && plci == d.ifs[b].plci && plci in w.calls)
    || ((e.ConnectConf? || e.ConnectInd?) && FreshPlci(d, w, e.plci) && plci == e.plci && j == Touched(d, e).0)
  }

  lemma PlciAfter(d: Driver, w: World, e: Event, j: nat)
    requires Inv(d, w) && Enabled(d, w, e) && j < |After(d, e).ifs|
    ensures PlciHasOrigin(d, w, e, j)
  {
    if e.NewNull? {
      NewPlci(d, w, e, j);
    } else {
      OthersUntouched(d, e, j);
      if e.RemoveNull? || Touched(d, e).0 != j {
        UntouchedPlci(d, w, e, j);
      } else {
        TouchedPlci(d, w, e, j);
      }
    }
  }

  lemma NewPlci(d: Driver, w: World, e: Event, j: nat)
    requires Inv(d, w) && Enabled(d, w, e) && e.NewNull? && j < |After(d, e).ifs|
    ensures PlciHasOrigin(d, w, e, j)
  {
    if j < |d.ifs| {
      assert d.ifs[j] in d.ifs;
    }
  }

  lemma UntouchedPlci(d: Driver, w: World, e: Event, j: nat)
    requires Inv(d, w) && Enabled(d, w, e) && !e.NewNull? && j < |After(d, e).ifs|
    requires Before(d, e, j) < |d.ifs| && After(d, e).ifs[j] == d.ifs[Before(d, e, j)]
    requires e.RemoveNull? || Touched(d, e).0 != j
    ensures PlciHasOrigin(d, w, e, j)
  {
    hide After, Agrees, Apart, ByPlci, ByMessage;
    assert d.ifs[Before(d, e, j)] in d.ifs;
  }

  lemma TouchedPlci(d: Driver, w: World, e: Event, j: nat)
    requires Inv(d, w) && Enabled(d, w, e) && !e.NewNull? && !e.RemoveNull?
    requires j == Touched(d, e).0 < |d.ifs| && j < |After(d, e).ifs|
    ensures PlciHasOrigin(d, w, e, j)
  {
    if e.ConnectConf? || e.ConnectInd? {
      hide Agrees, Apart, ByPlci, ByMessage, CountFree;
      assert d.ifs[j] in d.ifs;
    } else {
      OldPlci(d, w, e, j);
    }
  }

  lemma OldPlci(d: Driver, w: World, e: Event, j: nat)
    requires Inv(d, w) && Enabled(d, w, e) && !e.NewNull? && !e.RemoveNull? && !e.ConnectConf? && !e.ConnectInd?
    requires j == Touched(d, e).0 < |d.ifs| && j < |After(d, e).ifs|
    ensures PlciHasOrigin(d, w, e, j)
  {
    if e.RetrieveInd? {
      RetrievedIsHeld(d, w, e.plci);
    }
    assert d.ifs[j] in d.ifs;
    hide Inv, Agrees, Apart, ByPlci, ByMessage, CountFree;
  }

  lemma InvKept(d: Driver, w: World, e: Event)
    requires Inv(d, w) && Enabled(d, w, e)
    ensures Inv(After(d, e), WorldAfter(d, w, e))
  {
    var u := After(d, e);
    forall k | 0 <= k < |u.ifs| ensures Agrees(u.ifs[k], WorldAfter(d, w, e)) {
      AgreesKept(d, w, e, k);
    }
    ApartKept(d, w, e);
    ValidKept(d, w, e);
  }

  lemma ValidKept(d: Driver, w: World, e: Event)
    requires Valid(d) && Enabled(d, w, e)
    ensures Valid(After(d, e)) && |After(d, e).free| == |d.free|
  {
    hide ByPlci, ByMessage;
  }

  /** The interfaces of the configuration, all at rest */
  ghost predicate AtStart(d: Driver, total: seq<int>) {
    && Valid(d) && d.free == total
    && forall i <- d.ifs :: !i.used && !i.owner && i.plci == 0 && i.ncci == 0 && i.message == 0
  }

  ghost predicate Possible(d: Driver, w: World, events: seq<Event>)
    decreases |events|
  {
    events == [] || (Enabled(d, w, events[0]) && Possible(After(d, events[0]), WorldAfter(d, w, events[0]), events[1..]))
  }

  function RunFrom(d: Driver, events: seq<Event>): Driver
    decreases |events|
  {
    if events == [] then d else RunFrom(After(d, events[0]), events[1..])
  }

  lemma {:induction false} BalancedAlong(d: Driver, w: World, events: seq<Event>, total: seq<int>)
    requires Inv(d, w) && Balanced(d, total) && Possible(d, w, events)
    ensures Balanced(RunFrom(d, events), total)
    decreases |events|
  {
    if events == [] {
    } else {
      hide Inv, After, Enabled, WorldAfter, Balanced, Guard;
      var e := events[0];
      GuardHolds(d, w, e);
      ValidOfInv(d, w);
      BalanceKeptExactly(d, e, total);
      InvKept(d, w, e);
      BalancedAlong(After(d, e), WorldAfter(d, w, e), events[1..], total);
    }
  }

  lemma ValidOfInv(d: Driver, w: World)
    requires Inv(d, w)
    ensures Valid(d)
  {
  }

  /** In every run from the start, each controller's free and open channels are all it has. */
  lemma ChannelsAreConserved(d: Driver, events: seq<Event>, total: seq<int>)
    requires AtStart(d, total) && Possible(d, World(map[], {}, {}, {}), events)
    ensures Balanced(RunFrom(d, events), total)
  {
    forall c | 0 <= c < |total| ensures Open(d.ifs, c) == 0 {
      NoneOpen(d.ifs, c);
    }
    BalancedAlong(d, World(map[], {}, {}, {}), events, total);
  }

  lemma {:induction false} NoneOpen(ifs: seq<Interface>, controller: nat)
    requires forall i <- ifs :: i.ncci == 0
    ensures Open(ifs, controller) == 0
  {
    if ifs == [] {
    } else {
      assert ifs[0] in ifs;
      NoneOpen(ifs[1..], controller);
    }
  }
}
