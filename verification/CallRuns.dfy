/**
 Single calls through the runs of the driver: the interface a call was sent for takes the PLCI
 of its confirmation and keeps it until CAPI ends the call, and a call that runs its course
 leaves its interface as it was.
 */
module CallRuns {
  import opened Common
  import opened BChannels

  // ---------------------------------------------------------------- message numbers

  /** No two interfaces without a PLCI wait under one message number. */
  ghost predicate MessagesApart(ifs: seq<Interface>) {
    forall i, j :: 0 <= i < j < |ifs| && ifs[i].plci == 0 && ifs[j].plci == 0 && ifs[i].message == ifs[j].message
                   ==> ifs[i].message == 0
  }

  ghost predicate Sound(d: Driver, w: World) {
    Inv(d, w) && MessagesApart(d.ifs)
  }

  /** An interface without a PLCI has its message number from before, or the fresh one of the step. */
  ghost predicate MessageHasOrigin(d: Driver, w: World, e: Event, j: nat)
    requires j < |After(d, e).ifs|
  {
    var i, b := After(d, e).ifs[j], Before(d, e, j);
    || i.plci != 0 || i.message == 0
    || (b < |d.ifs| && d.ifs[b].plci == 0 && d.ifs[b].message == i.message)
    || ((e.Call? || e.NewNull?) && FreshMessage(d, w, e.message) && i.message == e.message && j == if e.Call? then e.k else |d.ifs|)
  }

  lemma MessageAfter(d: Driver, w: World, e: Event, j: nat)
    requires Inv(d, w) && Enabled(d, w, e) && j < |After(d, e).ifs|
    ensures MessageHasOrigin(d, w, e, j)
  {
    if e.NewNull? {
    } else {
      OthersUntouched(d, e, j);
      if !e.RemoveNull? && Touched(d, e).0 == j {
        TouchedMessage(d, w, e, j);
      }
    }
  }

  lemma TouchedMessage(d: Driver, w: World, e: Event, j: nat)
    requires Inv(d, w) && Enabled(d, w, e) && !e.NewNull? && !e.RemoveNull?
    requires j == Touched(d, e).0 < |d.ifs| && j < |After(d, e).ifs|
    ensures MessageHasOrigin(d, w, e, j)
  {
    if e.RetrieveInd? {
      RetrievedIsHeld(d, w, e.plci);
    }
    assert Agrees(d.ifs[j], w);
    hide Apart, ByPlci, ByMessage, CountFree;
  }

  lemma MessagesApartKept(d: Driver, w: World, e: Event)
    requires Sound(d, w) && Enabled(d, w, e)
    ensures MessagesApart(After(d, e).ifs)
  {
    var u := After(d, e);
    hide After, Enabled, Inv;
    forall i, j | 0 <= i < j < |u.ifs| && u.ifs[i].plci == 0 && u.ifs[j].plci == 0 && u.ifs[i].message == u.ifs[j].message
      ensures u.ifs[i].message == 0
    {
      MessageAfter(d, w, e, i);
      MessageAfter(d, w, e, j);
    }
  }

  // ---------------------------------------------------------------- following one interface

  /** The interface at j leaves the list, or is cleaned up in a hangup. */
  predicate Gone(d: Driver, e: Event, j: nat)
    requires j < |d.ifs|
  {
    match e
    case RemoveNull(k) => k == j
    case Hangup(k, early) =>
      var i := d.ifs[j];
      k == j && (i.state == Disconnected
                 || (i.kind == NullChannel && i.plci == 0 && !early && i.state != Alerting && i.state != Did && i.state != InCall))
    case _ => false
  }

  /** Where it stands after a step that does not take it away */
  function Index(e: Event, j: nat): nat {
    if e.RemoveNull? && e.k < j then j - 1 else j
  }

  /** A connect request was sent for the interface at j and is not answered yet. */
  predicate WaitsFor(d: Driver, w: World, j: nat, message: nat) {
    j < |d.ifs| && d.ifs[j].plci == 0 && d.ifs[j].message == message && message in w.asked
  }

  predicate Stores(d: Driver, w: World, j: nat, plci: nat) {
    j < |d.ifs| && d.ifs[j].plci == plci && plci in w.calls
  }

  /** An interface that the step does not touch keeps its contents, though not always its place. */
  lemma LeftInPlace(d: Driver, e: Event, j: nat)
    requires j < |d.ifs| && (e.RemoveNull? ==> e.k < |d.ifs| && e.k != j)
    requires e.NewNull? || e.RemoveNull? || Touched(d, e).0 != j
    ensures Index(e, j) < |After(d, e).ifs| && After(d, e).ifs[Index(e, j)] == d.ifs[j]
  {
    hide ByPlci, ByMessage, CountFree, Hungup, Ended, CleanedUp;
  }

  lemma StillWaits(d: Driver, w: World, e: Event, j: nat, message: nat)
    requires Inv(d, w) && Enabled(d, w, e) && WaitsFor(d, w, j, message)
    requires !Gone(d, e, j) && !(e.ConnectConf? && e.message == message)
    ensures WaitsFor(After(d, e), WorldAfter(d, w, e), Index(e, j), message)
  {
    if !e.NewNull? && !e.RemoveNull? && Touched(d, e).0 == j {
      TouchedWaits(d, w, e, j, message);
    } else {
      LeftInPlace(d, e, j);
      hide Inv, After;
    }
  }

  lemma TouchedWaits(d: Driver, w: World, e: Event, j: nat, message: nat)
    requires Inv(d, w) && Enabled(d, w, e) && WaitsFor(d, w, j, message)
    requires !Gone(d, e, j) && !(e.ConnectConf? && e.message == message)
    requires !e.NewNull? && !e.RemoveNull? && Touched(d, e).0 == j
    ensures WaitsFor(After(d, e), WorldAfter(d, w, e), j, message)
  {
    assert Agrees(d.ifs[j], w);
    hide Inv, ByPlci, ByMessage, CountFree;
  }

  lemma StillStores(d: Driver, w: World, e: Event, j: nat, plci: nat)
    requires Inv(d, w) && Enabled(d, w, e) && Stores(d, w, j, plci)
    requires !Gone(d, e, j) && e != DisconnectInd(plci)
    ensures Stores(After(d, e), WorldAfter(d, w, e), Index(e, j), plci)
  {
    if !e.NewNull? && !e.RemoveNull? && Touched(d, e).0 == j {
      TouchedStores(d, w, e, j, plci);
    } else {
      LeftInPlace(d, e, j);
      hide Inv, After;
    }
  }

  lemma TouchedStores(d: Driver, w: World, e: Event, j: nat, plci: nat)
    requires Inv(d, w) && Enabled(d, w, e) && Stores(d, w, j, plci)
    requires !Gone(d, e, j) && e != DisconnectInd(plci) && !e.NewNull? && !e.RemoveNull? && Touched(d, e).0 == j
    ensures Stores(After(d, e), WorldAfter(d, w, e), j, plci)
  {
    if e.RetrieveInd? {
      RetrievedIsHeld(d, w, e.plci);
    }
    assert Agrees(d.ifs[j], w);
    hide Inv, ByPlci, ByMessage, CountFree;
  }

  /** The confirmation finds the interface that waits for it. */
  lemma ConfirmationIsStored(d: Driver, w: World, j: nat, message: nat, plci: nat)
    requires Sound(d, w) && WaitsFor(d, w, j, message) && Enabled(d, w, ConnectConf(message, plci, true))
    ensures After(d, ConnectConf(message, plci, true)).ifs == d.ifs[j := d.ifs[j].(plci := plci)]
    ensures Stores(After(d, ConnectConf(message, plci, true)), WorldAfter(d, w, ConnectConf(message, plci, true)), j, plci)
  {
    var k, p := ByMessage(d.ifs, message), ByPlci(d.ifs, plci);
    assert forall i :: 0 <= i < |d.ifs| ==> d.ifs[i] in d.ifs;
    assert k == j;
  }

  // ---------------------------------------------------------------- over runs

  /** The interface at j is neither removed nor cleaned up on the way. */
  ghost predicate Stays(d: Driver, events: seq<Event>, j: nat)
    decreases |events|
  {
    j < |d.ifs| && (events == [] || (!Gone(d, events[0], j) && Stays(After(d, events[0]), events[1..], Index(events[0], j))))
  }

  function IndexAfter(events: seq<Event>, j: nat): nat
    decreases |events|
  {
    if events == [] then j else IndexAfter(events[1..], Index(events[0], j))
  }

  function WorldFrom(d: Driver, w: World, events: seq<Event>): World
    decreases |events|
  {
    if events == [] then w else WorldFrom(After(d, events[0]), WorldAfter(d, w, events[0]), events[1..])
  }

  lemma {:induction false} SoundAlong(d: Driver, w: World, events: seq<Event>)
    requires Sound(d, w) && Possible(d, w, events)
    ensures Sound(RunFrom(d, events), WorldFrom(d, w, events))
    decreases |events|
  {
    if events == [] {
    } else {
      InvKept(d, w, events[0]);
      MessagesApartKept(d, w, events[0]);
      hide Inv, MessagesApart, After, WorldAfter, Enabled;
      SoundAlong(After(d, events[0]), WorldAfter(d, w, events[0]), events[1..]);
    }
  }

  /** Every state of every run from interfaces at rest is sound. */
  lemma EveryRunIsSound(d: Driver, events: seq<Event>, total: seq<int>)
    requires AtStart(d, total) && Possible(d, World(map[], {}, {}, {}), events)
    ensures Sound(RunFrom(d, events), WorldFrom(d, World(map[], {}, {}, {}), events))
  {
    SoundAlong(d, World(map[], {}, {}, {}), events);
  }

  lemma {:induction false} WaitsAlong(d: Driver, w: World, events: seq<Event>, j: nat, message: nat)
    requires Sound(d, w) && Possible(d, w, events) && Stays(d, events, j) && WaitsFor(d, w, j, message)
    requires forall e <- events :: !(e.ConnectConf? && e.message == message)
    ensures WaitsFor(RunFrom(d, events), WorldFrom(d, w, events), IndexAfter(events, j), message)
    decreases |events|
  {
    if events == [] {
    } else {
      var e := events[0];
      assert e in events;
      StillWaits(d, w, e, j, message);
      InvKept(d, w, e);
      MessagesApartKept(d, w, e);
      hide Inv, MessagesApart, After, WorldAfter, Enabled, WaitsFor, Gone;
      WaitsAlong(After(d, e), WorldAfter(d, w, e), events[1..], Index(e, j), message);
    }
  }

  lemma {:induction false} StoresAlong(d: Driver, w: World, events: seq<Event>, j: nat, plci: nat)
    requires Sound(d, w) && Possible(d, w, events) && Stays(d, events, j) && Stores(d, w, j, plci)
    requires DisconnectInd(plci) !in events
    ensures Stores(RunFrom(d, events), WorldFrom(d, w, events), IndexAfter(events, j), plci)
    decreases |events|
  {
    if events == [] {
    } else {
      var e := events[0];
      StillStores(d, w, e, j, plci);
      InvKept(d, w, e);
      MessagesApartKept(d, w, e);
      hide Inv, MessagesApart, After, WorldAfter, Enabled, Stores, Gone;
      StoresAlong(After(d, e), WorldAfter(d, w, e), events[1..], Index(e, j), plci);
    }
  }

  /**
   The interface a call was sent for takes the PLCI of the accepted confirmation, whatever
   happens to it and to all others in between short of its being removed or cleaned up, and
   stores it until CAPI ends that call.
   */
  lemma CallKeepsItsPlci(d: Driver, w: World, k: nat, message: nat, during: seq<Event>, plci: nat, later: seq<Event>)
    requires Sound(d, w) && Enabled(d, w, Call(k, message, false))
    requires var d1, w1 := After(d, Call(k, message, false)), WorldAfter(d, w, Call(k, message, false));
      && Possible(d1, w1, during) && Stays(d1, during, k)
      && (forall e <- during :: !(e.ConnectConf? && e.message == message))
      && var d2, w2, conf := RunFrom(d1, during), WorldFrom(d1, w1, during), ConnectConf(message, plci, true);
         Enabled(d2, w2, conf)
         && Possible(After(d2, conf), WorldAfter(d2, w2, conf), later) && Stays(After(d2, conf), later, IndexAfter(during, k))
    requires DisconnectInd(plci) !in later
    ensures var d2 := RunFrom(After(d, Call(k, message, false)), during);
      var d3, j := RunFrom(After(d2, ConnectConf(message, plci, true)), later), IndexAfter(later, IndexAfter(during, k));
      j < |d3.ifs| && d3.ifs[j].plci == plci
  {
    var call, conf := Call(k, message, false), ConnectConf(message, plci, true);
    var d1, w1 := After(d, call), WorldAfter(d, w, call);
    assert WaitsFor(d1, w1, k, message);
    InvKept(d, w, call);
    MessagesApartKept(d, w, call);
    hide Inv, MessagesApart, After, WorldAfter, Enabled, WaitsFor;
    WaitsAlong(d1, w1, during, k, message);
    SoundAlong(d1, w1, during);
    var d2, w2 := RunFrom(d1, during), WorldFrom(d1, w1, during);
    ConfirmationIsStored(d2, w2, IndexAfter(during, k), message, plci);
    InvKept(d2, w2, conf);
    MessagesApartKept(d2, w2, conf);
    StoresAlong(After(d2, conf), WorldAfter(d2, w2, conf), later, IndexAfter(during, k), plci);
  }

  /** An incoming call that is taken is stored likewise. */
  lemma IncomingIsStored(d: Driver, w: World, plci: nat, message: nat, k: nat, did: bool)
    requires Inv(d, w) && k < |d.ifs| && Enabled(d, w, ConnectInd(plci, message, k, did, true))
    ensures var e := ConnectInd(plci, message, k, did, true); Stores(After(d, e), WorldAfter(d, w, e), k, plci)
  {
    assert forall i :: 0 <= i < |d.ifs| ==> d.ifs[i] in d.ifs;
    assert ByPlci(d.ifs, plci) == |d.ifs|;
  }

  // ---------------------------------------------------------------- the end of a call

  /**
   Once CAPI has ended a call no interface stores its PLCI, so that CAPI may use it again,
   unless the call was an incoming one whose dialplan has not started.
   */
  lemma PlciIsForgottenExactly(d: Driver, w: World, plci: nat)
    requires Inv(d, w) && plci in w.calls
    ensures var k := ByPlci(d.ifs, plci);
      (forall i <- After(d, DisconnectInd(plci)).ifs :: i.plci != plci)
      <==> !(k < |d.ifs| && d.ifs[k].owner && (d.ifs[k].state == Did || d.ifs[k].state == InCall) && !d.ifs[k].started)
  {
    var k, u := ByPlci(d.ifs, plci), After(d, DisconnectInd(plci));
    forall j | 0 <= j < |d.ifs| && j != k ensures d.ifs[j].plci != plci {
      if d.ifs[j].plci == plci {
        OnlyOneFound(d, w, plci, j);
      }
    }
    if k < |d.ifs| {
      assert u.ifs[k] in u.ifs;
    }
  }

  /** An interface of a B channel without a call */
  predicate AtRest(i: Interface) {
    i.kind == B && !i.used && !i.owner && !i.started && i.plci == 0 && i.onhold == 0 && i.ncci == 0 && i.message == 0
  }

  /** Nobody else has this PLCI or waits for this message. */
  ghost predicate Alone(d: Driver, k: nat, plci: nat, message: nat) {
    k < |d.ifs| && forall j :: 0 <= j < |d.ifs| && j != k ==> d.ifs[j].plci != plci && d.ifs[j].message != message
  }

  lemma Found(d: Driver, k: nat, plci: nat, message: nat)
    requires Alone(d, k, plci, message) && 0 < plci && 0 < message
    ensures d.ifs[k].plci == plci ==> ByPlci(d.ifs, plci) == k
    ensures d.ifs[k].plci != plci ==> ByPlci(d.ifs, plci) == |d.ifs|
    ensures d.ifs[k].plci == 0 && d.ifs[k].message == message ==> ByMessage(d.ifs, message) == k
  {
  }

  lemma FoundAt(ifs: seq<Interface>, k: nat, plci: nat)
    requires k < |ifs| && ifs[k].plci == plci > 0 && forall j :: 0 <= j < |ifs| && j != k ==> ifs[j].plci != plci
    ensures ByPlci(ifs, plci) == k
  {
    var j := ByPlci(ifs, plci);
    assert j < |ifs| ==> ifs[j].plci == plci;
  }

  function AtPlace(d: Driver, k: nat, i: Interface): Driver
    requires k < |d.ifs|
  {
    Driver(d.ifs[k := i], d.free)
  }

  /** The interface of an outgoing call in one of its states */
  function Outgoing(i: Interface, plci: nat, ncci: nat, message: nat, state: CallState): Interface {
    Interface(B, i.controller, true, true, true, plci, 0, ncci, message, state)
  }

  lemma RequestAndCall(d: Driver, k: nat, message: nat)
    requires k < |d.ifs| && AtRest(d.ifs[k])
    ensures var i := d.ifs[k];
      After(d, Request(k, true)) == AtPlace(d, k, Interface(B, i.controller, true, true, false, 0, 0, 0, 0, Disconnected))
    ensures After(After(d, Request(k, true)), Call(k, message, false))
         == AtPlace(d, k, Outgoing(d.ifs[k], 0, 0, message, ConnectPending))
  {
  }

  lemma ConfirmedAndActive(d: Driver, k: nat, i: Interface, plci: nat, message: nat)
    requires Alone(d, k, plci, message) && 0 < plci && 0 < message
    ensures After(AtPlace(d, k, Outgoing(i, 0, 0, message, ConnectPending)), ConnectConf(message, plci, true))
         == AtPlace(d, k, Outgoing(i, plci, 0, message, ConnectPending))
    ensures After(AtPlace(d, k, Outgoing(i, plci, 0, message, ConnectPending)), ConnectActiveInd(plci))
         == AtPlace(d, k, Outgoing(i, plci, 0, message, Connected))
  {
    var d1 := AtPlace(d, k, Outgoing(i, 0, 0, message, ConnectPending));
    var d2 := AtPlace(d, k, Outgoing(i, plci, 0, message, ConnectPending));
    Found(d1, k, plci, message);
    Found(d2, k, plci, message);
    hide ByPlci, ByMessage, Alone;
  }

  lemma B3ComesUp(d: Driver, k: nat, i: Interface, plci: nat, message: nat, ncci: nat)
    requires Alone(d, k, plci, message) && 0 < plci && 0 < message && i.controller == d.ifs[k].controller && d.ifs[k].kind == B
    ensures After(AtPlace(d, k, Outgoing(i, plci, 0, message, Connected)), ConnectB3Ind(plci, ncci))
         == Driver(d.ifs[k := Outgoing(i, plci, ncci, message, Connected)], CountFree(d.free, d.ifs[k], -1))
  {
    Found(AtPlace(d, k, Outgoing(i, plci, 0, message, Connected)), k, plci, message);
    hide ByPlci, ByMessage, Alone;
  }

  /**
   An outgoing call from the request for a channel to B3 being up: it waits, takes the PLCI,
   is connected, and takes the NCCI and a channel.
   */
  lemma OutgoingCallConnects(d: Driver, k: nat, message: nat, plci: nat, ncci: nat)
    requires Alone(d, k, plci, message) && AtRest(d.ifs[k]) && 0 < plci && 0 < message
    ensures RunFrom(d, [Request(k, true), Call(k, message, false), ConnectConf(message, plci, true), ConnectActiveInd(plci),
                        ConnectB3Ind(plci, ncci)])
      == Driver(d.ifs[k := Interface(B, d.ifs[k].controller, true, true, true, plci, 0, ncci, message, Connected)],
                CountFree(d.free, d.ifs[k], -1))
  {
    hide After, RunFrom, CountFree;
    RequestAndCall(d, k, message);
    ConfirmedAndActive(d, k, d.ifs[k], plci, message);
    B3ComesUp(d, k, d.ifs[k], plci, message, ncci);
    FiveSteps(d, Request(k, true), Call(k, message, false), ConnectConf(message, plci, true), ConnectActiveInd(plci), ConnectB3Ind(plci, ncci));
  }

  lemma FiveSteps(d: Driver, a: Event, b: Event, c: Event, e: Event, f: Event)
    ensures RunFrom(d, [a, b, c, e, f]) == After(After(After(After(After(d, a), b), c), e), f)
  {
    hide After;
    assert [a, b, c, e, f][1..] == [b, c, e, f] && [b, c, e, f][1..] == [c, e, f] && [c, e, f][1..] == [e, f];
    assert [e, f][1..] == [f] && [f][1..] == [];
    var d2 := After(After(d, a), b);
    assert RunFrom(d, [a, b, c, e, f]) == RunFrom(d2, [c, e, f]);
    var d4 := After(After(d2, c), e);
    assert RunFrom(d2, [c, e, f]) == RunFrom(d4, [f]);
    assert RunFrom(d4, [f]) == After(d4, f);
  }

  /** A call that is put on hold and retrieved is connected again under its PLCI; on hold it keeps it. */
  lemma HoldAndRetrieve(d: Driver, k: nat, plci: nat)
    requires k < |d.ifs| && d.ifs[k].plci == plci > 0 && d.ifs[k].state == Connected && d.ifs[k].onhold == 0
    requires forall j :: 0 <= j < |d.ifs| && j != k ==> d.ifs[j].plci != plci
    ensures After(After(d, Hold(k)), HoldInd(plci, true)) == AtPlace(d, k, d.ifs[k].(state := OnHold, onhold := plci))
    ensures After(AtPlace(d, k, d.ifs[k].(state := OnHold, onhold := plci)), RetrieveInd(plci, true)) == d
    ensures After(After(d, Hold(k)), HoldInd(plci, false)) == d
  {
    var i := d.ifs[k];
    var d1 := AtPlace(d, k, i.(onhold := plci));
    assert After(d, Hold(k)) == d1;
    FoundAt(d1.ifs, k, plci);
    FoundAt(AtPlace(d, k, i.(state := OnHold, onhold := plci)).ifs, k, plci);
    hide ByPlci;
    assert d.ifs[k := i] == d.ifs;
  }

  /**
   The end of a connected call, from B3 going down over the hangup to CAPI's last word: whoever
   hangs up first, the interface is at rest again and the channel is given back.
   */
  lemma CallEnds(d: Driver, k: nat, plci: nat, early: bool)
    requires k < |d.ifs| && d.ifs[k].plci == plci > 0 && d.ifs[k].state == Connected && d.ifs[k].kind == B
    requires forall j :: 0 <= j < |d.ifs| && j != k ==> d.ifs[j].plci != plci
    ensures var down := After(d, DisconnectB3Ind(plci));
      var rest := Interface(B, d.ifs[k].controller, false, false, false, 0, 0, 0, 0, Disconnected);
      && down.free == CountFree(d.free, d.ifs[k], 1)
      && After(After(down, Hangup(k, early)), DisconnectInd(plci)) == Driver(d.ifs[k := rest], down.free)
      && After(After(down, DisconnectInd(plci)), Hangup(k, early)) == Driver(d.ifs[k := rest], down.free)
  {
    var down := After(d, DisconnectB3Ind(plci));
    assert ByPlci(d.ifs, plci) == k;
    assert down == Driver(d.ifs[k := d.ifs[k].(ncci := 0)], CountFree(d.free, d.ifs[k], 1));
    LocalEnds(down, k, plci, early);
    RemoteEnds(down, k, plci, early);
  }

  lemma LocalEnds(d: Driver, k: nat, plci: nat, early: bool)
    requires k < |d.ifs| && d.ifs[k].plci == plci > 0 && d.ifs[k].state == Connected && d.ifs[k].kind == B && d.ifs[k].ncci == 0
    requires forall j :: 0 <= j < |d.ifs| && j != k ==> d.ifs[j].plci != plci
    ensures After(After(d, Hangup(k, early)), DisconnectInd(plci))
         == AtPlace(d, k, Interface(B, d.ifs[k].controller, false, false, false, 0, 0, 0, 0, Disconnected))
  {
    var d1 := AtPlace(d, k, d.ifs[k].(state := Disconnecting, owner := false));
    FoundAt(d1.ifs, k, plci);
    hide ByPlci;
    assert After(d, Hangup(k, early)) == d1;
  }

  lemma RemoteEnds(d: Driver, k: nat, plci: nat, early: bool)
    requires k < |d.ifs| && d.ifs[k].plci == plci > 0 && d.ifs[k].state == Connected && d.ifs[k].kind == B && d.ifs[k].ncci == 0
    requires forall j :: 0 <= j < |d.ifs| && j != k ==> d.ifs[j].plci != plci
    ensures After(After(d, DisconnectInd(plci)), Hangup(k, early))
         == AtPlace(d, k, Interface(B, d.ifs[k].controller, false, false, false, 0, 0, 0, 0, Disconnected))
  {
    assert ByPlci(d.ifs, plci) == k;
    hide ByPlci;
    var d1 := AtPlace(d, k, d.ifs[k].(state := Disconnected, plci := REMOVED));
    assert After(d, DisconnectInd(plci)) == d1;
  }
}
