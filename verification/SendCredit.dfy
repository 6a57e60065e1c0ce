/**
 The send credit of a voice channel. Received bytes add to a counter up to a limit, sent blocks
 take from it, and nothing is sent while it is zero. A second counter limits the blocks CAPI
 has not confirmed yet.
 */
module SendCredit {

  const BLOCK: nat := 160         // CAPI_MAX_B3_BLOCK_SIZE
  const BLOCKS: nat := 7          // CAPI_MAX_B3_BLOCKS
  const FIRST_CREDIT: nat := 480

  /**
   The counters B3q and B3count, the bytes left in the smoother, and what happened since B3
   came up: bytes received, bytes received but not credited, bytes sent, and credit the floor
   at zero made up.
   */
  datatype Credit = Credit(
    q: int, unconfirmed: nat, pending: nat,
    received: nat, uncredited: nat, sent: nat, forgiven: nat)

  datatype Event =
    | Up                                                // CONNECT_B3_ACTIVE_IND
    | Receive(length: nat)                              // DATA_B3_IND
    | Confirm                                           // DATA_B3_CONF
    | Write(length: nat, fed: bool, errors: seq<bool>)  // a voice frame; one result per block
    | WriteVocoder(length: nat, error: bool)

  function Received(c: Credit, length: nat): Credit {
    if c.q < (BLOCKS - 1) * BLOCK + 1 then c.(q := c.q + length, received := c.received + length)
    else c.(received := c.received + length, uncredited := c.uncredited + length)
  }

  /** A block of any length that went out */
  function Sent(c: Credit, length: nat): Credit {
    var q := c.q - length;
    c.(q := if q < 0 then 0 else q, unconfirmed := c.unconfirmed + 1,
       sent := c.sent + length, forgiven := c.forgiven + if q < 0 then -q else 0)
  }

  /** The blocks a frame completes in the smoother, each sent if there is credit and CAPI takes it */
  function Drained(c: Credit, errors: seq<bool>): Credit
    decreases c.pending
  {
    if c.pending < BLOCK || errors == [] then c
    else
      var d := c.(pending := c.pending - BLOCK);
      Drained(if d.q > 0 && !errors[0] then Sent(d, BLOCK) else d, errors[1..])
  }

  predicate Enabled(c: Credit, e: Event) {
    match e
    case Write(length, _, errors) => length > 0 && (c.pending + length) / BLOCK <= |errors|
    case WriteVocoder(length, _) => length > 0
    case _ => true
  }

  function After(c: Credit, e: Event): Credit {
    match e
    case Up => Credit(FIRST_CREDIT, c.unconfirmed, c.pending, 0, 0, 0, 0)
    case Receive(length) => Received(c, length)
    case Confirm => if c.unconfirmed > 0 then c.(unconfirmed := c.unconfirmed - 1) else c
    case Write(length, fed, errors) =>
      if c.unconfirmed >= BLOCKS || !fed then c else Drained(c.(pending := c.pending + length), errors)
    case WriteVocoder(length, error) =>
      if c.unconfirmed >= BLOCKS || error then c else Sent(c, length)
  }

  // ---------------------------------------------------------------- the counters in place

  class VoiceChannel {
    var b3q: int
    var b3count: nat
    var smoother: nat
    ghost var received: nat
    ghost var uncredited: nat
    ghost var sent: nat
    ghost var forgiven: nat

    ghost function Counters(): Credit
      reads this
    {
      Credit(b3q, b3count, smoother, received, uncredited, sent, forgiven)
    }

    method HandleActive()
      modifies this
      ensures Counters() == After(old(Counters()), Up)
    {
      b3q := BLOCK * 3;
      received, uncredited, sent, forgiven := 0, 0, 0, 0;
    }

    method HandleDataB3Indication(b3len: nat)
      modifies this
      ensures Counters() == After(old(Counters()), Receive(b3len))
    {
      received := received + b3len;
      if b3q < (BLOCKS - 1) * BLOCK + 1 {
        b3q := b3q + b3len;
      } else {
        uncredited := uncredited + b3len;
      }
    }

    method HandleDataB3Confirmation()
      modifies this
      ensures Counters() == After(old(Counters()), Confirm)
    {
      if b3count > 0 {
        b3count := b3count - 1;
      }
    }

    method TakeCredit(length: nat)
      modifies this
      ensures Counters() == Sent(old(Counters()), length)
    {
      b3count := b3count + 1;
      b3q := b3q - length;
      sent := sent + length;
      if b3q < 0 {
        forgiven := forgiven - b3q;
        b3q := 0;
      }
    }

    /** capi_write_frame after its checks; errors holds what sending each block returns. */
    method WriteFrame(length: nat, fed: bool, vocoder: bool, errors: seq<bool>)
      requires |errors| > 0 && (smoother + length) / BLOCK <= |errors|
      modifies this
      ensures Counters() == After(old(Counters()), if vocoder then WriteVocoder(length, errors[0]) else Write(length, fed, errors))
    {
      if b3count >= BLOCKS {
        return;
      }
      if vocoder {
        if !errors[0] {
          TakeCredit(length);
        }
        return;
      }
      if !fed {
        return;
      }
      smoother := smoother + length;
      var k := 0;
      ghost var all := Drained(Counters(), errors);
      while smoother >= BLOCK
        invariant 0 <= k <= |errors| && smoother / BLOCK <= |errors| - k
        invariant Drained(Counters(), errors[k..]) == all
        decreases smoother
      {
        assert errors[k..][0] == errors[k] && errors[k..][1..] == errors[k + 1..];
        smoother := smoother - BLOCK;
        if b3q > 0 && !errors[k] {
          TakeCredit(BLOCK);
        }
        k := k + 1;
      }
    }
  }

  // ---------------------------------------------------------------- what every run keeps

  ghost predicate Possible(c: Credit, events: seq<Event>)
    decreases |events|
  {
    events == [] || (Enabled(c, events[0]) && Possible(After(c, events[0]), events[1..]))
  }

  function RunFrom(c: Credit, events: seq<Event>): Credit
    decreases |events|
  {
    if events == [] then c else RunFrom(After(c, events[0]), events[1..])
  }

  /** The counter is the first credit plus what was credited minus what was sent. */
  predicate Balances(c: Credit) {
    && c.q >= 0
    && c.q == FIRST_CREDIT + (c.received - c.uncredited) - c.sent + c.forgiven
    && c.uncredited <= c.received
  }

  predicate Accounts(c: Credit) {
    Balances(c) && c.q <= BLOCKS * BLOCK
  }

  /** CAPI keeps to the block size agreed when B3 was opened. */
  predicate KeepsBlockSize(e: Event) {
    e.Receive? ==> e.length <= BLOCK
  }

  /** One frame may complete several blocks, but never more than the credit pays for. */
  predicate CountBounded(c: Credit) {
    c.unconfirmed <= 2 * BLOCKS - 1
  }

  predicate Whole(c: Credit) {
    c.q % BLOCK == 0 && c.forgiven == 0
  }

  lemma {:induction false} DrainedKeeps(c: Credit, errors: seq<bool>)
    requires Balances(c)
    ensures var d := Drained(c, errors);
      Balances(d) && d.received == c.received && d.uncredited == c.uncredited
      && d.q <= c.q && BLOCK * (d.unconfirmed - c.unconfirmed) <= c.q - d.q + (if d.q == 0 then BLOCK - 1 else 0)
      && (Whole(c) ==> Whole(d))
    decreases c.pending
  {
    if c.pending < BLOCK || errors == [] {
    } else {
      var p := c.(pending := c.pending - BLOCK);
      var s := if p.q > 0 && !errors[0] then Sent(p, BLOCK) else p;
      assert Balances(s);
      DrainedKeeps(s, errors[1..]);
    }
  }

  lemma StepKeeps(c: Credit, e: Event)
    requires Balances(c) && Enabled(c, e)
    ensures Balances(After(c, e))
    ensures Accounts(c) && CountBounded(c) && KeepsBlockSize(e) ==> Accounts(After(c, e)) && CountBounded(After(c, e))
    ensures Whole(c) && !e.WriteVocoder? && (e.Receive? ==> e.length == BLOCK) ==> Whole(After(c, e))
  {
    hide Drained;
    if e.Write? {
      DrainedKeeps(c.(pending := c.pending + e.length), e.errors);
    }
  }

  /** The account of every run after B3 came up, whatever lengths are received and sent */
  lemma {:induction false} CreditBalances(c: Credit, events: seq<Event>)
    requires (Balances(c) || (events != [] && events[0] == Up)) && Possible(c, events)
    ensures Balances(RunFrom(c, events))
    decreases |events|
  {
    if events == [] {
    } else {
      if events[0] == Up {
        assert Balances(After(c, Up));
      } else {
        StepKeeps(c, events[0]);
      }
      CreditBalances(After(c, events[0]), events[1..]);
    }
  }

  /** While CAPI keeps to the block size, credit and unconfirmed blocks also stay below their limits. */
  lemma {:induction false} CreditIsConserved(c: Credit, events: seq<Event>)
    requires CountBounded(c) && (Accounts(c) || (events != [] && events[0] == Up)) && Possible(c, events)
    requires forall e <- events :: KeepsBlockSize(e)
    ensures Accounts(RunFrom(c, events)) && CountBounded(RunFrom(c, events))
    decreases |events|
  {
    if events == [] {
    } else {
      assert KeepsBlockSize(events[0]);
      if events[0] == Up {
        assert Accounts(After(c, Up));
      } else {
        StepKeeps(c, events[0]);
      }
      CreditIsConserved(After(c, events[0]), events[1..]);
    }
  }

  /** Transparent mode with full blocks */
  predicate WholeBlocks(e: Event) {
    !e.WriteVocoder? && (e.Receive? ==> e.length == BLOCK)
  }

  lemma {:induction false} StaysWhole(c: Credit, events: seq<Event>)
    requires Accounts(c) && CountBounded(c) && Whole(c) && Possible(c, events) && forall e <- events :: WholeBlocks(e)
    ensures Whole(RunFrom(c, events)) && Accounts(RunFrom(c, events))
    decreases |events|
  {
    if events == [] {
    } else {
      assert WholeBlocks(events[0]);
      StepKeeps(c, events[0]);
      StaysWhole(After(c, events[0]), events[1..]);
    }
  }

  /**
   From the moment B3 comes up, with blocks of 160 bytes, the counter is a multiple of 160 up to
   1120, the floor never fires, and no more is sent than 480 bytes and what was received.
   */
  lemma NeverAheadByMoreThanThreeBlocks(c: Credit, events: seq<Event>)
    requires CountBounded(c) && Possible(After(c, Up), events) && forall e <- events :: WholeBlocks(e)
    ensures var d := RunFrom(After(c, Up), events);
      d.q % BLOCK == 0 && 0 <= d.q <= 1120 && d.forgiven == 0 && d.sent <= 480 + d.received
  {
    StaysWhole(After(c, Up), events);
  }

  function Confirmations(events: seq<Event>): nat {
    if events == [] then 0 else (if events[0].Confirm? then 1 else 0) + Confirmations(events[1..])
  }

  /** CAPI confirms only blocks it was sent, and B3 does not come up anew. */
  ghost predicate ConfirmsSent(c: Credit, events: seq<Event>)
    decreases |events|
  {
    events == [] || ((events[0].Confirm? ==> c.unconfirmed > 0) && !events[0].Up? && ConfirmsSent(After(c, events[0]), events[1..]))
  }

  lemma {:induction false} DrainedCounts(c: Credit, errors: seq<bool>)
    ensures var d := Drained(c, errors);
      d.unconfirmed >= c.unconfirmed && d.sent - c.sent == BLOCK * (d.unconfirmed - c.unconfirmed)
    decreases c.pending
  {
    if c.pending < BLOCK || errors == [] {
    } else {
      var p := c.(pending := c.pending - BLOCK);
      DrainedCounts(if p.q > 0 && !errors[0] then Sent(p, BLOCK) else p, errors[1..]);
    }
  }

  /** In every run in transparent mode the unconfirmed blocks are those sent less those confirmed. */
  lemma {:induction false} UnconfirmedAreOutstanding(c: Credit, events: seq<Event>)
    requires ConfirmsSent(c, events) && forall e <- events :: !e.WriteVocoder?
    ensures var d := RunFrom(c, events);
      BLOCK * (d.unconfirmed + Confirmations(events)) == BLOCK * c.unconfirmed + (d.sent - c.sent)
    decreases |events|
  {
    if events == [] {
    } else {
      var e := events[0];
      assert e in events;
      var d := After(c, e);
      if e.Write? {
        DrainedCounts(c.(pending := c.pending + e.length), e.errors);
      }
      assert BLOCK * (d.unconfirmed + (if e.Confirm? then 1 else 0)) == BLOCK * c.unconfirmed + (d.sent - c.sent);
      hide After;
      UnconfirmedAreOutstanding(d, events[1..]);
    }
  }

  /** A send keeps the balance without the floor exactly if the credit covers the whole block. */
  lemma FloorFiresExactlyBelow(c: Credit, length: nat)
    requires Accounts(c)
    ensures Sent(c, length).forgiven == c.forgiven <==> length <= c.q
    ensures Sent(c, length).q == c.q - length <==> length <= c.q
  {
  }

  /** With a short block in between, more is sent than received: one byte buys a whole block. */
  lemma ShortBlockBuysFullOne(c: Credit)
    requires c.unconfirmed == 0 && c.pending == 0
    ensures var all := [false, false, false, false];
      var events := [Up, Write(480, true, all), Receive(1), Write(160, true, all)];
      Possible(c, events) && RunFrom(c, events).sent == 640 && RunFrom(c, events).received == 1
  {
    var all := [false, false, false, false];
    var c1 := After(c, Up);
    var c2 := After(c1, Write(480, true, all));
    DrainsAll(c1.(pending := 480), 3, all);
    var c3 := After(c2, Receive(1));
    var c4 := After(c3, Write(160, true, all));
    assert c4 == Sent(c3, BLOCK) by {
      var s := Sent(c3, BLOCK);
      assert Drained(s, all[1..]) == s;
    }
    var events := [Up, Write(480, true, all), Receive(1), Write(160, true, all)];
    assert events[1..] == [Write(480, true, all), Receive(1), Write(160, true, all)];
    assert events[1..][1..] == [Receive(1), Write(160, true, all)];
    assert events[1..][1..][1..] == [Write(160, true, all)];
    assert events[1..][1..][1..][1..] == [];
    assert RunFrom(c3, [Write(160, true, all)]) == c4;
    assert RunFrom(c2, [Receive(1), Write(160, true, all)]) == c4;
  }

  /** A frame of n full blocks sends them all while the credit lasts. */
  lemma {:induction false} DrainsAll(c: Credit, n: nat, errors: seq<bool>)
    requires c.pending == BLOCK * n && c.q >= BLOCK * n && |errors| >= n && forall k :: 0 <= k < |errors| ==> !errors[k]
    ensures Drained(c, errors)
         == c.(q := c.q - BLOCK * n, pending := 0, unconfirmed := c.unconfirmed + n, sent := c.sent + BLOCK * n)
    decreases n
  {
    if n == 0 {
    } else {
      DrainsAll(Sent(c.(pending := BLOCK * (n - 1)), BLOCK), n - 1, errors[1..]);
    }
  }

  function Min(a: nat, b: nat): nat {
    if a < b then a else b
  }

  /** The blocks a frame completes, as far as the credit pays for them, the last one perhaps in part */
  function Payable(c: Credit, length: nat): nat
    requires c.q >= 0
  {
    Min((c.pending + length) / BLOCK, (c.q + BLOCK - 1) / BLOCK)
  }

  /** No frame sends more blocks than are payable, and one whose blocks CAPI all takes sends exactly these. */
  lemma {:induction false} PayableAreSent(c: Credit, errors: seq<bool>)
    requires c.q >= 0 && c.pending / BLOCK <= |errors|
    ensures Drained(c, errors).unconfirmed <= c.unconfirmed + Payable(c, 0)
    ensures (forall k :: 0 <= k < |errors| ==> !errors[k]) ==>
      Drained(c, errors).unconfirmed == c.unconfirmed + Payable(c, 0)
    decreases c.pending
  {
    if c.pending < BLOCK {
    } else {
      var p := c.(pending := c.pending - BLOCK);
      PayableAreSent(if p.q > 0 && !errors[0] then Sent(p, BLOCK) else p, errors[1..]);
    }
  }

  /**
   The limit of seven unconfirmed blocks is tested once for a whole frame. A frame admitted by
   the test keeps it exactly if unconfirmed and payable blocks together do, when CAPI takes
   all its blocks, and whatever CAPI does if they do.
   */
  lemma FrameKeepsLimitExactly(c: Credit, length: nat, errors: seq<bool>)
    requires Accounts(c) && c.unconfirmed < BLOCKS && Enabled(c, Write(length, true, errors))
    ensures (forall k :: 0 <= k < |errors| ==> !errors[k]) ==>
      (After(c, Write(length, true, errors)).unconfirmed <= BLOCKS <==> c.unconfirmed + Payable(c, length) <= BLOCKS)
    ensures c.unconfirmed + Payable(c, length) <= BLOCKS ==> After(c, Write(length, true, errors)).unconfirmed <= BLOCKS
  {
    PayableAreSent(c.(pending := c.pending + length), errors);
  }

  /** n times a block received and a block sent */
  function Rounds(n: nat): seq<Event> {
    if n == 0 then [] else [Receive(BLOCK), Write(BLOCK, true, [false])] + Rounds(n - 1)
  }

  function Blocks(n: nat): seq<Event> {
    if n == 0 then [] else [Receive(BLOCK)] + Blocks(n - 1)
  }

  lemma OneRound(c: Credit)
    requires 0 <= c.q <= FIRST_CREDIT && c.pending == 0 && c.unconfirmed < BLOCKS
    ensures Enabled(c, Receive(BLOCK)) && Enabled(After(c, Receive(BLOCK)), Write(BLOCK, true, [false]))
    ensures After(After(c, Receive(BLOCK)), Write(BLOCK, true, [false]))
         == c.(unconfirmed := c.unconfirmed + 1, received := c.received + BLOCK, sent := c.sent + BLOCK)
  {
    DrainsAll(After(c, Receive(BLOCK)).(pending := BLOCK), 1, [false]);
  }

  lemma {:induction false} RoundsLead(c: Credit, n: nat, rest: seq<Event>)
    requires 0 <= c.q <= FIRST_CREDIT && c.pending == 0 && c.unconfirmed + n <= BLOCKS
    ensures var d := c.(unconfirmed := c.unconfirmed + n, received := c.received + BLOCK * n, sent := c.sent + BLOCK * n);
      RunFrom(c, Rounds(n) + rest) == RunFrom(d, rest) && (Possible(d, rest) ==> Possible(c, Rounds(n) + rest))
    decreases n
  {
    if n == 0 {
      assert Rounds(0) + rest == rest;
    } else {
      var receive, write := Receive(BLOCK), Write(BLOCK, true, [false]);
      OneRound(c);
      assert Rounds(n) + rest == [receive, write] + (Rounds(n - 1) + rest);
      hide After, Enabled, Rounds;
      TwoSteps(c, receive, write, Rounds(n - 1) + rest);
      RoundsLead(After(After(c, receive), write), n - 1, rest);
    }
  }

  lemma TwoSteps(c: Credit, e: Event, f: Event, rest: seq<Event>)
    ensures RunFrom(c, [e, f] + rest) == RunFrom(After(After(c, e), f), rest)
    ensures Enabled(c, e) && Enabled(After(c, e), f) && Possible(After(After(c, e), f), rest) ==> Possible(c, [e, f] + rest)
  {
    assert ([e, f] + rest)[1..] == [f] + rest && ([f] + rest)[1..] == rest;
  }

  lemma {:induction false} BlocksLead(c: Credit, n: nat, rest: seq<Event>)
    requires c.q + BLOCK * n <= BLOCKS * BLOCK
    ensures var d := c.(q := c.q + BLOCK * n, received := c.received + BLOCK * n);
      RunFrom(c, Blocks(n) + rest) == RunFrom(d, rest) && (Possible(d, rest) ==> Possible(c, Blocks(n) + rest))
    decreases n
  {
    if n == 0 {
      assert Blocks(0) + rest == rest;
    } else {
      assert (Blocks(n) + rest)[1..] == Blocks(n - 1) + rest;
      BlocksLead(After(c, Receive(BLOCK)), n - 1, rest);
    }
  }

  /** It is not kept: from B3 coming up, six rounds, four more blocks and one frame of seven lead to thirteen. */
  lemma LimitIsPassed(c: Credit, frame: Event)
    requires c.unconfirmed == 0 && c.pending == 0 && FullAndTaken(frame)
    ensures var events := [Up] + (Rounds(6) + (Blocks(4) + [frame]));
      Possible(c, events) && RunFrom(c, events).unconfirmed == 13
  {
    var c0 := After(c, Up);
    RoundsThenFrame(c0, frame);
    hide *;
    OneStep(c, Up, Rounds(6) + (Blocks(4) + [frame]));
    UpIsEnabled(c);
  }

  /** A frame of seven blocks, all of which CAPI takes */
  predicate FullAndTaken(frame: Event) {
    frame.Write? && frame.length == 7 * BLOCK && frame.fed && frame.errors == [false, false, false, false, false, false, false]
  }

  lemma UpIsEnabled(c: Credit)
    ensures Enabled(c, Up)
  {
  }

  lemma RoundsThenFrame(c: Credit, frame: Event)
    requires c.q == FIRST_CREDIT && c.pending == 0 && c.unconfirmed == 0 && FullAndTaken(frame)
    ensures var events := Rounds(6) + (Blocks(4) + [frame]); Possible(c, events) && RunFrom(c, events).unconfirmed == 13
  {
    var tail := Blocks(4) + [frame];
    var d := c.(unconfirmed := 6, received := c.received + 960, sent := c.sent + 960);
    BlocksThenFrame(d, frame);
    hide RunFrom, Possible, Rounds, Blocks, FullAndTaken;
    RoundsLead(c, 6, tail);
  }

  lemma BlocksThenFrame(c: Credit, frame: Event)
    requires c.q == FIRST_CREDIT && c.pending == 0 && c.unconfirmed == 6 && FullAndTaken(frame)
    ensures var events := Blocks(4) + [frame]; Possible(c, events) && RunFrom(c, events).unconfirmed == 13
  {
    var d := c.(q := 1120, received := c.received + 640);
    FullFrame(d, frame);
    hide RunFrom, Possible, Rounds, Blocks, FullAndTaken;
    BlocksLead(c, 4, [frame]);
  }

  lemma FullFrame(c: Credit, frame: Event)
    requires c.q == 7 * BLOCK && c.pending == 0 && c.unconfirmed == 6 && FullAndTaken(frame)
    ensures Possible(c, [frame]) && RunFrom(c, [frame]).unconfirmed == 13
  {
    DrainsAll(c.(pending := 7 * BLOCK), 7, frame.errors);
    hide Drained;
    var after := After(c, frame);
    assert [frame][1..] == [] && Possible(after, []) && RunFrom(after, []) == after;
  }

  lemma OneStep(c: Credit, e: Event, rest: seq<Event>)
    ensures RunFrom(c, [e] + rest) == RunFrom(After(c, e), rest)
    ensures Enabled(c, e) && Possible(After(c, e), rest) ==> Possible(c, [e] + rest)
  {
    assert ([e] + rest)[1..] == rest;
  }
}
