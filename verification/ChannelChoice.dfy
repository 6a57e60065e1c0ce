/**
 The interface an outgoing call gets: one pass over the list of interfaces. A request for a
 group prefers the lowest-numbered controller that still has its soft limit of free channels.
 */
module ChannelChoice {
  import opened Common

  /** status is negative for a controller that is down. */
  datatype Controller = Controller(free: int, hardLimit: int, softLimit: int, status: int)

  datatype Interface = Interface(used: bool, reserved: bool, kind: ChannelType, controller: nat, groups: set<nat>, name: string)

  /** What the dial string asks for: "contrX" with X not 0, "gX", or the name of an interface */
  datatype Request = ByController(number: nat) | ByGroup(groups: set<nat>) | ByName(name: string)

  datatype Line = Line(ifs: seq<Interface>, controllers: seq<Controller>)

  ghost predicate Valid(l: Line) {
    forall i <- l.ifs :: i.controller < |l.controllers|
  }

  predicate IsFree(l: Line, k: nat)
    requires Valid(l) && k < |l.ifs|
  {
    var i := l.ifs[k];
    assert i in l.ifs;
    var c := l.controllers[i.controller];
    !i.used && !i.reserved && i.kind == B && c.free >= c.hardLimit
  }

  predicate Works(l: Line, k: nat)
    requires Valid(l) && k < |l.ifs|
  {
    assert l.ifs[k] in l.ifs;
    l.controllers[l.ifs[k].controller].status >= 0
  }

  function Soft(l: Line, k: nat): int
    requires Valid(l) && k < |l.ifs|
  {
    assert l.ifs[k] in l.ifs;
    l.controllers[l.ifs[k].controller].softLimit
  }

  /** Free channels beyond the soft limit */
  function Margin(l: Line, k: nat): int
    requires Valid(l) && k < |l.ifs|
  {
    assert l.ifs[k] in l.ifs;
    l.controllers[l.ifs[k].controller].free - l.controllers[l.ifs[k].controller].softLimit
  }

  predicate Matches(l: Line, k: nat, request: Request)
    requires Valid(l) && k < |l.ifs|
  {
    match request
    case ByController(number) => l.ifs[k].controller == number
    case ByGroup(groups) => l.ifs[k].groups * groups != {}
    case ByName(name) => l.ifs[k].name == name
  }

  predicate Eligible(l: Line, k: nat, groups: set<nat>)
    requires Valid(l) && k < |l.ifs|
  {
    IsFree(l, k) && Matches(l, k, ByGroup(groups)) && Works(l, k)
  }

  /** k is the first free interface that matches; the length of the list when there is none. */
  ghost predicate FirstFree(l: Line, request: Request, k: nat)
    requires Valid(l)
  {
    && k <= |l.ifs|
    && (k < |l.ifs| ==> IsFree(l, k) && Matches(l, k, request))
    && forall j :: 0 <= j < k ==> !(IsFree(l, j) && Matches(l, j, request))
  }

  /** a is better than b for a group whose controllers have soft limits. */
  predicate Better(l: Line, a: nat, b: nat)
    requires Valid(l) && a < |l.ifs| && b < |l.ifs|
  {
    var c, d := l.ifs[a].controller, l.ifs[b].controller;
    c != d && (if Margin(l, a) >= 0 then Margin(l, b) < 0 || c < d else Margin(l, b) < Margin(l, a))
  }

  /** The choice among the first n interfaces: no eligible one is better, and none as good comes earlier. */
  ghost predicate Best(l: Line, groups: set<nat>, best: nat, n: nat)
    requires Valid(l) && n <= |l.ifs|
  {
    && best < n && Eligible(l, best, groups)
    && (forall j :: 0 <= j < n && Eligible(l, j, groups) ==> !Better(l, j, best))
    && (forall j :: 0 <= j < best && Eligible(l, j, groups) ==> Better(l, best, j))
  }

  /** What a request must get */
  ghost predicate Chosen(l: Line, request: Request, r: nat)
    requires Valid(l)
  {
    match request
    case ByGroup(groups) =>
      if exists k :: 0 <= k < |l.ifs| && Eligible(l, k, groups) && Soft(l, k) == 0 then
        r < |l.ifs| && Eligible(l, r, groups) && Soft(l, r) == 0
        && forall j :: 0 <= j < r ==> !(Eligible(l, j, groups) && Soft(l, j) == 0)
      else if exists k :: 0 <= k < |l.ifs| && Eligible(l, k, groups) then Best(l, groups, r, |l.ifs|)
      else r == |l.ifs|
    case _ =>
      exists k: nat :: FirstFree(l, request, k) && r == if k < |l.ifs| && Works(l, k) then k else |l.ifs|
  }

  /** The loop of pbx_capi_request */
  method Choose(l: Line, request: Request) returns (r: nat)
    requires Valid(l) && request != ByController(0)
    ensures Chosen(l, request, r)
  {
    var k: nat := 0;
    var best: nat := |l.ifs|;
    while k < |l.ifs|
      invariant 0 <= k <= |l.ifs|
      invariant !request.ByGroup? ==> best == |l.ifs| && forall j :: 0 <= j < k ==> !(IsFree(l, j) && Matches(l, j, request))
      invariant request.ByGroup? ==> forall j :: 0 <= j < k && Eligible(l, j, request.groups) ==> Soft(l, j) != 0
      invariant request.ByGroup? && best < |l.ifs| ==> Best(l, request.groups, best, k)
      invariant request.ByGroup? && best == |l.ifs| ==> forall j :: 0 <= j < k ==> !Eligible(l, j, request.groups)
      invariant best <= |l.ifs|
    {
      if IsFree(l, k) && Matches(l, k, request) {
        if !request.ByGroup? {
          r := if Works(l, k) then k else |l.ifs|;
          assert FirstFree(l, request, k);
          return;
        }
        if Works(l, k) {
          if Soft(l, k) == 0 {
            return k;
          }
          best := Update(l, request.groups, best, k);
        }
      }
      k := k + 1;
    }
    assert !request.ByGroup? ==> FirstFree(l, request, |l.ifs|);
    return best;
  }

  /** The comparison with the best interface so far */
  method Update(l: Line, groups: set<nat>, best: nat, k: nat) returns (r: nat)
    requires Valid(l) && k < |l.ifs| && Eligible(l, k, groups)
    requires if best < |l.ifs| then Best(l, groups, best, k) else best == |l.ifs| && forall j :: 0 <= j < k ==> !Eligible(l, j, groups)
    ensures Best(l, groups, r, k + 1)
  {
    if best == |l.ifs| {
      return k;
    }
    r := best;
    if l.ifs[k].controller != l.ifs[best].controller {
      var idiff, bdiff := Margin(l, k), Margin(l, best);
      var lower := l.ifs[k].controller < l.ifs[best].controller;
      if (lower && idiff >= 0) || (bdiff < 0 && idiff >= 0) || (bdiff < 0 && idiff > bdiff) {
        r := k;
      }
    }
  }

  // ---------------------------------------------------------------- what the choice promises

  /**
   While some controller of the group has its soft limit of free channels, the call goes to the
   lowest-numbered such controller; after that to one with the largest margin, the first in the
   list. It gets the first eligible interface of that controller.
   */
  lemma SoftLimitsDecide(l: Line, groups: set<nat>, r: nat)
    requires Valid(l) && Chosen(l, ByGroup(groups), r) && r < |l.ifs|
    requires forall k :: 0 <= k < |l.ifs| && Eligible(l, k, groups) ==> Soft(l, k) != 0
    ensures Eligible(l, r, groups)
    ensures forall j :: 0 <= j < |l.ifs| && Eligible(l, j, groups) && Margin(l, j) >= 0
              ==> Margin(l, r) >= 0 && l.ifs[r].controller <= l.ifs[j].controller
    ensures Margin(l, r) < 0 ==> forall j :: 0 <= j < |l.ifs| && Eligible(l, j, groups) ==> Margin(l, j) <= Margin(l, r)
    ensures forall j :: 0 <= j < r && Eligible(l, j, groups) ==> l.ifs[j].controller != l.ifs[r].controller
  {
    assert Best(l, groups, r, |l.ifs|);
    assert forall j :: 0 <= j < |l.ifs| && Eligible(l, j, groups) ==> !Better(l, j, r);
  }

  /** A call fails only if no interface of the group is eligible. */
  lemma EligibleIsFound(l: Line, groups: set<nat>, r: nat)
    requires Valid(l) && Chosen(l, ByGroup(groups), r)
    ensures r < |l.ifs| <==> exists k :: 0 <= k < |l.ifs| && Eligible(l, k, groups)
  {
  }

  /** The same interfaces in another order */
  ghost predicate SameInterfaces(l: Line, m: Line) {
    l.controllers == m.controllers && forall i: Interface :: i in l.ifs <==> i in m.ifs
  }

  lemma SameEligible(l: Line, m: Line, groups: set<nat>, k: nat) returns (j: nat)
    requires Valid(l) && Valid(m) && SameInterfaces(l, m) && k < |l.ifs|
    ensures j < |m.ifs| && m.ifs[j] == l.ifs[k]
    ensures Eligible(m, j, groups) == Eligible(l, k, groups) && Soft(m, j) == Soft(l, k) && Margin(m, j) == Margin(l, k)
  {
    assert l.ifs[k] in m.ifs;
    j :| 0 <= j < |m.ifs| && m.ifs[j] == l.ifs[k];
  }

  /**
   The order of the list matters only among equals: two orders lead to the same controller as
   long as one has its soft limit free, and to controllers of the same margin otherwise.
   */
  lemma OrderDoesNotMatter(l: Line, m: Line, groups: set<nat>, r: nat, s: nat)
    requires Valid(l) && Valid(m) && SameInterfaces(l, m)
    requires Chosen(l, ByGroup(groups), r) && Chosen(m, ByGroup(groups), s) && r < |l.ifs|
    requires forall k :: 0 <= k < |l.ifs| && Eligible(l, k, groups) ==> Soft(l, k) != 0
    ensures s < |m.ifs| && (Margin(l, r) >= 0 <==> Margin(m, s) >= 0)
    ensures if Margin(l, r) >= 0 then l.ifs[r].controller == m.ifs[s].controller else Margin(l, r) == Margin(m, s)
  {
    var r2 := SameEligible(l, m, groups, r);
    forall k | 0 <= k < |m.ifs| && Eligible(m, k, groups) ensures Soft(m, k) != 0 {
      var j := SameEligible(m, l, groups, k);
    }
    EligibleIsFound(m, groups, s);
    SoftLimitsDecide(l, groups, r);
    SoftLimitsDecide(m, groups, s);
    var s2 := SameEligible(m, l, groups, s);
    assert Eligible(l, s2, groups) && Eligible(m, r2, groups);
  }

  // ---------------------------------------------------------------- two calls in a row

  /**
   The line at the next request: an interface is in use, and its controller has lost a channel
   if B3 is open by then, and none before.
   */
  function AfterCall(l: Line, r: nat, lost: nat): (m: Line)
    requires Valid(l) && r < |l.ifs|
    ensures Valid(m) && |m.ifs| == |l.ifs|
  {
    assert l.ifs[r] in l.ifs;
    var c := l.ifs[r].controller;
    Line(l.ifs[r := l.ifs[r].(used := true)], l.controllers[c := l.controllers[c].(free := l.controllers[c].free - lost)])
  }

  /** What else a call leaves eligible, and with which margin */
  lemma AfterCallMargins(l: Line, groups: set<nat>, r: nat, lost: nat, j: nat)
    requires Valid(l) && r < |l.ifs| && j < |l.ifs|
    ensures var m := AfterCall(l, r, lost);
      m.ifs[j].controller == l.ifs[j].controller && Soft(m, j) == Soft(l, j)
      && Margin(m, j) == Margin(l, j) - (if l.ifs[j].controller == l.ifs[r].controller then lost else 0)
      && (Eligible(m, j, groups) ==> j != r && Eligible(l, j, groups))
      && (l.ifs[j].controller != l.ifs[r].controller ==> Eligible(m, j, groups) == Eligible(l, j, groups))
  {
  }

  /** Interface j of another controller loses against k of the one that got the call. */
  predicate Trails(l: Line, r: nat, lost: nat, k: nat, j: nat)
    requires Valid(l) && r < |l.ifs| && j < |l.ifs|
  {
    Margin(l, j) < Margin(l, r) - lost || (Margin(l, j) == Margin(l, r) - lost && k < j)
  }

  /** The controller of r still has the eligible interface k, and no other controller's is better. */
  ghost predicate Leads(l: Line, groups: set<nat>, r: nat, lost: nat, k: nat)
    requires Valid(l) && r < |l.ifs|
  {
    && k < |l.ifs| && l.ifs[k].controller == l.ifs[r].controller && Eligible(AfterCall(l, r, lost), k, groups)
    && forall j :: 0 <= j < |l.ifs| && Eligible(l, j, groups) && l.ifs[j].controller != l.ifs[r].controller
                   ==> Trails(l, r, lost, k, j)
  }

  /** A request of a group none of whose controllers has its limit free */
  ghost predicate BelowLimits(l: Line, groups: set<nat>, r: nat)
    requires Valid(l)
  {
    && Chosen(l, ByGroup(groups), r) && r < |l.ifs| && Margin(l, r) < 0
    && forall j :: 0 <= j < |l.ifs| && Eligible(l, j, groups) ==> Soft(l, j) != 0
  }

  /** After a call below the limits, the first with the largest margin gets the next. */
  lemma NextIsFirstBest(l: Line, groups: set<nat>, r: nat, lost: nat, s: nat, j: nat)
    requires Valid(l) && BelowLimits(l, groups, r) && Chosen(AfterCall(l, r, lost), ByGroup(groups), s)
    requires j < |l.ifs| && Eligible(AfterCall(l, r, lost), j, groups)
    ensures s < |l.ifs| && Eligible(AfterCall(l, r, lost), s, groups)
    ensures var m := AfterCall(l, r, lost);
      Margin(m, j) <= Margin(m, s) && (j < s ==> Margin(m, j) < Margin(m, s))
  {
    var m := AfterCall(l, r, lost);
    SoftLimitsDecide(l, groups, r);
    forall i | 0 <= i < |m.ifs| && Eligible(m, i, groups) ensures Soft(m, i) != 0 && Margin(m, i) < 0 {
      AfterCallMargins(l, groups, r, lost, i);
    }
    EligibleIsFound(m, groups, s);
    SoftLimitsDecide(m, groups, s);
  }

  /**
   Below the limits calls are not dealt out in turn: the next call stays on the controller that
   got one exactly as long as this controller still has an eligible interface that leads those
   of all others, by margin or, at equal margins, by standing in front.
   */
  lemma NextCallStays(l: Line, groups: set<nat>, r: nat, lost: nat, s: nat)
    requires Valid(l) && BelowLimits(l, groups, r) && Chosen(AfterCall(l, r, lost), ByGroup(groups), s)
    ensures s < |l.ifs| && l.ifs[s].controller == l.ifs[r].controller <==> exists k :: Leads(l, groups, r, lost, k)
  {
    hide Chosen, Eligible, AfterCall;
    if s < |l.ifs| && l.ifs[s].controller == l.ifs[r].controller {
      StayingLeads(l, groups, r, lost, s);
    }
    if k: nat :| Leads(l, groups, r, lost, k) {
      LeadingStays(l, groups, r, lost, k, s);
    }
  }

  lemma StayingLeads(l: Line, groups: set<nat>, r: nat, lost: nat, s: nat)
    requires Valid(l) && BelowLimits(l, groups, r) && Chosen(AfterCall(l, r, lost), ByGroup(groups), s)
    requires s < |l.ifs| && l.ifs[s].controller == l.ifs[r].controller
    ensures Leads(l, groups, r, lost, s)
  {
    AfterCallMargins(l, groups, r, lost, s);
    EligibleIsFound(AfterCall(l, r, lost), groups, s);
    hide Chosen, Eligible, AfterCall, Margin, Soft;
    forall j | 0 <= j < |l.ifs| && Eligible(l, j, groups) && l.ifs[j].controller != l.ifs[r].controller
      ensures Trails(l, r, lost, s, j)
    {
      AfterCallMargins(l, groups, r, lost, j);
      NextIsFirstBest(l, groups, r, lost, s, j);
    }
  }

  lemma LeadingStays(l: Line, groups: set<nat>, r: nat, lost: nat, k: nat, s: nat)
    requires Valid(l) && BelowLimits(l, groups, r) && Chosen(AfterCall(l, r, lost), ByGroup(groups), s)
    requires Leads(l, groups, r, lost, k)
    ensures s < |l.ifs| && l.ifs[s].controller == l.ifs[r].controller
  {
    hide Chosen, Eligible, AfterCall;
    NextIsFirstBest(l, groups, r, lost, s, k);
    AfterCallMargins(l, groups, r, lost, k);
    AfterCallMargins(l, groups, r, lost, s);
  }

  /** Two interfaces of a controller with 5 free channels and one of a controller with 2, limits 10 */
  function FiveAndTwo(): (l: Line)
    ensures Valid(l)
  {
    var none, five, two := Controller(0, 0, 0, -1), Controller(5, 0, 10, 0), Controller(2, 0, 10, 0);
    Line([Interface(false, false, B, 1, {1}, "a"), Interface(false, false, B, 1, {1}, "b"),
          Interface(false, false, B, 2, {1}, "c")], [none, five, two])
  }

  lemma FirstCall(r: nat)
    ensures Chosen(FiveAndTwo(), ByGroup({1}), r) <==> r == 0
    ensures BelowLimits(FiveAndTwo(), {1}, 0)
  {
    var l := FiveAndTwo();
    assert 1 in {1} * {1};
    assert Eligible(l, 0, {1}) && Eligible(l, 1, {1}) && Eligible(l, 2, {1});
    assert Best(l, {1}, 0, 3);
    if Chosen(l, ByGroup({1}), r) {
      EligibleIsFound(l, {1}, r);
      SoftLimitsDecide(l, {1}, r);
    }
  }

  /**
   So it happens: with 5 of 10 channels free on one controller and 2 of 10 on another, two calls
   in a row go to the two interfaces of the first, whether or not B3 of the first call is open
   by the second.
   */
  lemma TwoCallsOnOneController(lost: nat, s: nat)
    requires lost <= 1
    ensures Chosen(FiveAndTwo(), ByGroup({1}), 0)
    ensures Chosen(AfterCall(FiveAndTwo(), 0, lost), ByGroup({1}), s) <==> s == 1
  {
    var l := FiveAndTwo();
    FirstCall(0);
    var m := AfterCall(l, 0, lost);
    assert 1 in {1} * {1};
    assert !Eligible(m, 0, {1}) && Eligible(m, 1, {1}) && Eligible(m, 2, {1});
    assert Best(m, {1}, 1, 3);
    if Chosen(m, ByGroup({1}), s) {
      assert Leads(l, {1}, 0, lost, 1);
      LeadingStays(l, {1}, 0, lost, 1, s);
      NextIsFirstBest(l, {1}, 0, lost, s, 1);
    }
  }
}
