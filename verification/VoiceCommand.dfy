/**
 The voice-command menu: key sequences bound to commands, kept in a queue sorted by
 descending key length, and the machine that collects received digits until they spell a key.
 */
module VoiceCommand {
  import opened Common
  import opened DList

  datatype Command = Command(name: string, key: string, parameters: string)

  // ---------------------------------------------------------------- the menu as a sequence

  ghost predicate Sorted(menu: seq<Command>) {
    forall i, j :: 0 <= i < j < |menu| ==> |menu[i].key| >= |menu[j].key|
  }

  /** In front of the first command whose key is not longer. */
  function Insert(menu: seq<Command>, c: Command): seq<Command> {
    if menu == [] then [c]
    else if |menu[0].key| <= |c.key| then [c] + menu
    else [menu[0]] + Insert(menu[1..], c)
  }

  function DropFirstKey(menu: seq<Command>, key: string): seq<Command> {
    if menu == [] then []
    else if menu[0].key == key then menu[1..]
    else [menu[0]] + DropFirstKey(menu[1..], key)
  }

  function DropName(menu: seq<Command>, name: string): seq<Command> {
    if menu == [] then []
    else if menu[0].name == name then DropName(menu[1..], name)
    else [menu[0]] + DropName(menu[1..], name)
  }

  /** All commands with the given key, in menu order */
  function WithKey(menu: seq<Command>, key: string): (r: seq<Command>)
    ensures forall c <- r :: c in menu && c.key == key
    ensures forall c <- menu :: c.key == key ==> c in r
  {
    if menu == [] then []
    else if menu[0].key == key then [menu[0]] + WithKey(menu[1..], key)
    else WithKey(menu[1..], key)
  }

  function Lookup(menu: seq<Command>, digits: string): Option<Command> {
    var hits := WithKey(menu, digits);
    if hits == [] then None else Some(hits[0])
  }

  lemma LookupHits(menu: seq<Command>, digits: string)
    ensures Lookup(menu, digits).None? <==> forall c <- menu :: c.key != digits
    ensures Lookup(menu, digits).Some? ==> Lookup(menu, digits).value in menu && Lookup(menu, digits).value.key == digits
  {
    var hits := WithKey(menu, digits);
    if hits != [] {
      assert hits[0] in hits;
    }
  }

  predicate SomeKeyStartsWith(menu: seq<Command>, digits: string) {
    exists c <- menu :: digits <= c.key
  }

  // ---------------------------------------------------------------- histories

  datatype Action = Add(c: Command) | Remove(name: string) | Clear

  /** What one action does to the queue: an added command first evicts one whose key is its name. */
  function MenuStep(menu: seq<Command>, a: Action): seq<Command> {
    match a
    case Add(c) => Insert(DropFirstKey(menu, c.name), c)
    case Remove(name) => DropName(menu, name)
    case Clear => []
  }

  function Menu(actions: seq<Action>): seq<Command> {
    if actions == [] then [] else MenuStep(Menu(actions[..|actions| - 1]), actions[|actions| - 1])
  }

  /** The same history kept newest first and never sorted */
  function LogStep(log: seq<Command>, a: Action): seq<Command> {
    match a
    case Add(c) => [c] + DropFirstKey(log, c.name)
    case Remove(name) => DropName(log, name)
    case Clear => []
  }

  function Log(actions: seq<Action>): seq<Command> {
    if actions == [] then [] else LogStep(Log(actions[..|actions| - 1]), actions[|actions| - 1])
  }

  lemma {:induction false} InsertSorted(menu: seq<Command>, c: Command)
    requires Sorted(menu)
    ensures Sorted(Insert(menu, c))
    ensures forall x :: x in Insert(menu, c) <==> x == c || x in menu
  {
    if menu == [] || |menu[0].key| <= |c.key| {
    } else {
      InsertSorted(menu[1..], c);
      var r := Insert(menu[1..], c);
      assert forall j :: 0 <= j < |r| ==> r[j] in r;
      assert forall x :: x in menu <==> x == menu[0] || x in menu[1..];
    }
  }

  /** A new command comes first among those with its key, and changes no other group. */
  lemma {:induction false} InsertWithKey(menu: seq<Command>, c: Command, key: string)
    requires Sorted(menu)
    ensures WithKey(Insert(menu, c), key) == (if c.key == key then [c] else []) + WithKey(menu, key)
  {
    if menu != [] && |menu[0].key| > |c.key| {
      InsertWithKey(menu[1..], c, key);
      assert Insert(menu, c)[1..] == Insert(menu[1..], c);
      if menu[0].key == key {
        assert c.key != key;
      }
    } else {
      assert ([c] + menu)[1..] == menu;
    }
  }

  lemma {:induction false} DropFirstKeySorted(menu: seq<Command>, key: string)
    requires Sorted(menu)
    ensures Sorted(DropFirstKey(menu, key))
    ensures forall x <- DropFirstKey(menu, key) :: x in menu
  {
    if menu == [] || menu[0].key == key {
    } else {
      DropFirstKeySorted(menu[1..], key);
      var r := DropFirstKey(menu[1..], key);
      assert forall j :: 0 <= j < |r| ==> r[j] in menu[1..];
    }
  }

  lemma {:induction false} DropFirstKeyWithKey(menu: seq<Command>, dropped: string, key: string)
    ensures var hits := WithKey(menu, key);
      WithKey(DropFirstKey(menu, dropped), key) == if key == dropped && hits != [] then hits[1..] else hits
  {
    if menu == [] || menu[0].key == dropped {
    } else {
      DropFirstKeyWithKey(menu[1..], dropped, key);
      assert DropFirstKey(menu, dropped)[1..] == DropFirstKey(menu[1..], dropped);
    }
  }

  lemma {:induction false} DropNameSorted(menu: seq<Command>, name: string)
    requires Sorted(menu)
    ensures Sorted(DropName(menu, name))
    ensures forall x <- DropName(menu, name) :: x in menu
  {
    if menu == [] {
    } else {
      DropNameSorted(menu[1..], name);
      var r := DropName(menu[1..], name);
      forall j | 0 <= j < |r| ensures |menu[0].key| >= |r[j].key| {
        assert r[j] in menu[1..];
      }
    }
  }

  lemma {:induction false} DropNameWithKey(menu: seq<Command>, name: string, key: string)
    ensures WithKey(DropName(menu, name), key) == DropName(WithKey(menu, key), name)
  {
    if menu == [] {
    } else {
      DropNameWithKey(menu[1..], name, key);
      var r := DropName(menu, name);
      if menu[0].name != name {
        assert r[1..] == DropName(menu[1..], name);
      }
      if menu[0].key == key {
        assert WithKey(menu, key)[1..] == WithKey(menu[1..], key);
      }
    }
  }

  /** After any history the sorted queue and the log hold the same commands of each key, in the same order. */
  lemma {:induction false} MenuAgreesWithLog(actions: seq<Action>, key: string)
    ensures Sorted(Menu(actions))
    ensures WithKey(Menu(actions), key) == WithKey(Log(actions), key)
  {
    if actions == [] {
    } else {
      var before, a := actions[..|actions| - 1], actions[|actions| - 1];
      MenuAgreesWithLog(before, key);
      var menu, log := Menu(before), Log(before);
      match a
      case Add(c) =>
        DropFirstKeySorted(menu, c.name);
        InsertSorted(DropFirstKey(menu, c.name), c);
        InsertWithKey(DropFirstKey(menu, c.name), c, key);
        DropFirstKeyWithKey(menu, c.name, key);
        DropFirstKeyWithKey(log, c.name, key);
        var dropped := DropFirstKey(log, c.name);
        assert ([c] + dropped)[1..] == dropped;
        assert WithKey([c] + dropped, key) == (if c.key == key then [c] else []) + WithKey(dropped, key);
      case Remove(name) =>
        DropNameSorted(menu, name);
        DropNameWithKey(menu, name, key);
        DropNameWithKey(log, name, key);
      case Clear =>
    }
  }

  // ---------------------------------------------------------------- the newest surviving binding

  /** The binding made by the i-th action has been neither removed by name nor cleared since. */
  ghost predicate Survives(actions: seq<Action>, i: nat) {
    && i < |actions| && actions[i].Add?
    && forall j :: i < j < |actions| ==> actions[j] != Clear && actions[j] != Remove(actions[i].c.name)
  }

  ghost predicate IsNewest(actions: seq<Action>, i: nat, key: string) {
    && Survives(actions, i) && actions[i].c.key == key
    && forall j: nat :: Survives(actions, j) && actions[j].c.key == key ==> j <= i
  }

  /** The n-th action adds a command whose name is the key of a binding that survived up to then. */
  ghost predicate Meets(actions: seq<Action>, n: nat)
    requires n < |actions|
  {
    && actions[n].Add?
    && exists i: nat :: Survives(actions[..n], i) && actions[i].c.key == actions[n].c.name
  }

  /** Since the menu was last cleared, no add has met a surviving binding under its own name. */
  ghost predicate MeetsNone(actions: seq<Action>) {
    forall n :: 0 <= n < |actions| && Meets(actions, n) ==> Clear in actions[n + 1..]
  }

  ghost predicate AddIndices(actions: seq<Action>, idx: seq<nat>) {
    forall i <- idx :: i < |actions| && actions[i].Add?
  }

  ghost function KeepOtherNames(actions: seq<Action>, idx: seq<nat>, name: string): (r: seq<nat>)
    requires AddIndices(actions, idx)
    ensures forall i :: i in r <==> i in idx && actions[i].c.name != name
  {
    if idx == [] then []
    else
      assert idx[0] in idx;
      (if actions[idx[0]].c.name == name then [] else [idx[0]]) + KeepOtherNames(actions, idx[1..], name)
  }

  /** The surviving additions, newest first */
  ghost function Survivors(actions: seq<Action>): (r: seq<nat>)
    ensures AddIndices(actions, r)
    decreases |actions|
  {
    if actions == [] then [] else
    var n := |actions| - 1;
    match actions[n]
    case Add(_) => [n] + Survivors(actions[..n])
    case Remove(name) => KeepOtherNames(actions[..n], Survivors(actions[..n]), name)
    case Clear => []
  }

  lemma {:induction false} SurvivorsSurvive(actions: seq<Action>, i: nat)
    ensures i in Survivors(actions) <==> Survives(actions, i)
    decreases |actions|
  {
    if actions == [] {
    } else {
      var n := |actions| - 1;
      var before := actions[..n];
      SurvivorsSurvive(before, i);
      if i < n {
        SurvivesOneMore(actions, i);
      }
      match actions[n]
      case Add(_) => assert i in Survivors(actions) <==> i == n || i in Survivors(before);
      case Remove(name) =>
        assert i in Survivors(actions) <==> i in Survivors(before) && before[i].c.name != name;
      case Clear => assert i !in Survivors(actions);
    }
  }

  lemma SurvivesOneMore(actions: seq<Action>, i: nat)
    requires i < |actions| - 1
    ensures var n := |actions| - 1;
      Survives(actions, i) <==>
        Survives(actions[..n], i) && actions[n] != Clear && actions[n] != Remove(actions[i].c.name)
  {
    var before := actions[..|actions| - 1];
    assert before[i] == actions[i];
    if Survives(before, i) {
      assert forall j :: i < j < |before| ==> actions[j] == before[j];
    }
    if Survives(actions, i) {
      assert forall j :: i < j < |before| ==> before[j] == actions[j];
    }
  }

  ghost function Bindings(actions: seq<Action>, idx: seq<nat>): seq<Command>
    requires AddIndices(actions, idx)
  {
    if idx == [] then [] else
    assert idx[0] in idx;
    [actions[idx[0]].c] + Bindings(actions, idx[1..])
  }

  lemma {:induction false} BindingsOfPrefix(actions: seq<Action>, n: nat, idx: seq<nat>)
    requires n <= |actions| && AddIndices(actions[..n], idx)
    ensures AddIndices(actions, idx) && Bindings(actions, idx) == Bindings(actions[..n], idx)
  {
    if idx == [] {
    } else {
      BindingsOfPrefix(actions, n, idx[1..]);
      assert idx[0] in idx;
    }
  }

  lemma {:induction false} BindingsKeepOtherNames(actions: seq<Action>, idx: seq<nat>, name: string)
    requires AddIndices(actions, idx)
    ensures Bindings(actions, KeepOtherNames(actions, idx, name)) == DropName(Bindings(actions, idx), name)
  {
    if idx == [] {
    } else {
      BindingsKeepOtherNames(actions, idx[1..], name);
      var rest := KeepOtherNames(actions, idx[1..], name);
      assert ([idx[0]] + rest)[1..] == rest && [] + rest == rest;
      assert Bindings(actions, idx)[1..] == Bindings(actions, idx[1..]);
    }
  }

  lemma {:induction false} DropAbsentKey(menu: seq<Command>, key: string)
    requires forall c <- menu :: c.key != key
    ensures DropFirstKey(menu, key) == menu
  {
    if menu == [] {
    } else {
      assert menu[0] in menu;
      DropAbsentKey(menu[1..], key);
    }
  }

  lemma {:induction false} BindingsAreAdded(actions: seq<Action>, idx: seq<nat>)
    requires AddIndices(actions, idx)
    ensures forall c :: c in Bindings(actions, idx) <==> exists i <- idx :: actions[i].c == c
  {
    if idx == [] {
    } else {
      BindingsAreAdded(actions, idx[1..]);
      assert forall i :: i in idx <==> i == idx[0] || i in idx[1..];
    }
  }

  lemma MeetsNoneBefore(actions: seq<Action>)
    requires actions != [] && actions[|actions| - 1] != Clear && MeetsNone(actions)
    ensures MeetsNone(actions[..|actions| - 1])
  {
    var last := |actions| - 1;
    forall n | 0 <= n < last && Meets(actions[..last], n) ensures Clear in actions[..last][n + 1..] {
      SameMeeting(actions, n);
      var k :| n < k < |actions| && actions[k] == Clear;
      assert actions[..last][n + 1..][k - n - 1] == Clear;
    }
  }

  lemma SameMeeting(actions: seq<Action>, n: nat)
    requires n < |actions| - 1
    ensures Meets(actions[..|actions| - 1], n) <==> Meets(actions, n)
  {
    assert actions[..|actions| - 1][..n] == actions[..n];
    forall i: nat ensures Survives(actions[..n], i) ==> actions[..|actions| - 1][i] == actions[i] {
    }
  }

  lemma {:induction false} LogIsSurvivors(actions: seq<Action>)
    requires MeetsNone(actions)
    ensures Log(actions) == Bindings(actions, Survivors(actions))
    decreases |actions|
  {
    hide Meets;
    if actions == [] {
    } else {
      var n := |actions| - 1;
      var before := actions[..n];
      if actions[n] != Clear {
        MeetsNoneBefore(actions);
        LogIsSurvivors(before);
      }
      var idx := Survivors(before);
      BindingsOfPrefix(actions, n, idx);
      match actions[n]
      case Add(c) =>
        assert actions[n + 1..] == [];
        NothingMet(actions);
        assert ([n as nat] + idx)[1..] == idx;
      case Remove(name) =>
        BindingsKeepOtherNames(before, idx, name);
        BindingsOfPrefix(actions, n, KeepOtherNames(before, idx, name));
      case Clear =>
    }
  }

  /** An add that meets no surviving binding evicts nothing. */
  lemma NothingMet(actions: seq<Action>)
    requires actions != [] && actions[|actions| - 1].Add? && !Meets(actions, |actions| - 1)
    ensures var before := actions[..|actions| - 1]; var bindings := Bindings(before, Survivors(before));
      DropFirstKey(bindings, actions[|actions| - 1].c.name) == bindings
  {
    var before, name := actions[..|actions| - 1], actions[|actions| - 1].c.name;
    var idx := Survivors(before);
    BindingsAreAdded(before, idx);
    forall x <- Bindings(before, idx) ensures x.key != name {
      var i :| i in idx && before[i].c == x;
      SurvivorsSurvive(before, i);
    }
    DropAbsentKey(Bindings(before, idx), name);
  }

  // ---------------------------------------------------------------- exactly when the newest wins

  /** For every key the menu holds exactly the surviving bindings, newest first. */
  ghost predicate HoldsSurvivors(actions: seq<Action>) {
    forall key :: WithKey(Menu(actions), key) == WithKey(Bindings(actions, Survivors(actions)), key)
  }

  /** An add meets a surviving binding exactly if the menu that holds the survivors has one of that key. */
  lemma MeetsExactly(actions: seq<Action>)
    requires actions != [] && actions[|actions| - 1].Add? && HoldsSurvivors(actions[..|actions| - 1])
    ensures var before := actions[..|actions| - 1];
      Meets(actions, |actions| - 1) <==> WithKey(Menu(before), actions[|actions| - 1].c.name) != []
  {
    var n := |actions| - 1;
    var before, name := actions[..n], actions[n].c.name;
    var idx := Survivors(before);
    var hits := WithKey(Bindings(before, idx), name);
    BindingsAreAdded(before, idx);
    assert hits == WithKey(Menu(before), name);
    if hits != [] {
      assert hits[0] in hits;
      var i :| i in idx && before[i].c == hits[0];
      SurvivorsSurvive(before, i);
    }
    if i: nat :| Survives(before, i) && actions[i].c.key == name {
      SurvivorsSurvive(before, i);
      assert before[i].c in Bindings(before, idx);
    }
  }

  /** After an add the menu is right about every key but one that is the new command's name. */
  lemma AddedKey(actions: seq<Action>, key: string)
    requires actions != [] && actions[|actions| - 1].Add? && HoldsSurvivors(actions[..|actions| - 1])
    ensures var before, name := actions[..|actions| - 1], actions[|actions| - 1].c.name;
      WithKey(Menu(actions), key) == WithKey(Bindings(actions, Survivors(actions)), key)
      <==> key != name || WithKey(Menu(before), name) == []
  {
    var n := |actions| - 1;
    var before, c := actions[..n], actions[n].c;
    var menu, idx := Menu(before), Survivors(before);
    BindingsOfPrefix(actions, n, idx);
    MenuAgreesWithLog(before, "");
    AddWithKey(menu, c, key);
    assert ([n as nat] + idx)[1..] == idx;
    var bindings := Bindings(actions, Survivors(actions));
    assert bindings == [c] + Bindings(before, idx) && bindings[1..] == Bindings(before, idx);
    assert WithKey(bindings, key) == (if c.key == key then [c] else []) + WithKey(menu, key);
  }

  /** From a menu that holds the survivors, one more action keeps it so exactly if it meets none of them. */
  lemma StepKeepsSurvivors(actions: seq<Action>)
    requires actions != [] && HoldsSurvivors(actions[..|actions| - 1])
    ensures HoldsSurvivors(actions) <==> !Meets(actions, |actions| - 1)
  {
    hide WithKey, Meets;
    var n := |actions| - 1;
    var before := actions[..n];
    match actions[n]
    case Add(c) =>
      MeetsExactly(actions);
      AddedKey(actions, c.name);
      forall key | key != c.name ensures WithKey(Menu(actions), key) == WithKey(Bindings(actions, Survivors(actions)), key) {
        AddedKey(actions, key);
      }
    case Remove(name) =>
      RemovalMeetsNone(actions);
      forall key ensures WithKey(Menu(actions), key) == WithKey(Bindings(actions, Survivors(actions)), key) {
        RemovedKey(actions, key);
      }
    case Clear =>
      RemovalMeetsNone(actions);
  }

  lemma RemovedKey(actions: seq<Action>, key: string)
    requires actions != [] && actions[|actions| - 1].Remove? && HoldsSurvivors(actions[..|actions| - 1])
    ensures WithKey(Menu(actions), key) == WithKey(Bindings(actions, Survivors(actions)), key)
  {
    var n := |actions| - 1;
    var before, name := actions[..n], actions[n].name;
    var menu, idx := Menu(before), Survivors(before);
    BindingsKeepOtherNames(before, idx, name);
    BindingsOfPrefix(actions, n, KeepOtherNames(before, idx, name));
    DropNameWithKey(menu, name, key);
    DropNameWithKey(Bindings(before, idx), name, key);
  }

  lemma RemovalMeetsNone(actions: seq<Action>)
    requires actions != [] && !actions[|actions| - 1].Add?
    ensures !Meets(actions, |actions| - 1)
  {
  }

  /** Adding a command leads its own key with it and takes the newest command of the key spelled like its name. */
  lemma AddWithKey(menu: seq<Command>, c: Command, key: string)
    requires Sorted(menu)
    ensures var hits := WithKey(menu, key);
      WithKey(MenuStep(menu, Add(c)), key)
      == (if c.key == key then [c] else []) + if key == c.name && hits != [] then hits[1..] else hits
  {
    DropFirstKeySorted(menu, c.name);
    InsertWithKey(DropFirstKey(menu, c.name), c, key);
    DropFirstKeyWithKey(menu, c.name, key);
  }

  /**
   Throughout a history the menu holds, for every key, exactly the surviving bindings with the
   newest first, if and only if no add of it meets a surviving binding whose key is its name.
   */
  lemma {:induction false} NewestWinsExactly(actions: seq<Action>)
    ensures (forall n :: 0 <= n <= |actions| ==> HoldsSurvivors(actions[..n]))
       <==> (forall n :: 0 <= n < |actions| ==> !Meets(actions, n))
    decreases |actions|
  {
    hide HoldsSurvivors, Meets;
    if actions == [] {
      EmptyHoldsSurvivors();
      assert actions[..0] == [];
    } else {
      var last := |actions| - 1;
      var before := actions[..last];
      NewestWinsExactly(before);
      assert actions[..last + 1] == actions;
      forall n | 0 <= n <= last ensures actions[..n] == before[..n] {
      }
      forall n | 0 <= n < last ensures Meets(before, n) <==> Meets(actions, n) {
        SameMeeting(actions, n);
      }
      if HoldsSurvivors(before) {
        StepKeepsSurvivors(actions);
      }
      assert before[..last] == before;
    }
  }

  lemma EmptyHoldsSurvivors()
    ensures HoldsSurvivors([])
  {
  }

  ghost predicate Descending(idx: seq<nat>) {
    forall i, j :: 0 <= i < j < |idx| ==> idx[i] > idx[j]
  }

  lemma {:induction false} KeepDescends(actions: seq<Action>, idx: seq<nat>, name: string)
    requires AddIndices(actions, idx) && Descending(idx)
    ensures Descending(KeepOtherNames(actions, idx, name))
  {
    if idx == [] {
    } else {
      KeepDescends(actions, idx[1..], name);
      var r := KeepOtherNames(actions, idx[1..], name);
      assert forall j :: 0 <= j < |r| ==> r[j] in idx[1..];
    }
  }

  lemma {:induction false} SurvivorsDescend(actions: seq<Action>)
    ensures Descending(Survivors(actions))
    decreases |actions|
  {
    if actions == [] {
    } else {
      var n := |actions| - 1;
      SurvivorsDescend(actions[..n]);
      var idx := Survivors(actions[..n]);
      match actions[n]
      case Add(_) => assert forall j :: 0 <= j < |idx| ==> idx[j] in idx;
      case Remove(name) => KeepDescends(actions[..n], idx, name);
      case Clear =>
    }
  }

  lemma {:induction false} FirstHit(actions: seq<Action>, idx: seq<nat>, key: string)
    requires AddIndices(actions, idx) && Descending(idx)
    ensures match Lookup(Bindings(actions, idx), key)
      case None => forall i <- idx :: actions[i].c.key != key
      case Some(c) => exists i <- idx :: actions[i].c == c && c.key == key
                        && forall j <- idx :: actions[j].c.key == key ==> j <= i
  {
    if idx == [] {
    } else {
      FirstHit(actions, idx[1..], key);
      var b := Bindings(actions, idx);
      assert b[1..] == Bindings(actions, idx[1..]);
      assert forall i :: i in idx <==> i == idx[0] || i in idx[1..];
      if actions[idx[0]].c.key == key {
        assert idx[0] in idx;
      }
    }
  }

  /**
   Newest binding wins: the digits select the most recently added surviving command bound to
   exactly these digits, although the queue is ordered by key length only.
   */
  lemma LookupFindsNewestSurvivor(actions: seq<Action>, digits: string)
    requires MeetsNone(actions)
    ensures match Lookup(Menu(actions), digits)
      case None => forall i: nat :: Survives(actions, i) ==> actions[i].c.key != digits
      case Some(c) => exists i: nat :: IsNewest(actions, i, digits) && actions[i].c == c
  {
    var idx := Survivors(actions);
    MenuAgreesWithLog(actions, digits);
    LogIsSurvivors(actions);
    SurvivorsDescend(actions);
    FirstHit(actions, idx, digits);
    forall i: nat ensures i in idx <==> Survives(actions, i) {
      SurvivorsSurvive(actions, i);
    }
    match Lookup(Menu(actions), digits)
    case None =>
    case Some(c) =>
      var i :| i in idx && actions[i].c == c && c.key == digits
               && forall j <- idx :: actions[j].c.key == digits ==> j <= i;
      assert IsNewest(actions, i, digits);
  }

  /** More digits can still complete a key exactly when a surviving binding has them as a prefix. */
  lemma PrefixOfSomeSurvivor(actions: seq<Action>, digits: string)
    requires MeetsNone(actions)
    ensures SomeKeyStartsWith(Menu(actions), digits)
       <==> exists i: nat :: Survives(actions, i) && digits <= actions[i].c.key
  {
    if SomeKeyStartsWith(Menu(actions), digits) {
      var c :| c in Menu(actions) && digits <= c.key;
      MenuHoldsSurvivors(actions, c);
    }
    if i: nat :| Survives(actions, i) && digits <= actions[i].c.key {
      MenuHoldsSurvivors(actions, actions[i].c);
    }
  }

  lemma MenuHoldsSurvivors(actions: seq<Action>, c: Command)
    requires MeetsNone(actions)
    ensures c in Menu(actions) <==> exists i: nat :: Survives(actions, i) && actions[i].c == c
  {
    MenuAgreesWithLog(actions, c.key);
    assert c in Menu(actions) <==> c in WithKey(Menu(actions), c.key);
    assert c in Log(actions) <==> c in WithKey(Log(actions), c.key);
    LogIsSurvivors(actions);
    BindingsAreAdded(actions, Survivors(actions));
    forall i: nat ensures i in Survivors(actions) <==> Survives(actions, i) {
      SurvivorsSurvive(actions, i);
    }
  }

  /**
   It does happen: with "12" bound to a command "ab", binding a command named "12" to "5"
   leaves "12" without a command, though its binding was neither removed nor cleared.
   */
  lemma NamedLikeKeyEvicts()
    ensures var actions := [Add(Command("ab", "12", "")), Add(Command("12", "5", ""))];
      Meets(actions, 1) && Survives(actions, 0) && Lookup(Menu(actions), "12") == None
  {
    var a, b := Add(Command("ab", "12", "")), Add(Command("12", "5", ""));
    assert [a, b][..1] == [a] && [a][..0] == [];
    assert Menu([a]) == [a.c];
    assert Survives([a, b][..1], 0);
    assert Menu([a, b]) == MenuStep([a.c], b);
    assert WithKey([b.c], "12") == WithKey([], "12");
  }
}
