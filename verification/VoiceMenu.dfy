/**
 The voice-command application of one interface: the request parser, the queue operations
 and the digit handler, as methods over the linked queue and the digit buffer.
 */
module VoiceMenu {
  import opened Common
  import opened DList
  import opened VoiceCommand
  import opened DigitMachine

  // ---------------------------------------------------------------- requests

  const NAME_SIZE: nat := 64
  const KEY_SIZE: nat := 81
  const PARAMETERS_SIZE: nat := 128

  /** strchr(s, '|'): what is in front of the first bar and what is behind it */
  function SplitAtBar(s: string): (r: Option<(string, string)>)
    ensures r.None? ==> '|' !in s
    ensures r.Some? ==> s == r.value.0 + ("|" + r.value.1) && '|' !in r.value.0
  {
    if s == "" then None
    else if s[0] == '|' then Some(("", s[1..]))
    else
      match SplitAtBar(s[1..])
      case None => None
      case Some((front, back)) => Some(([s[0]] + front, back))
  }

  predicate UsableKey(key: string) {
    |key| < KEY_SIZE && forall d <- key :: d in DIGITS
  }

  /**
   The argument "name|key|parameters". None is the error return. The test of the first key
   character accepts the end of the string, so "name|" binds the empty key.
   */
  function Parse(param: string): (r: Option<Action>)
    ensures r.Some? && r.value.Add? ==>
      |r.value.c.key| <= 80 && (forall d <- r.value.c.key :: d in DIGITS)
      && 2 <= |r.value.c.name| <= 63 && |r.value.c.parameters| <= 127
    ensures r == Some(Clear) <==> param == ""
    ensures param != "" && '|' !in param ==> r == Some(Remove(param))
  {
    if param == "" then Some(Clear) else
    match SplitAtBar(param)
    case None => Some(Remove(param))
    case Some((name, rest)) =>
      if |name| < 2 || |name| >= NAME_SIZE || (rest != "" && rest[0] !in DIGITS) then None else
      match SplitAtBar(rest)
      case None => if UsableKey(rest) then Some(Add(Command(name, rest, ""))) else None
      case Some((key, parameters)) =>
        if key == "" || parameters == "" || |parameters| >= PARAMETERS_SIZE || !UsableKey(key) then None
        else Some(Add(Command(name, key, parameters)))
  }

  lemma {:induction false} FirstBar(s: string, front: string, back: string)
    requires '|' !in front && s == front + ("|" + back)
    ensures SplitAtBar(s) == Some((front, back))
  {
    if front == "" {
      assert s[1..] == back;
    } else {
      assert front[0] in front && [front[0]] + front[1..] == front;
      assert s[0] == front[0] && s[1..] == front[1..] + ("|" + back);
      FirstBar(s[1..], front[1..], back);
    }
  }

  /** Written out, a usable binding is parsed back into its parts; the empty key needs no parameters. */
  lemma WrittenIsParsed(c: Command)
    requires 2 <= |c.name| <= 63 && '|' !in c.name && |c.key| <= 80 && forall d <- c.key :: d in DIGITS
    requires |c.parameters| <= 127 && (c.key == "" ==> c.parameters == "")
    ensures Parse(c.name + ("|" + (c.key + (if c.parameters == "" then "" else "|" + c.parameters)))) == Some(Add(c))
  {
    var rest := c.key + (if c.parameters == "" then "" else "|" + c.parameters);
    FirstBar(c.name + ("|" + rest), c.name, rest);
    assert '|' !in DIGITS;
    if c.parameters == "" {
      assert rest == c.key;
    } else {
      FirstBar(rest, c.key, c.parameters);
      assert rest[0] == c.key[0];
    }
  }

  lemma ParsedFirst()
    ensures Parse("ab|12") == Some(Add(Command("ab", "12", "")))
  {
    assert DIGITS[0] == '1' && DIGITS[1] == '2';
    hide *;
    WrittenIsParsed(Command("ab", "12", ""));
    assert "ab" + ("|" + ("12" + "")) == "ab|12";
  }

  lemma ParsedSecond()
    ensures Parse("12|5") == Some(Add(Command("12", "5", "")))
  {
    assert DIGITS[4] == '5';
    hide *;
    WrittenIsParsed(Command("12", "5", ""));
    assert "12" + ("|" + ("5" + "")) == "12|5";
  }

  /** The requests "ab|12" and "12|5" make the history in which a binding is evicted unseen. */
  lemma RequestsThatEvict()
    ensures Parse("ab|12").Some? && Parse("12|5").Some?
    ensures var actions := [Parse("ab|12").value, Parse("12|5").value];
      Survives(actions, 0) && actions[0].Add? && actions[0].c.key == "12" && Lookup(Menu(actions), "12") == None
  {
    hide *;
    ParsedFirst();
    ParsedSecond();
    NamedLikeKeyEvicts();
  }

  // ---------------------------------------------------------------- sequences and splices

  ghost function Entries(links: seq<Link<Command>>): seq<Command> {
    seq(|links|, i requires 0 <= i < |links| => links[i].entry)
  }

  lemma EntriesOfSplice(links: seq<Link<Command>>, k: nat, l: Link<Command>)
    requires k <= |links|
    ensures Entries(Splice(links, k, l)) == Splice(Entries(links), k, l.entry)
  {
  }

  lemma {:induction false} InsertBehind(longer: seq<Command>, rest: seq<Command>, c: Command)
    requires forall i :: 0 <= i < |longer| ==> |longer[i].key| > |c.key|
    ensures Insert(longer + rest, c) == longer + Insert(rest, c)
  {
    if longer == [] {
      assert longer + rest == rest;
    } else {
      InsertBehind(longer[1..], rest, c);
      assert (longer + rest)[1..] == longer[1..] + rest;
    }
  }

  lemma {:induction false} DropKeyBehind(others: seq<Command>, rest: seq<Command>, key: string)
    requires forall i :: 0 <= i < |others| ==> others[i].key != key
    ensures DropFirstKey(others + rest, key) == others + DropFirstKey(rest, key)
  {
    if others == [] {
      assert others + rest == rest;
    } else {
      DropKeyBehind(others[1..], rest, key);
      assert (others + rest)[1..] == others[1..] + rest;
    }
  }

  lemma {:induction false} DropNameConcat(a: seq<Command>, b: seq<Command>, name: string)
    ensures DropName(a + b, name) == DropName(a, name) + DropName(b, name)
  {
    if a == [] {
      assert a + b == b;
    } else {
      DropNameConcat(a[1..], b, name);
      assert a + b == [a[0]] + (a[1..] + b);
      hide *;
      var x, y := DropName(a[1..], name), DropName(b, name);
      assert [a[0]] + (x + y) == [a[0]] + x + y;
    }
  }

  /** Exactly the commands of other names are left. */
  lemma {:induction false} DropNameExactly(menu: seq<Command>, name: string)
    ensures forall c :: multiset(DropName(menu, name))[c] == if c.name == name then 0 else multiset(menu)[c]
  {
    if menu == [] {
    } else {
      DropNameExactly(menu[1..], name);
      assert menu == [menu[0]] + menu[1..];
    }
  }

  lemma InsertIsSplice(menu: seq<Command>, c: Command, k: nat)
    requires k <= |menu| && forall i :: 0 <= i < k ==> |menu[i].key| > |c.key|
    requires k < |menu| ==> |menu[k].key| <= |c.key|
    ensures Insert(menu, c) == Splice(menu, k, c)
  {
    var a, rest := menu[..k], menu[k..];
    assert a + rest == menu;
    assert Insert(rest, c) == [c] + rest;
    InsertBehind(a, rest, c);
    hide Insert;
    assert a + ([c] + rest) == a + [c] + rest;
  }

  lemma DropFirstKeyIsWithout(menu: seq<Command>, key: string, k: nat)
    requires k <= |menu| && forall i :: 0 <= i < k ==> menu[i].key != key
    requires k < |menu| ==> menu[k].key == key
    ensures DropFirstKey(menu, key) == if k < |menu| then Without(menu, k) else menu
  {
    var a, rest := menu[..k], menu[k..];
    assert a + rest == menu;
    DropKeyBehind(a, rest, key);
  }

  lemma DropNameSkips(menu: seq<Command>, name: string, k: nat)
    requires k < |menu| && menu[k].name == name
    ensures DropName(menu, name) == DropName(Without(menu, k), name)
  {
    DropNameConcat(menu[..k], menu[k..], name);
    assert menu == menu[..k] + menu[k..];
    DropNameConcat(menu[..k], menu[k + 1..], name);
  }

  lemma {:induction false} DropNameNothing(menu: seq<Command>, name: string)
    requires forall i :: 0 <= i < |menu| ==> menu[i].name != name
    ensures DropName(menu, name) == menu
  {
    if menu == [] {
    } else {
      DropNameNothing(menu[1..], name);
    }
  }

  /** A scan of the sorted menu that stops at the first shorter key has seen every key that matters. */
  lemma ScanDecides(menu: seq<Command>, text: string, k: nat)
    requires Sorted(menu) && k <= |menu|
    requires k < |menu| ==> |menu[k].key| < |text|
    ensures SomeKeyStartsWith(menu, text) <==> exists i :: 0 <= i < k && text <= menu[i].key
    ensures (forall i :: 0 <= i < k ==> menu[i].key != text) ==> Lookup(menu, text) == None
  {
    forall i | k <= i < |menu| ensures !(text <= menu[i].key) {
    }
    LookupHits(menu, text);
    if SomeKeyStartsWith(menu, text) {
      var c :| c in menu && text <= c.key;
      var i :| 0 <= i < |menu| && menu[i] == c;
      assert i < k;
    }
    if i :| 0 <= i < k && text <= menu[i].key {
      assert menu[i] in menu;
    }
  }

  lemma {:induction false} FirstExactIsLookup(menu: seq<Command>, text: string, k: nat)
    requires k < |menu| && menu[k].key == text && forall i :: 0 <= i < k ==> menu[i].key != text
    ensures Lookup(menu, text) == Some(menu[k])
  {
    if k == 0 {
    } else {
      FirstExactIsLookup(menu[1..], text, k - 1);
    }
  }

  // ---------------------------------------------------------------- the interface

  class VoiceMenu {
    const queue: Queue<Command>
    const digits: array<char>
    var digit: nat
    var passDigits: bool

    ghost predicate Valid()
      reads this, queue, queue.links, digits
    {
      && queue.Valid() && Sorted(Contents())
      && digits.Length == KEY_SIZE && digit < KEY_SIZE
    }

    ghost function Contents(): seq<Command>
      reads queue
    {
      Entries(queue.links)
    }

    /** channel_command_digits up to its terminator */
    ghost function Buffer(): string
      requires digit <= digits.Length
      reads this, digits
    {
      digits[..digit]
    }

    constructor ()
      ensures Valid() && Contents() == [] && Buffer() == "" && !passDigits
      ensures fresh(queue) && fresh(digits)
    {
      queue := new Queue<Command>();
      digits := new char[KEY_SIZE](_ => '\0');
      digit, passDigits := 0, false;
    }

    /** pbx_capi_voicecommand_insert_command */
    method InsertCommand(cmd: Link<Command>)
      requires Valid() && cmd !in queue.links
      modifies queue, queue.links, cmd
      ensures Valid() && Contents() == Insert(old(Contents()), cmd.entry)
    {
      ghost var menu := Contents();
      InsertSorted(menu, cmd.entry);
      ghost var k := 0;
      var link := queue.head;
      while link != null
        invariant 0 <= k <= |queue.links| && link == if k < |queue.links| then queue.links[k] else null
        invariant forall i :: 0 <= i < k ==> |menu[i].key| > |cmd.entry.key|
        decreases |queue.links| - k
      {
        if |link.entry.key| <= |cmd.entry.key| {
          InsertIsSplice(menu, cmd.entry, k);
          EntriesOfSplice(queue.links, k, cmd);
          queue.InsertBefore(link, cmd);
          return;
        }
        link := link.next;
        k := k + 1;
      }
      InsertIsSplice(menu, cmd.entry, k);
      EntriesOfSplice(queue.links, k, cmd);
      assert Splice(queue.links, k, cmd) == queue.links + [cmd];
      queue.AddTail(cmd);
    }

    /** pbx_capi_find_command_by_key */
    method FindByKey(key: string) returns (link: Link?<Command>, ghost k: nat)
      requires Valid()
      ensures k <= |queue.links| && link == if k < |queue.links| then queue.links[k] else null
      ensures forall i :: 0 <= i < k ==> Contents()[i].key != key
      ensures link != null ==> link.entry.key == key
    {
      link, k := queue.Find((c: Command) => c.key == key);
    }

    /** pbx_capi_find_command */
    method FindByName(name: string) returns (link: Link?<Command>, ghost k: nat)
      requires Valid()
      ensures k <= |queue.links| && link == if k < |queue.links| then queue.links[k] else null
      ensures forall i :: 0 <= i < k ==> Contents()[i].name != name
      ensures link != null ==> link.entry.name == name
    {
      link, k := queue.Find((c: Command) => c.name == name);
    }

    method RemoveLink(link: Link<Command>, ghost k: nat)
      requires Valid() && k < |queue.links| && link == queue.links[k]
      modifies queue, queue.links
      ensures Valid() && Contents() == Without(old(Contents()), k)
      ensures forall i :: 0 <= i < |queue.links| ==> queue.links[i] in old(queue.links)
    {
      assert queue.IndexOf(link) == k;
      ghost var menu := Contents();
      queue.Remove(link);
      assert Contents() == Without(menu, k);
    }

    method EvictKey(key: string)
      requires Valid()
      modifies queue, queue.links
      ensures Valid() && Contents() == DropFirstKey(old(Contents()), key)
      ensures forall i :: 0 <= i < |queue.links| ==> queue.links[i] in old(queue.links)
    {
      var present, k := FindByKey(key);
      DropFirstKeyIsWithout(Contents(), key, k);
      if present != null {
        RemoveLink(present, k);
      }
    }

    /** Binding a key: the lookup for a command to replace is made with the new command's name. */
    method AddCommand(c: Command)
      requires Valid()
      modifies queue, queue.links
      ensures Valid() && Contents() == MenuStep(old(Contents()), Add(c))
    {
      EvictKey(c.name);
      var cmd := new Link<Command>(c);
      InsertCommand(cmd);
    }

    method RemoveCommands(name: string)
      requires Valid()
      modifies queue, queue.links
      ensures Valid() && Contents() == MenuStep(old(Contents()), Remove(name))
      ensures forall i :: 0 <= i < |queue.links| ==> queue.links[i] in old(queue.links)
    {
      ghost var menu := Contents();
      var cmd, k := FindByName(name);
      while cmd != null
        invariant Valid() && forall i :: 0 <= i < |queue.links| ==> queue.links[i] in old(queue.links)
        invariant 0 <= k <= |queue.links| && cmd == if k < |queue.links| then queue.links[k] else null
        invariant forall i :: 0 <= i < k ==> Contents()[i].name != name
        invariant cmd != null ==> cmd.entry.name == name
        invariant DropName(Contents(), name) == DropName(menu, name)
        decreases |queue.links|
      {
        DropNameSkips(Contents(), name, k);
        assert forall i :: 0 <= i < |queue.links| ==> queue.links[i] in old(queue.links);
        RemoveLink(cmd, k);
        cmd, k := FindByName(name);
      }
      DropNameNothing(Contents(), name);
    }

    /** pbx_capi_voicecommand_cleanup */
    method Cleanup()
      requires Valid()
      modifies this, queue, queue.links
      ensures Valid() && Contents() == MenuStep(old(Contents()), Clear) && Buffer() == "" && !passDigits
    {
      var link := queue.head;
      while link != null
        invariant Valid() && forall i :: 0 <= i < |queue.links| ==> queue.links[i] in old(queue.links)
        invariant link == queue.head && digit == old(digit)
        decreases |queue.links|
      {
        RemoveLink(link, 0);
        link := queue.head;
      }
      digit, passDigits := 0, false;
    }

    /** pbx_capi_voicecommand: one request; a malformed one changes nothing, and only clearing resets the digits. */
    method Request(param: string) returns (r: int)
      requires Valid()
      modifies this, queue, queue.links
      ensures Valid()
      ensures match Parse(param)
        case None => r == -1 && Contents() == old(Contents())
        case Some(a) => r == 0 && Contents() == MenuStep(old(Contents()), a)
      ensures if param == "" then Buffer() == "" && !passDigits
              else Buffer() == old(Buffer()) && digit == old(digit) && passDigits == old(passDigits)
      ensures param != "" && '|' !in param ==> r == 0
      ensures param != "" && '|' !in param ==>
        forall c :: multiset(Contents())[c] == if c.name == param then 0 else multiset(old(Contents()))[c]
    {
      ghost var before := Contents();
      r := 0;
      match Parse(param)
      case None => r := -1;
      case Some(Clear) => Cleanup();
      case Some(Remove(name)) =>
        RemoveCommands(name);
        DropNameExactly(before, name);
      case Some(Add(c)) => AddCommand(c);
    }

    /** pbx_capi_voicecommand_find_digit_command */
    method FindDigitCommand(text: string) returns (cmd: Option<Command>, info: bool)
      requires Valid()
      ensures cmd == Lookup(Contents(), text)
      ensures info == SomeKeyStartsWith(Contents(), text)
    {
      ghost var menu := Contents();
      ghost var k := 0;
      cmd, info := None, false;
      var link := queue.head;
      while link != null && |text| <= |link.entry.key|
        invariant 0 <= k <= |menu| && link == if k < |menu| then queue.links[k] else null
        invariant forall i :: 0 <= i < k ==> menu[i].key != text
        invariant info <==> exists i :: 0 <= i < k && text <= menu[i].key
        decreases |menu| - k
      {
        if text == link.entry.key[..|text|] {
          assert text <= menu[k].key;
          info := true;
          if |text| == |link.entry.key| {
            FirstExactIsLookup(menu, text, k);
            assert menu[k] in menu;
            return Some(link.entry), true;
          }
        }
        link := link.next;
        k := k + 1;
      }
      ScanDecides(menu, text, k);
    }

    /** The part of the digit handler that fills the buffer: a stale or full one starts over. */
    method Collect(d: char, late: bool)
      requires Valid()
      modifies this`digit, digits
      ensures digit < KEY_SIZE && passDigits == old(passDigits)
      ensures var stale := (old(Buffer()) != "" && late) || |old(Buffer())| >= MAX_DIGITS;
        Buffer() == (if stale then "" else old(Buffer())) + [d]
    {
      if (digit != 0 && late) || digit >= KEY_SIZE - 1 {
        digit := 0;
      }
      ghost var kept := Buffer();
      digits[digit] := d;
      digit := digit + 1;
      digits[digit] := '\0';
      assert Buffer() == kept + [d];
    }

    /**
     pbx_capi_voicecommand_process_digit; 0 lets the digit through, -1 discards it. `late` is
     the verdict of the two-second timer, `hasChannel` whether there is a channel to act on.
     */
    method OnDigit(hasChannel: bool, d: char, late: bool) returns (cmd: Option<Command>, r: int)
      requires Valid()
      modifies this, digits
      ensures Valid() && Contents() == old(Contents()) && passDigits == old(passDigits)
      ensures !hasChannel ==> Buffer() == "" && cmd == None && r == 0
      ensures hasChannel ==>
        var o := ProcessDigit(Contents(), old(Buffer()), d, late);
        Buffer() == o.buffer
        && cmd == o.fired
        && r == if o.used && !passDigits then -1 else 0
    {
      cmd := None;
      if !hasChannel || queue.head == null || d !in DIGITS {
        digit := 0;
        return cmd, 0;
      }
      Collect(d, late);
      var info;
      cmd, info := FindDigitCommand(digits[..digit]);
      if cmd.Some? {
        digit := 0;
      } else if !info {
        digit := 0;
        return cmd, 0;
      }
      r := if passDigits then 0 else -1;
    }
  }
}
