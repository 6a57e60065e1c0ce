/**
 The digit machine: one received digit at a time is appended to a buffer and looked up, and
 the buffer is emptied when it spells a key or can no longer become one. The module compares
 it with a tokenizer that reads the whole stream.
 */
module DigitMachine {
  import opened Common
  import opened VoiceCommand

  const DIGITS := "1234567890ABCD*#"
  const MAX_DIGITS: nat := 80

  /** Keys as pbx_capi_voicecommand admits them; the empty key is one of them */
  predicate ValidKey(key: string) {
    |key| <= MAX_DIGITS && forall d <- key :: d in DIGITS
  }

  ghost predicate ValidMenu(menu: seq<Command>) {
    forall c <- menu :: ValidKey(c.key)
  }

  /** Whatever is done to a menu with admitted keys, its keys stay admitted. */
  lemma {:induction false} MenuStaysValid(actions: seq<Action>)
    requires forall a <- actions :: a.Add? ==> ValidKey(a.c.key)
    ensures ValidMenu(Menu(actions)) && Sorted(Menu(actions))
  {
    if actions == [] {
    } else {
      var before, a := actions[..|actions| - 1], actions[|actions| - 1];
      MenuStaysValid(before);
      assert a in actions;
      match a
      case Add(c) =>
        DropFirstKeySorted(Menu(before), c.name);
        InsertSorted(DropFirstKey(Menu(before), c.name), c);
      case Remove(name) => DropNameSorted(Menu(before), name);
      case Clear =>
    }
  }

  /** What becomes of a run of digits: it calls a command, or it is dropped. */
  datatype Token = Fire(c: Command) | Drop(text: string)

  /** The new buffer, what was decided, the command called if any, and whether the digit was used */
  datatype Outcome = Outcome(buffer: string, tokens: seq<Token>, fired: Option<Command>, used: bool)

  /** One digit; `late` means that more than two seconds passed since the previous one. */
  function ProcessDigit(menu: seq<Command>, buffer: string, digit: char, late: bool): Outcome {
    if menu == [] || digit !in DIGITS then
      Outcome("", [Drop(buffer + [digit])], None, false)
    else
      var stale := (buffer != "" && late) || |buffer| >= MAX_DIGITS;
      var collected := (if stale then "" else buffer) + [digit];
      var cleared := if stale then [Drop(buffer)] else [];
      match Lookup(menu, collected)
      case Some(c) => Outcome("", cleared + [Fire(c)], Some(c), true)
      case None =>
        if SomeKeyStartsWith(menu, collected) then Outcome(collected, cleared, None, true)
        else Outcome("", cleared + [Drop(collected)], None, false)
  }

  /** Timely digits, one after the other, from a given buffer */
  function ProcessDigits(menu: seq<Command>, buffer: string, digits: string): (seq<Token>, string)
    decreases |digits|
  {
    if digits == "" then ([], buffer) else
    var o := ProcessDigit(menu, buffer, digits[0], false);
    var (tokens, rest) := ProcessDigits(menu, o.buffer, digits[1..]);
    (o.tokens + tokens, rest)
  }

  // ---------------------------------------------------------------- the tokenizer

  predicate Stops(menu: seq<Command>, text: string) {
    Lookup(menu, text).Some? || !SomeKeyStartsWith(menu, text)
  }

  /** The length of the shortest prefix, from n on, that is a key or cannot become one */
  function ShortestStop(menu: seq<Command>, text: string, n: nat): (r: nat)
    requires n <= |text|
    ensures n <= r <= |text| + 1
    ensures r <= |text| ==> Stops(menu, text[..r])
    ensures forall k :: n <= k < r && k <= |text| ==> !Stops(menu, text[..k])
    decreases |text| - n
  {
    if Stops(menu, text[..n]) then n
    else if n == |text| then n + 1
    else ShortestStop(menu, text, n + 1)
  }

  function TokenOf(menu: seq<Command>, text: string): Token {
    match Lookup(menu, text)
    case Some(c) => Fire(c)
    case None => Drop(text)
  }

  /** The stream cut into the shortest keys and dead prefixes; the rest waits for more digits. */
  function Tokenize(menu: seq<Command>, text: string): (seq<Token>, string)
    decreases |text|
  {
    if text == "" then ([], "") else
    var n := ShortestStop(menu, text, 1);
    if n > |text| then ([], text)
    else
      var (tokens, rest) := Tokenize(menu, text[n..]);
      ([TokenOf(menu, text[..n])] + tokens, rest)
  }

  // ---------------------------------------------------------------- the two agree

  /** Between digits: no prefix of the buffer is a key, and all of it is the beginning of one. */
  ghost predicate Pending(menu: seq<Command>, buffer: string) {
    forall k :: 1 <= k <= |buffer| ==> !Stops(menu, buffer[..k])
  }

  lemma PendingIsProperPrefix(menu: seq<Command>, buffer: string)
    requires Pending(menu, buffer) && buffer != ""
    ensures exists c <- menu :: buffer < c.key
  {
    assert buffer[..|buffer|] == buffer;
    var c :| c in menu && buffer <= c.key;
    assert buffer == c.key ==> c in WithKey(menu, buffer);
  }

  /** One timely digit on a pending buffer; the length check never fires. */
  lemma PendingStep(menu: seq<Command>, buffer: string, digit: char)
    requires ValidMenu(menu) && Pending(menu, buffer)
    ensures var text := buffer + [digit]; var o := ProcessDigit(menu, buffer, digit, false);
      if Stops(menu, text) then o.buffer == "" && o.tokens == [TokenOf(menu, text)]
      else o.buffer == text && o.tokens == [] && Pending(menu, text)
  {
    var text := buffer + [digit];
    if buffer != "" {
      PendingIsProperPrefix(menu, buffer);
    }
    assert |buffer| < MAX_DIGITS;
    if digit !in DIGITS {
      forall c <- menu ensures !(text <= c.key) {
        assert |c.key| > |buffer| ==> c.key[|buffer|] in c.key && c.key[|buffer|] != text[|buffer|];
      }
      LookupHits(menu, text);
    } else if menu != [] && !Stops(menu, text) {
      forall k | 1 <= k <= |text| ensures !Stops(menu, text[..k]) {
        assert text[..k] == if k <= |buffer| then buffer[..k] else text;
      }
    }
  }

  lemma StopAfterPending(menu: seq<Command>, buffer: string, text: string)
    requires Pending(menu, buffer) && buffer <= text && |buffer| < |text|
    ensures Stops(menu, text[..|buffer| + 1]) ==> ShortestStop(menu, text, 1) == |buffer| + 1
  {
    forall k | 1 <= k <= |buffer| ensures !Stops(menu, text[..k]) {
      assert text[..k] == buffer[..k];
    }
    var n := ShortestStop(menu, text, 1);
  }

  /** Digit by digit or over the whole stream: the same commands fire and the same digits are dropped. */
  lemma {:induction false} MachineIsTokenizer(menu: seq<Command>, buffer: string, digits: string)
    requires ValidMenu(menu) && Pending(menu, buffer)
    ensures ProcessDigits(menu, buffer, digits) == Tokenize(menu, buffer + digits)
    ensures Pending(menu, ProcessDigits(menu, buffer, digits).1)
    decreases |digits|
  {
    var all := buffer + digits;
    if digits == "" {
      assert all == buffer;
      assert buffer != "" ==> ShortestStop(menu, buffer, 1) == |buffer| + 1;
    } else {
      var text := buffer + [digits[0]];
      PendingStep(menu, buffer, digits[0]);
      assert all == text + digits[1..];
      if Stops(menu, text) {
        assert all[..|text|] == text && all[|text|..] == digits[1..];
        StopAfterPending(menu, buffer, all);
        MachineIsTokenizer(menu, "", digits[1..]);
        assert "" + digits[1..] == digits[1..];
      } else {
        MachineIsTokenizer(menu, text, digits[1..]);
        var r := ProcessDigits(menu, text, digits[1..]);
        assert [] + r.0 == r.0;
      }
    }
  }

  /** After any timely digits the buffer is empty or a proper prefix of some key. */
  lemma BufferIsProperPrefix(menu: seq<Command>, digits: string)
    requires ValidMenu(menu)
    ensures var buffer := ProcessDigits(menu, "", digits).1;
      buffer == "" || exists c <- menu :: buffer < c.key
  {
    MachineIsTokenizer(menu, "", digits);
    var buffer := ProcessDigits(menu, "", digits).1;
    if buffer != "" {
      PendingIsProperPrefix(menu, buffer);
    }
  }

  // ---------------------------------------------------------------- pauses, and what the handler returns

  /** The commands among the tokens */
  function Calls(tokens: seq<Token>): seq<Command> {
    if tokens == [] then []
    else (if tokens[0].Fire? then [tokens[0].c] else []) + Calls(tokens[1..])
  }

  lemma {:induction false} CallsConcat(a: seq<Token>, b: seq<Token>)
    ensures Calls(a + b) == Calls(a) + Calls(b)
  {
    if a == [] {
      assert a + b == b;
    } else {
      assert (a + b)[1..] == a[1..] + b && (a + b)[0] == a[0];
      CallsConcat(a[1..], b);
      var head := if a[0].Fire? then [a[0].c] else [];
      assert Calls(a + b) == head + (Calls(a[1..]) + Calls(b));
      hide Calls;
      Associate(head, Calls(a[1..]), Calls(b));
    }
  }

  /** A digit is used exactly if it calls a command or waits for more, and the command returned is the one that fires. */
  lemma OutcomeMeans(menu: seq<Command>, buffer: string, digit: char, late: bool)
    ensures var o := ProcessDigit(menu, buffer, digit, late);
      && Calls(o.tokens) == (if o.fired.Some? then [o.fired.value] else [])
      && (o.used <==> o.fired.Some? || o.buffer != "")
      && (o.fired.Some? ==> o.buffer == "")
  {
    var o := ProcessDigit(menu, buffer, digit, late);
    if |o.tokens| == 1 {
      CallsOfOne(o.tokens);
    } else if |o.tokens| == 2 {
      assert o.tokens == o.tokens[..1] + o.tokens[1..];
      CallsConcat(o.tokens[..1], o.tokens[1..]);
      CallsOfOne(o.tokens[..1]);
      CallsOfOne(o.tokens[1..]);
    }
  }

  lemma CallsOfOne(tokens: seq<Token>)
    requires |tokens| == 1
    ensures Calls(tokens) == if tokens[0].Fire? then [tokens[0].c] else []
  {
    assert tokens[1..] == [];
  }

  /** Digits, each with whether it comes late: the tokens, the commands returned, and the last buffer */
  function ProcessTimed(menu: seq<Command>, buffer: string, digits: seq<(char, bool)>): (seq<Token>, seq<Command>, string)
    decreases |digits|
  {
    if digits == [] then ([], [], buffer) else
    var o := ProcessDigit(menu, buffer, digits[0].0, digits[0].1);
    var (tokens, fired, rest) := ProcessTimed(menu, o.buffer, digits[1..]);
    (o.tokens + tokens, (if o.fired.Some? then [o.fired.value] else []) + fired, rest)
  }

  /** Over any stream the commands returned are those that fire, in order. */
  lemma {:induction false} ReturnedAreFired(menu: seq<Command>, buffer: string, digits: seq<(char, bool)>)
    ensures var (tokens, fired, _) := ProcessTimed(menu, buffer, digits); fired == Calls(tokens)
    decreases |digits|
  {
    if digits == [] {
    } else {
      var o := ProcessDigit(menu, buffer, digits[0].0, digits[0].1);
      OutcomeMeans(menu, buffer, digits[0].0, digits[0].1);
      ReturnedAreFired(menu, o.buffer, digits[1..]);
      CallsConcat(o.tokens, ProcessTimed(menu, o.buffer, digits[1..]).0);
    }
  }

  /** A late digit drops what was collected and starts over; with nothing collected it is as good as a timely one. */
  lemma LateStartsOver(menu: seq<Command>, buffer: string, digit: char)
    requires menu != [] && digit in DIGITS
    ensures var o := ProcessDigit(menu, "", digit, false);
      ProcessDigit(menu, buffer, digit, true) == o.(tokens := (if buffer == "" then [] else [Drop(buffer)]) + o.tokens)
  {
    assert "" + [digit] == [digit];
  }

  /** Digits typed in one go, the first of them late or not */
  function Timed(text: string, late: bool): seq<(char, bool)> {
    if text == "" then [] else [(text[0], late)] + Timed(text[1..], false)
  }

  /** Digits typed in several goes, with a pause in front of each */
  function Bursts(texts: seq<string>): seq<(char, bool)> {
    if texts == [] then [] else Timed(texts[0], true) + Bursts(texts[1..])
  }

  /** Every go is tokenized by itself; what is left of it is dropped when the next begins. */
  function TokenizeBursts(menu: seq<Command>, left: string, texts: seq<string>): (seq<Token>, string)
    decreases |texts|
  {
    if texts == [] then ([], left) else
    var (first, rest) := Tokenize(menu, texts[0]);
    var (tokens, last) := TokenizeBursts(menu, rest, texts[1..]);
    ((if left == "" then [] else [Drop(left)]) + first + tokens, last)
  }

  lemma {:induction false} TimelyIsUntimed(menu: seq<Command>, buffer: string, text: string)
    ensures var (tokens, _, rest) := ProcessTimed(menu, buffer, Timed(text, false));
      (tokens, rest) == ProcessDigits(menu, buffer, text)
    decreases |text|
  {
    hide ProcessDigit;
    if text == "" {
    } else {
      var o := ProcessDigit(menu, buffer, text[0], false);
      assert Timed(text, false)[1..] == Timed(text[1..], false);
      TimelyIsUntimed(menu, o.buffer, text[1..]);
    }
  }

  lemma {:induction false} TimedConcat(menu: seq<Command>, buffer: string, a: seq<(char, bool)>, b: seq<(char, bool)>)
    ensures var (tokens, _, rest) := ProcessTimed(menu, buffer, a); var (more, _, last) := ProcessTimed(menu, rest, b);
      ProcessTimed(menu, buffer, a + b).0 == tokens + more && ProcessTimed(menu, buffer, a + b).2 == last
    decreases |a|
  {
    hide ProcessDigit;
    if a == [] {
      assert a + b == b;
      var none: seq<Token> := [];
      assert none + ProcessTimed(menu, buffer, b).0 == ProcessTimed(menu, buffer, b).0;
    } else {
      var o := ProcessDigit(menu, buffer, a[0].0, a[0].1);
      assert (a + b)[1..] == a[1..] + b;
      TimedConcat(menu, o.buffer, a[1..], b);
      var (tokens, _, rest) := ProcessTimed(menu, o.buffer, a[1..]);
      assert o.tokens + (tokens + ProcessTimed(menu, rest, b).0) == o.tokens + tokens + ProcessTimed(menu, rest, b).0;
    }
  }

  lemma LateBurst(menu: seq<Command>, left: string, text: string)
    requires menu != [] && text != "" && text[0] in DIGITS
    ensures var (tokens, _, rest) := ProcessTimed(menu, left, Timed(text, true));
      var (timely, _, last) := ProcessTimed(menu, "", Timed(text, false));
      tokens == (if left == "" then [] else [Drop(left)]) + timely && rest == last
  {
    LateStartsOver(menu, left, text[0]);
    var cleared := if left == "" then [] else [Drop(left)];
    var o := ProcessDigit(menu, "", text[0], false);
    var tail := Timed(text[1..], false);
    hide *;
    TimedStep(menu, left, text, true);
    TimedStep(menu, "", text, false);
    Associate(cleared, o.tokens, ProcessTimed(menu, o.buffer, tail).0);
  }

  lemma TimedStep(menu: seq<Command>, buffer: string, text: string, late: bool)
    requires text != ""
    ensures var o := ProcessDigit(menu, buffer, text[0], late); var tail := Timed(text[1..], false);
      ProcessTimed(menu, buffer, Timed(text, late)).0 == o.tokens + ProcessTimed(menu, o.buffer, tail).0
      && ProcessTimed(menu, buffer, Timed(text, late)).2 == ProcessTimed(menu, o.buffer, tail).2
  {
    hide ProcessDigit;
    var all := Timed(text, late);
    assert all[0] == (text[0], late) && all[1..] == Timed(text[1..], false);
  }

  lemma OneBurst(menu: seq<Command>, left: string, text: string)
    requires ValidMenu(menu) && menu != [] && text != "" && text[0] in DIGITS
    ensures var (tokens, _, rest) := ProcessTimed(menu, left, Timed(text, true)); var (first, r) := Tokenize(menu, text);
      tokens == (if left == "" then [] else [Drop(left)]) + first && rest == r
  {
    assert Pending(menu, "") && "" + text == text;
    hide *;
    LateBurst(menu, left, text);
    MachineIsTokenizer(menu, "", text);
    TimelyIsUntimed(menu, "", text);
  }

  /** With pauses in between, each go of digits is tokenized by itself. */
  lemma {:induction false} BurstsAreTokenized(menu: seq<Command>, left: string, texts: seq<string>)
    requires ValidMenu(menu) && menu != [] && forall text <- texts :: text != "" && text[0] in DIGITS
    ensures var (tokens, _, rest) := ProcessTimed(menu, left, Bursts(texts)); (tokens, rest) == TokenizeBursts(menu, left, texts)
    decreases |texts|
  {
    if texts == [] {
    } else {
      assert texts[0] in texts;
      OneBurst(menu, left, texts[0]);
      hide ProcessTimed, Tokenize, Timed, Pending;
      var rest := Tokenize(menu, texts[0]).1;
      BurstsAreTokenized(menu, rest, texts[1..]);
      TimedConcat(menu, left, Timed(texts[0], true), Bursts(texts[1..]));
    }
  }

  // ---------------------------------------------------------------- prefix-free menus

  /** No key that can be typed is a proper prefix of another. */
  ghost predicate PrefixFree(menu: seq<Command>) {
    forall a <- menu, b <- menu :: a.key != "" && a.key <= b.key ==> a.key == b.key
  }

  function Typed(keys: seq<Command>): string {
    if keys == [] then "" else keys[0].key + Typed(keys[1..])
  }

  function Fired(menu: seq<Command>, keys: seq<Command>): seq<Token>
    requires forall c <- keys :: c in menu
  {
    if keys == [] then [] else [TokenOf(menu, keys[0].key)] + Fired(menu, keys[1..])
  }

  lemma KeyStopsAtItsEnd(menu: seq<Command>, c: Command, rest: string)
    requires ValidMenu(menu) && PrefixFree(menu) && c in menu && c.key != ""
    ensures ShortestStop(menu, c.key + rest, 1) == |c.key|
    ensures Lookup(menu, c.key).Some?
  {
    var text := c.key + rest;
    assert text[..|c.key|] == c.key;
    LookupHits(menu, c.key);
    forall k | 1 <= k < |c.key| ensures !Stops(menu, text[..k]) {
      assert text[..k] == c.key[..k] && c.key[..k] <= c.key;
      LookupHits(menu, text[..k]);
      forall d <- menu ensures d.key != text[..k] {
        assert d.key == text[..k] ==> d.key <= c.key && |d.key| == k;
      }
    }
    var n := ShortestStop(menu, text, 1);
  }

  /** With no key a prefix of another, any sequence of keys typed from empty fires each exactly once, in order. */
  lemma {:induction false} EveryTypedKeyFires(menu: seq<Command>, keys: seq<Command>)
    requires ValidMenu(menu) && PrefixFree(menu) && forall c <- keys :: c in menu && c.key != ""
    ensures ProcessDigits(menu, "", Typed(keys)) == (Fired(menu, keys), "")
  {
    MachineIsTokenizer(menu, "", Typed(keys));
    assert "" + Typed(keys) == Typed(keys);
    if keys == [] {
    } else {
      assert keys[0] in keys;
      EveryTypedKeyFires(menu, keys[1..]);
      MachineIsTokenizer(menu, "", Typed(keys[1..]));
      assert "" + Typed(keys[1..]) == Typed(keys[1..]);
      KeyStopsAtItsEnd(menu, keys[0], Typed(keys[1..]));
      var n := |keys[0].key|;
      assert Typed(keys)[..n] == keys[0].key && Typed(keys)[n..] == Typed(keys[1..]);
    }
  }

  /** Every token of a prefix-free stream is a call: TokenOf(key) fires the newest command of that key. */
  lemma TokenOfKeyFires(menu: seq<Command>, c: Command)
    requires c in menu
    ensures TokenOf(menu, c.key).Fire? && TokenOf(menu, c.key).c.key == c.key
    ensures TokenOf(menu, c.key).c == WithKey(menu, c.key)[0]
  {
    LookupHits(menu, c.key);
  }
}
