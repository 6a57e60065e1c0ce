/**
 The names under which the groups of a large conference are stored: room name, ".G" and the
 group number with at least four digits, cut to what a 16-byte field takes.
 */
module GroupNames {

  const PREFIX := ".G"
  const NAME_SIZE: nat := 16

  // ---------------------------------------------------------------- numbers

  function DigitChar(d: nat): char
    requires d < 10
  {
    '0' + d as char
  }

  function Decimal(n: nat): (s: string)
    ensures |s| > 0
  {
    if n < 10 then [DigitChar(n)] else Decimal(n / 10) + [DigitChar(n % 10)]
  }

  /** The format %04d */
  function Padded(n: nat): string {
    if n < 10 then "000" + Decimal(n)
    else if n < 100 then "00" + Decimal(n)
    else if n < 1000 then "0" + Decimal(n)
    else Decimal(n)
  }

  predicate IsDigit(c: char) {
    '0' <= c <= '9'
  }

  ghost predicate AllDigits(s: string) {
    forall c <- s :: IsDigit(c)
  }

  /** atoi on a string that starts with a digit: it stops at the first other character. */
  function Atoi(s: string, value: nat): nat
    decreases |s|
  {
    if s == "" || !IsDigit(s[0]) then value
    else Atoi(s[1..], 10 * value + (s[0] as int - '0' as int))
  }

  lemma {:induction false} AtoiSnoc(s: string, c: char, value: nat)
    requires AllDigits(s) && IsDigit(c)
    ensures Atoi(s + [c], value) == 10 * Atoi(s, value) + (c as int - '0' as int)
    decreases |s|
  {
    if s == "" {
      assert Atoi([c][1..], 10 * value + (c as int - '0' as int)) == 10 * value + (c as int - '0' as int);
      assert s + [c] == [c];
    } else {
      assert (s + [c])[1..] == s[1..] + [c];
      assert s[0] in s;
      AtoiSnoc(s[1..], c, 10 * value + (s[0] as int - '0' as int));
    }
  }

  lemma {:induction false} AtoiDecimal(n: nat)
    ensures AllDigits(Decimal(n)) && Atoi(Decimal(n), 0) == n
  {
    if n < 10 {
      assert Decimal(n)[1..] == "";
    } else {
      AtoiDecimal(n / 10);
      AtoiSnoc(Decimal(n / 10), DigitChar(n % 10), 0);
    }
  }

  lemma AtoiLeadingZero(s: string)
    ensures Atoi("0" + s, 0) == Atoi(s, 0)
  {
    assert ("0" + s)[1..] == s;
  }

  /** Reading the number back from a name gives the group. */
  lemma AtoiPadded(n: nat)
    ensures Atoi(Padded(n), 0) == n && AllDigits(Padded(n))
    ensures n <= 9999 ==> |Padded(n)| == 4
  {
    AtoiDecimal(n);
    var d := Decimal(n);
    AtoiLeadingZero(d);
    AtoiLeadingZero("0" + d);
    AtoiLeadingZero("00" + d);
    assert "0" + ("0" + d) == "00" + d && "0" + ("00" + d) == "000" + d;
    DecimalLength(n);
  }

  lemma DecimalLength(n: nat)
    ensures n < 10 ==> |Decimal(n)| == 1
    ensures 10 <= n < 100 ==> |Decimal(n)| == 2
    ensures 100 <= n < 1000 ==> |Decimal(n)| == 3
    ensures 1000 <= n < 10000 ==> |Decimal(n)| == 4
  {
    if n >= 10 {
      DecimalLength(n / 10);
    }
  }

  // ---------------------------------------------------------------- names

  function FullName(room: string, group: nat): string {
    room + PREFIX + Padded(group)
  }

  function Cut(s: string, n: nat): string {
    if |s| > n then s[..n] else s
  }

  /** The name of a new row: strncpy without a group, snprintf into one byte less with one */
  function StoredName(room: string, group: nat): string {
    if group == 0 then Cut(room, NAME_SIZE - 1) else Cut(FullName(room, group), NAME_SIZE - 2)
  }

  /** The stored name is the full one exactly when room name and number together have at most twelve characters. */
  lemma StoredIsFull(room: string, group: nat)
    requires group > 0
    ensures StoredName(room, group) == FullName(room, group) <==> |room| + |Padded(group)| <= 12
    ensures |room| <= 8 && group <= 9999 ==> StoredName(room, group) == FullName(room, group)
  {
    AtoiPadded(group);
  }

  /** From nine characters on two groups of a room share their stored name, from twelve on all of them. */
  lemma LongNamesCollide(room: string, group: nat, other: nat)
    requires |room| >= 9 && group > 0 && other > 0
    ensures StoredName(room, 2) == StoredName(room, 3)
    ensures |room| >= 12 ==> StoredName(room, group) == StoredName(room, other)
  {
    var n := NAME_SIZE - 2;
    var common := room + PREFIX + "000";
    assert Padded(2) == "000" + Decimal(2) && Padded(3) == "000" + Decimal(3);
    assert FullName(room, 2) == common + Decimal(2) && FullName(room, 3) == common + Decimal(3);
    assert FullName(room, 2)[..n] == common[..n] == FullName(room, 3)[..n];
    if |room| >= 12 {
      AtoiPadded(group);
      AtoiPadded(other);
      assert FullName(room, group)[..n] == (room + PREFIX)[..n] == FullName(room, other)[..n];
    }
  }

  /** The groups up to 9999 of a room have different stored names exactly if its name has at most eight characters. */
  lemma StoredNamesDifferExactly(room: string)
    ensures (forall g, h :: 0 < g < h <= 9999 ==> StoredName(room, g) != StoredName(room, h)) <==> |room| <= 8
  {
    if |room| <= 8 {
      forall g: nat, h: nat | 0 < g < h <= 9999 ensures StoredName(room, g) != StoredName(room, h) {
        StoredIsFull(room, g);
        StoredIsFull(room, h);
        AtoiPadded(g);
        AtoiPadded(h);
        assert FullName(room, g)[|room + PREFIX|..] == Padded(g);
        assert FullName(room, h)[|room + PREFIX|..] == Padded(h);
      }
    } else {
      LongNamesCollide(room, 2, 3);
    }
  }

  /** What is cut from a number takes at least its last digit. */
  lemma {:induction false} AtoiOfCut(s: string, k: nat)
    requires AllDigits(s) && k < |s|
    ensures 10 * Atoi(s[..k], 0) <= Atoi(s, 0)
    decreases |s|
  {
    var n := |s| - 1;
    assert s == s[..n] + [s[n]];
    AtoiSnoc(s[..n], s[n], 0);
    if k == n {
    } else {
      AtoiOfCut(s[..n], k);
      assert s[..n][..k] == s[..k];
    }
  }

  /** A group's own row is recognised exactly if its name was stored whole. */
  lemma RecognisedExactly(room: string, group: nat)
    requires group > 0
    ensures BelongsTo(StoredName(room, group), room, group) <==> |room| + |Padded(group)| <= 12
  {
    AtoiPadded(group);
    var template, number, stored := room + PREFIX, Padded(group), StoredName(room, group);
    assert FullName(room, group) == template + number;
    if |room| + |number| <= 12 {
      assert stored == template + number && stored[|template|..] == number && stored[..|template|] == template;
    } else if |template| < NAME_SIZE - 2 {
      var k := NAME_SIZE - 2 - |template|;
      assert stored == template + number[..k];
      assert stored[|template|..] == number[..k];
      AtoiOfCut(number, k);
    }
  }

  ghost predicate HasPrefixAt(s: string, i: nat) {
    i + 2 <= |s| && s[i] == '.' && s[i + 1] == 'G'
  }

  /** A room name the group functions can tell apart from its groups */
  ghost predicate PlainName(room: string) {
    forall i :: 0 <= i ==> !HasPrefixAt(room, i)
  }

  /** The test the bridge functions make on a row: prefix and group number */
  predicate BelongsTo(name: string, room: string, group: nat) {
    var template := room + PREFIX;
    |template| < |name| && template <= name && Atoi(name[|template|..], 0) == group
  }

  /** The first ".G" of a full name ends the room name. */
  lemma FirstPrefix(room: string, group: nat)
    requires PlainName(room)
    ensures HasPrefixAt(FullName(room, group), |room|)
    ensures forall i :: 0 <= i < |room| ==> !HasPrefixAt(FullName(room, group), i)
  {
    var name := FullName(room, group);
    forall i | 0 <= i < |room| ensures !HasPrefixAt(name, i) {
      assert name[|room|] == '.' && !HasPrefixAt(room, i);
      assert name[i] == room[i];
      assert i + 1 < |room| ==> name[i + 1] == room[i + 1];
    }
  }

  /** A group's row is recognised by its own room and by no other. */
  lemma OnlyItsOwnRoom(room: string, group: nat, asked: string)
    requires PlainName(room) && PlainName(asked)
    ensures BelongsTo(FullName(room, group), asked, group) <==> asked == room
  {
    var name := FullName(room, group);
    FirstPrefix(room, group);
    AtoiPadded(group);
    var template := asked + PREFIX;
    assert name[|room + PREFIX|..] == Padded(group);
    if template <= name {
      assert name[|asked|] == template[|asked|] && name[|asked| + 1] == template[|asked| + 1];
      assert HasPrefixAt(name, |asked|);
      assert forall i :: 0 <= i < |asked| ==> asked[i] == template[i] == name[i];
      assert !HasPrefixAt(asked, |room|);
      assert name[|room| + 1] == 'G';
      assert |asked| == |room|;
      assert asked == name[..|room|] == room;
    }
  }

  /** No two groups share a name. */
  lemma FullNamesDiffer(room: string, group: nat, otherRoom: string, otherGroup: nat)
    requires PlainName(room) && PlainName(otherRoom)
    requires FullName(room, group) == FullName(otherRoom, otherGroup)
    ensures room == otherRoom && group == otherGroup
  {
    FirstPrefix(room, group);
    FirstPrefix(otherRoom, otherGroup);
    var name := FullName(room, group);
    assert |room| == |otherRoom|;
    assert name[..|room|] == room && name[..|otherRoom|] == otherRoom;
    assert name[|room + PREFIX|..] == Padded(group) && name[|otherRoom + PREFIX|..] == Padded(otherGroup);
    AtoiPadded(group);
    AtoiPadded(otherGroup);
  }
}
