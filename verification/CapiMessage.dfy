/**
 Building a CAPI message from a format string.

 The interpreter walks over the format once and keeps no stack: the length byte of every
 structure that is still open holds the distance back to the length byte of the structure
 around it, and is overwritten with the real length when the structure is closed. The
 module states what that loop must produce, the type definitions of COMMON-ISDN-API
 Version 2.0 Part I chapter 3, as a recursive encoder over trees, and proves the two equal.
 */
module CapiMessage {
  import opened Bytes
  import opened Common

  // ---------------------------------------------------------------- formats

  /** One format character together with its argument. */
  datatype Op =
    | PutByte(b: int)
    | PutWord(w: int)
    | PutDWord(d: int)
    | PutStruct(block: seq<byte>)    // length byte first; [] stands for a NULL pointer
    | PutAscii(text: seq<byte>)       // without the terminating zero
    | PutPrestruct(info: seq<byte>)   // wLen is |info|
    | Open
    | Close
    | Unknown

  predicate ValidOp(op: Op) {
    match op
    case PutStruct(s) => s == [] || |s| >= 1 + s[0] as int
    case PutAscii(t) => forall c <- t :: c != 0
    case PutPrestruct(i) => |i| <= 0xffff
    case _ => true
  }

  ghost predicate ValidOps(ops: seq<Op>) {
    forall op <- ops :: ValidOp(op)
  }

  /** The length of a structure: one byte, or the escape 0xff and a word. */
  function LengthPrefix(n: nat): (s: seq<byte>)
    ensures |s| == if n < 0xff then 1 else 3
  {
    if n < 0xff then [n] else [0xff] + Word(n)
  }

  /** The bytes of everything but a parenthesis. */
  function LeafBytes(op: Op): seq<byte>
    requires ValidOp(op)
  {
    match op
    case PutByte(b) => [Low(b)]
    case PutWord(w) => Word(w)
    case PutDWord(d) => DWord(d)
    case PutStruct(s) => if s == [] then [0] else s[..1 + s[0] as int]
    case PutAscii(t) => [Low(|t|)] + t
    case PutPrestruct(i) => LengthPrefix(|i|) + i
    case _ => []
  }

  /** How far an operation advances the write pointer. */
  function Width(op: Op): nat
    requires ValidOp(op)
  {
    if op.Open? then 1 else |LeafBytes(op)|
  }

  // ---------------------------------------------------------------- the loop as a machine

  /** What has been written, and where the innermost open length byte is (0: none). */
  datatype State = State(out: seq<byte>, pl: nat, warned: bool) {
    predicate Valid() {
      pl == 0 || pl < |out|
    }
  }

  function Step(st: State, op: Op): (r: State)
    requires st.Valid() && ValidOp(op)
    ensures r.Valid() && |r.out| == |st.out| + Width(op)
  {
    match op
    case Open =>
      State(st.out + [if st.pl != 0 then Low(|st.out| - st.pl) else 0], |st.out|, st.warned)
    case Close =>
      if st.pl == 0 then st.(warned := true) else
      var j := st.out[st.pl];
      State(st.out[st.pl := Low(|st.out| - st.pl - 1)], if j != 0 && j <= st.pl then st.pl - j else 0, st.warned)
    case Unknown => st.(warned := true)
    case _ => st.(out := st.out + LeafBytes(op))
  }

  function Run(st: State, ops: seq<Op>): (r: State)
    requires st.Valid() && ValidOps(ops)
    ensures r.Valid()
    decreases |ops|
  {
    if ops == [] then st else Run(Step(st, ops[0]), ops[1..])
  }

  lemma LeafStep(st: State, op: Op)
    requires st.Valid() && ValidOp(op) && !op.Open? && !op.Close?
    ensures Width(op) == |LeafBytes(op)|
    ensures Step(st, op) == State(st.out + LeafBytes(op), st.pl, st.warned || op.Unknown?)
  {
    if op.Unknown? {
      assert st.out + LeafBytes(op) == st.out;
    }
  }

  lemma {:induction false} RunConcat(st: State, a: seq<Op>, b: seq<Op>)
    requires st.Valid() && ValidOps(a) && ValidOps(b)
    ensures ValidOps(a + b)
    ensures Run(st, a + b) == Run(Run(st, a), b)
    decreases |a|
  {
    if a == [] {
      assert a + b == b;
    } else {
      hide Step;
      RunConcat(Step(st, a[0]), a[1..], b);
      assert (a + b)[1..] == a[1..] + b;
    }
  }

  lemma RunSnoc(st: State, a: seq<Op>, op: Op)
    requires st.Valid() && ValidOps(a) && ValidOp(op)
    ensures Run(st, a + [op]) == Step(Run(st, a), op)
  {
    RunConcat(st, a, [op]);
  }

  // ---------------------------------------------------------------- trees

  /** A balanced format: a list of plain fields and parenthesised structures. */
  datatype Forest =
    | Nil
    | Leaf(op: Op, next: Forest)
    | Group(body: Forest, next: Forest)

  predicate ValidForest(f: Forest) {
    match f
    case Nil => true
    case Leaf(op, next) => !op.Open? && !op.Close? && ValidOp(op) && ValidForest(next)
    case Group(body, next) => ValidForest(body) && ValidForest(next)
  }

  function Flatten(f: Forest): (ops: seq<Op>)
    requires ValidForest(f)
    ensures ValidOps(ops)
  {
    match f
    case Nil => []
    case Leaf(op, next) => [op] + Flatten(next)
    case Group(body, next) => [Open] + Flatten(body) + [Close] + Flatten(next)
  }

  /** The encoding the standard prescribes. */
  function Encode(f: Forest): seq<byte>
    requires ValidForest(f)
  {
    match f
    case Nil => []
    case Leaf(op, next) => LeafBytes(op) + Encode(next)
    case Group(body, next) => LengthPrefix(|Encode(body)|) + Encode(body) + Encode(next)
  }

  /** Every structure body is short enough for a one-byte length. */
  predicate ShortGroups(f: Forest)
    requires ValidForest(f)
  {
    match f
    case Nil => true
    case Leaf(_, next) => ShortGroups(next)
    case Group(body, next) => ShortGroups(body) && |Encode(body)| <= 254 && ShortGroups(next)
  }

  predicate HasUnknown(f: Forest) {
    match f
    case Nil => false
    case Leaf(op, next) => op.Unknown? || HasUnknown(next)
    case Group(body, next) => HasUnknown(body) || HasUnknown(next)
  }

  lemma Reassemble(ops: seq<Op>, body: seq<Op>, tail: seq<Op>, next: seq<Op>, rest: seq<Op>)
    requires ops != [] && ops[0].Open? && ops[1..] == body + tail
    requires tail != [] && tail[0].Close? && tail[1..] == next + rest
    ensures [Open] + body + [Close] + next + rest == ops
  {
    assert tail == [Close] + (next + rest);
    assert ops == [Open] + (body + tail);
  }

  /** The reader of formats: one forest, up to the end or the first unmatched ')'. */
  function ReadForest(ops: seq<Op>): (r: (Forest, seq<Op>))
    requires ValidOps(ops)
    ensures ValidForest(r.0) && |r.1| <= |ops|
    ensures r.1 == [] || r.1[0].Close? || r.1[0].Open?
    ensures Flatten(r.0) + r.1 == ops
    decreases |ops|
  {
    if ops == [] || ops[0].Close? then (Nil, ops)
    else if ops[0].Open? then
      var (body, tail) := ReadForest(ops[1..]);
      if tail == [] || tail[0].Open? then (Nil, ops)
      else
        var (next, rest) := ReadForest(tail[1..]);
        assert Flatten(Group(body, next)) + rest == ops by {
          Reassemble(ops, Flatten(body), tail, Flatten(next), rest);
        }
        (Group(body, next), rest)
    else
      var (next, rest) := ReadForest(ops[1..]);
      (Leaf(ops[0], next), rest)
  }

  /** Parentheses match: no ')' without a '(' and none left open. */
  predicate Balanced(ops: seq<Op>, depth: nat) {
    if ops == [] then depth == 0
    else if ops[0].Open? then Balanced(ops[1..], depth + 1)
    else if ops[0].Close? then depth > 0 && Balanced(ops[1..], depth - 1)
    else Balanced(ops[1..], depth)
  }

  lemma {:induction false} BalancedAfterForest(f: Forest, rest: seq<Op>, depth: nat)
    requires ValidForest(f)
    ensures Balanced(Flatten(f) + rest, depth) == Balanced(rest, depth)
  {
    match f
    case Nil =>
      assert Flatten(f) + rest == rest;
    case Leaf(op, next) =>
      assert (Flatten(f) + rest)[1..] == Flatten(next) + rest;
      BalancedAfterForest(next, rest, depth);
    case Group(body, next) =>
      var tail := [Close] + (Flatten(next) + rest);
      assert (Flatten(f) + rest)[1..] == Flatten(body) + tail;
      BalancedAfterForest(body, tail, depth + 1);
      assert tail[1..] == Flatten(next) + rest;
      BalancedAfterForest(next, rest, depth);
  }

  lemma {:induction false} UnreadOpenNeverBalances(ops: seq<Op>, depth: nat)
    requires ValidOps(ops) && ReadForest(ops).1 != [] && ReadForest(ops).1[0].Open?
    ensures !Balanced(ops, depth)
    decreases |ops|
  {
    if ops[0].Open? {
      var (body, tail) := ReadForest(ops[1..]);
      BalancedAfterForest(body, tail, depth + 1);
      if tail == [] {
      } else if tail[0].Open? {
        UnreadOpenNeverBalances(ops[1..], depth + 1);
      } else {
        UnreadOpenNeverBalances(tail[1..], depth);
      }
    } else {
      UnreadOpenNeverBalances(ops[1..], depth);
    }
  }

  /** A format is balanced exactly when it is the flattening of a tree, and then of the one read from it. */
  lemma BalancedIffTree(ops: seq<Op>)
    requires ValidOps(ops)
    ensures Balanced(ops, 0) <==> ReadForest(ops).1 == []
    ensures Balanced(ops, 0) ==> Flatten(ReadForest(ops).0) == ops
  {
    var (f, rest) := ReadForest(ops);
    BalancedAfterForest(f, rest, 0);
    if rest == [] {
      assert Flatten(f) + rest == Flatten(f);
    } else if rest[0].Open? {
      UnreadOpenNeverBalances(ops, 0);
    }
  }

  // ---------------------------------------------------------------- the loop encodes the tree

  /**
   The threaded length bytes work: inside any enclosing structure that is itself short, a
   balanced stretch of format appends its encoding and leaves the enclosing one innermost.
   */
  lemma {:induction false} RunForest(st: State, f: Forest)
    requires st.Valid() && st.out != [] && ValidForest(f) && ShortGroups(f)
    requires st.pl == 0 || |st.out| + |Encode(f)| - st.pl - 1 <= 255
    ensures Run(st, Flatten(f)) == State(st.out + Encode(f), st.pl, st.warned || HasUnknown(f))
    decreases f, 1
  {
    match f
    case Nil =>
      assert st.out + Encode(f) == st.out;
    case Leaf(op, next) => RunLeaf(st, op, next);
    case Group(body, next) => RunGroup(st, body, next);
  }

  lemma {:induction false} RunLeaf(st: State, op: Op, next: Forest)
    requires st.Valid() && st.out != [] && ValidForest(Leaf(op, next)) && ShortGroups(Leaf(op, next))
    requires st.pl == 0 || |st.out| + |Encode(Leaf(op, next))| - st.pl - 1 <= 255
    ensures Run(st, Flatten(Leaf(op, next)))
         == State(st.out + Encode(Leaf(op, next)), st.pl, st.warned || HasUnknown(Leaf(op, next)))
    decreases Leaf(op, next), 0
  {
    var st1 := State(st.out + LeafBytes(op), st.pl, st.warned || op.Unknown?);
    LeafStep(st, op);
    RunFirst(st, op, Flatten(next));
    EncodeLeaf(st.out, op, next);
    assert |Encode(Leaf(op, next))| == |LeafBytes(op)| + |Encode(next)|;
    hide Step, LeafBytes, Encode, Run, ValidOps;
    RunForest(st1, next);
  }

  lemma RunFirst(st: State, op: Op, tail: seq<Op>)
    requires st.Valid() && ValidOp(op) && ValidOps(tail)
    ensures ValidOps([op] + tail) && Run(st, [op] + tail) == Run(Step(st, op), tail)
  {
    assert ([op] + tail)[1..] == tail;
    hide Step;
  }

  lemma EncodeLeaf(out: seq<byte>, op: Op, next: Forest)
    requires ValidForest(Leaf(op, next))
    ensures out + LeafBytes(op) + Encode(next) == out + Encode(Leaf(op, next))
  {
    var a, b := LeafBytes(op), Encode(next);
    assert Encode(Leaf(op, next)) == a + b;
    hide *;
    assert out + a + b == out + (a + b);
  }

  lemma {:induction false} RunGroup(st: State, body: Forest, next: Forest)
    requires st.Valid() && st.out != [] && ValidForest(Group(body, next)) && ShortGroups(Group(body, next))
    requires st.pl == 0 || |st.out| + |Encode(Group(body, next))| - st.pl - 1 <= 255
    ensures Run(st, Flatten(Group(body, next)))
         == State(st.out + Encode(Group(body, next)), st.pl, st.warned || HasUnknown(Group(body, next)))
    decreases Group(body, next), 0
  {
    RunForest(Step(st, Open), body);
    CloseRestores(st, Encode(body), st.warned || HasUnknown(body));
    var st3 := State(st.out + (LengthPrefix(|Encode(body)|) + Encode(body)), st.pl, st.warned || HasUnknown(body));
    RunForest(st3, next);
    RunParenthesised(st, Flatten(body), Flatten(next));
    EncodeGroup(st.out, body, next);
  }

  lemma EncodeGroup(out: seq<byte>, body: Forest, next: Forest)
    requires ValidForest(body) && ValidForest(next)
    ensures out + (LengthPrefix(|Encode(body)|) + Encode(body)) + Encode(next) == out + Encode(Group(body, next))
  {
  }

  /** Closing a structure leaves its real length behind and its parent open again. */
  lemma CloseRestores(st: State, body: seq<byte>, warned: bool)
    requires st.Valid() && st.out != [] && |body| <= 254
    requires st.pl == 0 || |st.out| + |body| - st.pl <= 255
    ensures var st1 := Step(st, Open);
      Step(State(st1.out + body, st1.pl, warned), Close)
      == State(st.out + (LengthPrefix(|body|) + body), st.pl, warned)
  {
    var st1 := Step(st, Open);
    var out := st1.out + body;
    assert out[st1.pl] == if st.pl != 0 then |st.out| - st.pl else 0;
    assert out[st1.pl := |body|] == st.out + (LengthPrefix(|body|) + body);
  }

  lemma RunParenthesised(st: State, b: seq<Op>, n: seq<Op>)
    requires st.Valid() && ValidOps(b) && ValidOps(n)
    ensures ValidOps([Open] + b + [Close] + n)
    ensures Run(st, [Open] + b + [Close] + n) == Run(Step(Run(Step(st, Open), b), Close), n)
  {
    var tail := [Close] + n;
    assert [Open] + b + [Close] + n == [Open] + (b + tail);
    assert ([Open] + (b + tail))[1..] == b + tail;
    RunConcat(Step(st, Open), b, tail);
    assert tail[1..] == n;
  }

  /** The bytes the loop emits: one length byte for every structure, however long. */
  function RawSize(f: Forest): nat
    requires ValidForest(f)
  {
    match f
    case Nil => 0
    case Leaf(op, next) => |LeafBytes(op)| + RawSize(next)
    case Group(body, next) => 1 + RawSize(body) + RawSize(next)
  }

  lemma {:induction false} RunLength(st: State, f: Forest)
    requires st.Valid() && ValidForest(f)
    ensures |Run(st, Flatten(f)).out| == |st.out| + RawSize(f)
    decreases f
  {
    match f
    case Nil =>
    case Leaf(op, next) =>
      assert Flatten(f)[1..] == Flatten(next);
      RunLength(Step(st, op), next);
    case Group(body, next) =>
      RunParenthesised(st, Flatten(body), Flatten(next));
      var st1 := Step(st, Open);
      RunLength(st1, body);
      RunLength(Step(Run(st1, Flatten(body)), Close), next);
  }

  lemma {:induction false} EncodeLength(f: Forest)
    requires ValidForest(f)
    ensures |Encode(f)| >= RawSize(f)
    ensures |Encode(f)| == RawSize(f) <==> ShortGroups(f)
  {
    match f
    case Nil =>
    case Leaf(_, next) =>
      EncodeLength(next);
    case Group(body, next) =>
      EncodeLength(body);
      EncodeLength(next);
  }

  /**
   Exactly when the loop produces the standard encoding: when no structure needs the
   escape. The loop has no escape for parenthesised structures, and a longer body also
   breaks the chain of back-offsets.
   */
  lemma EncodesIffShortGroups(header: seq<byte>, ops: seq<Op>)
    requires header != [] && ValidOps(ops) && Balanced(ops, 0)
    ensures ReadForest(ops).1 == []
    ensures var f := ReadForest(ops).0;
      (Run(State(header, 0, false), ops).out == header + Encode(f) <==> ShortGroups(f))
      && (ShortGroups(f) ==> Run(State(header, 0, false), ops).pl == 0)
      && (ShortGroups(f) ==> Run(State(header, 0, false), ops).warned == HasUnknown(f))
  {
    BalancedIffTree(ops);
    var f := ReadForest(ops).0;
    var st := State(header, 0, false);
    RunLength(st, f);
    EncodeLength(f);
    if ShortGroups(f) {
      RunForest(st, f);
    }
  }

  /** No closing parenthesis puts another byte in front of position n than the one there. */
  predicate Behind(st: State, ops: seq<Op>, n: nat)
    requires st.Valid() && ValidOps(ops)
    decreases |ops|
  {
    ops == []
    || (!(ops[0].Close? && 0 < st.pl < n && st.out[st.pl] != Low(|st.out| - st.pl - 1)) && Behind(Step(st, ops[0]), ops[1..], n))
  }

  /** That is exactly when what stands in front of n is left alone all along. */
  lemma {:induction false} FrontIsKeptExactly(st: State, ops: seq<Op>, n: nat)
    requires st.Valid() && ValidOps(ops) && n <= |st.out|
    ensures Behind(st, ops, n)
      <==> forall i :: 0 <= i <= |ops| ==> |Run(st, ops[..i]).out| >= n && Run(st, ops[..i]).out[..n] == st.out[..n]
    decreases |ops|
  {
    if ops == [] {
    } else {
      var next, rest := Step(st, ops[0]), ops[1..];
      StepKeepsFront(st, ops[0], n);
      FrontIsKeptExactly(next, rest, n);
      forall i | 0 <= i <= |rest| ensures Run(st, ops[..i + 1]) == Run(next, rest[..i]) {
        RunFirst(st, ops[0], rest[..i]);
        assert ops[..i + 1] == [ops[0]] + rest[..i];
      }
      assert Run(st, ops[..0]) == st;
      assert Run(next, rest[..0]) == next;
      assert Behind(st, ops, n) <==> next.out[..n] == st.out[..n] && Behind(next, rest, n);
      hide Step, Run, Behind;
      if forall i :: 0 <= i <= |ops| ==> |Run(st, ops[..i]).out| >= n && Run(st, ops[..i]).out[..n] == st.out[..n] {
        assert Run(st, ops[..0 + 1]) == next;
        forall i | 0 <= i <= |rest| ensures |Run(next, rest[..i]).out| >= n && Run(next, rest[..i]).out[..n] == next.out[..n] {
          assert Run(st, ops[..i + 1]) == Run(next, rest[..i]);
        }
      }
      if Behind(next, rest, n) && next.out[..n] == st.out[..n] {
        forall i | 0 <= i <= |ops| ensures |Run(st, ops[..i]).out| >= n && Run(st, ops[..i]).out[..n] == st.out[..n] {
          assert i > 0 ==> Run(st, ops[..i]) == Run(next, rest[..i - 1]);
        }
      }
    }
  }

  lemma StepKeepsFront(st: State, op: Op, n: nat)
    requires st.Valid() && ValidOp(op) && n <= |st.out|
    ensures |Step(st, op).out| >= n
    ensures Step(st, op).out[..n] == st.out[..n] <==> !(op.Close? && 0 < st.pl < n && st.out[st.pl] != Low(|st.out| - st.pl - 1))
  {
    hide LeafBytes;
    if op.Close? && 0 < st.pl < n {
      assert Step(st, op).out[..n][st.pl] == Low(|st.out| - st.pl - 1);
      assert st.out[..n][st.pl] == st.out[st.pl];
    }
  }

  // ---------------------------------------------------------------- decoding

  /** What a receiver knows of a message: the kinds of its fields. */
  datatype Shape =
    | End
    | ByteField(next: Shape)
    | WordField(next: Shape)
    | DWordField(next: Shape)
    | StructField(next: Shape)
    | GroupField(body: Shape, next: Shape)

  datatype Value =
    | Done
    | ByteValue(n: nat, next: Value)
    | WordValue(n: nat, next: Value)
    | DWordValue(n: nat, next: Value)
    | StructValue(content: seq<byte>, next: Value)
    | GroupValue(body: Value, next: Value)

  /** Splits off one length-prefixed structure. */
  function SplitStruct(s: seq<byte>): (r: Option<(seq<byte>, seq<byte>)>)
    ensures r.Some? ==> |r.value.1| < |s| && |r.value.0| < |s|
  {
    if s == [] then None
    else if s[0] < 0xff then
      if |s| < 1 + s[0] as int then None else Some((s[1..1 + s[0] as int], s[1 + s[0] as int..]))
    else if |s| < 3 || |s| < 3 + ReadWord(s[1..3]) then None
    else Some((s[3..3 + ReadWord(s[1..3])], s[3 + ReadWord(s[1..3])..]))
  }

  /** Reads the fields of a shape; the second component is what follows them. */
  function Decode(shape: Shape, s: seq<byte>): Option<(Value, seq<byte>)>
    decreases shape
  {
    match shape
    case End => Some((Done, s))
    case ByteField(next) =>
      if |s| < 1 then None else
      (match Decode(next, s[1..])
       case None => None
       case Some((v, rest)) => Some((ByteValue(s[0], v), rest)))
    case WordField(next) =>
      if |s| < 2 then None else
      (match Decode(next, s[2..])
       case None => None
       case Some((v, rest)) => Some((WordValue(ReadWord(s), v), rest)))
    case DWordField(next) =>
      if |s| < 4 then None else
      (match Decode(next, s[4..])
       case None => None
       case Some((v, rest)) => Some((DWordValue(ReadDWord(s), v), rest)))
    case StructField(next) =>
      (match SplitStruct(s)
       case None => None
       case Some((content, tail)) =>
         match Decode(next, tail)
         case None => None
         case Some((v, rest)) => Some((StructValue(content, v), rest)))
    case GroupField(body, next) =>
      (match SplitStruct(s)
       case None => None
       case Some((content, tail)) =>
         match Decode(body, content)
         case None => None
         case Some((b, extra)) =>
           if extra != [] then None else
           match Decode(next, tail)
           case None => None
           case Some((v, rest)) => Some((GroupValue(b, v), rest)))
  }

  function ShapeOf(f: Forest): Shape {
    match f
    case Nil => End
    case Group(body, next) => GroupField(ShapeOf(body), ShapeOf(next))
    case Leaf(op, next) =>
      match op
      case PutByte(_) => ByteField(ShapeOf(next))
      case PutWord(_) => WordField(ShapeOf(next))
      case PutDWord(_) => DWordField(ShapeOf(next))
      case Unknown => ShapeOf(next)
      case _ => StructField(ShapeOf(next))
  }

  /** The arguments as the receiver should see them: truncated to the field's width. */
  function ValueOf(f: Forest): Value
    requires ValidForest(f)
  {
    match f
    case Nil => Done
    case Group(body, next) => GroupValue(ValueOf(body), ValueOf(next))
    case Leaf(op, next) =>
      match op
      case PutByte(b) => ByteValue(b % 0x100, ValueOf(next))
      case PutWord(w) => WordValue(w % 0x1_0000, ValueOf(next))
      case PutDWord(d) => DWordValue(d % 0x1_0000_0000, ValueOf(next))
      case PutStruct(s) => StructValue(if s == [] then [] else s[1..1 + s[0] as int], ValueOf(next))
      case PutAscii(t) => StructValue(t, ValueOf(next))
      case PutPrestruct(i) => StructValue(i, ValueOf(next))
      case _ => ValueOf(next)
  }

  /** Strings passed with 's' or 'a' have no escape either; a group fits a word length. */
  predicate Decodable(f: Forest)
    requires ValidForest(f)
  {
    match f
    case Nil => true
    case Group(body, next) => Decodable(body) && |Encode(body)| <= 0xffff && Decodable(next)
    case Leaf(op, next) =>
      (match op
       case PutStruct(s) => s == [] || s[0] <= 254
       case PutAscii(t) => |t| <= 254
       case _ => true)
      && Decodable(next)
  }

  lemma SplitPrefixed(content: seq<byte>, tail: seq<byte>)
    requires |content| <= 0xffff
    ensures SplitStruct(LengthPrefix(|content|) + content + tail) == Some((content, tail))
  {
    var p := LengthPrefix(|content|);
    var s := p + content + tail;
    if |content| >= 0xff {
      ReadWordOfWord(|content|);
      assert s[1..3] == Word(|content|);
    }
    assert s[|p|..|p| + |content|] == content && s[|p| + |content|..] == tail;
  }

  lemma {:induction false} DecodeEncode(f: Forest, tail: seq<byte>)
    requires ValidForest(f) && Decodable(f)
    ensures Decode(ShapeOf(f), Encode(f) + tail) == Some((ValueOf(f), tail))
  {
    match f
    case Nil =>
      assert Encode(f) + tail == tail;
    case Group(body, next) =>
      DecodeEncode(body, []);
      assert Encode(body) + [] == Encode(body);
      DecodeEncode(next, tail);
      DecodeGroupThen(body, next, Encode(next) + tail, tail);
      EncodeGroupThen(body, next, tail);
    case Leaf(op, next) =>
      DecodeEncode(next, tail);
      DecodeLeafThen(op, next, Encode(next) + tail, tail);
      assert LeafBytes(op) + (Encode(next) + tail) == LeafBytes(op) + Encode(next) + tail;
  }

  lemma DecodeLeafThen(op: Op, next: Forest, s: seq<byte>, tail: seq<byte>)
    requires var f := Leaf(op, next); ValidForest(f) && Decodable(f)
    requires Decode(ShapeOf(next), s) == Some((ValueOf(next), tail))
    ensures Decode(ShapeOf(Leaf(op, next)), LeafBytes(op) + s) == Some((ValueOf(Leaf(op, next)), tail))
  {
    DecodeLeaf(op, s);
    assert (LeafBytes(op) + s)[|LeafBytes(op)|..] == s;
    if op.Unknown? {
      assert LeafBytes(op) + s == s;
    }
  }

  lemma EncodeGroupThen(body: Forest, next: Forest, tail: seq<byte>)
    requires ValidForest(body) && ValidForest(next)
    ensures Encode(Group(body, next)) + tail
         == LengthPrefix(|Encode(body)|) + Encode(body) + (Encode(next) + tail)
  {
  }

  lemma DecodeGroupThen(body: Forest, next: Forest, s: seq<byte>, tail: seq<byte>)
    requires ValidForest(body) && ValidForest(next) && |Encode(body)| <= 0xffff
    requires Decode(ShapeOf(body), Encode(body)) == Some((ValueOf(body), []))
    requires Decode(ShapeOf(next), s) == Some((ValueOf(next), tail))
    ensures Decode(GroupField(ShapeOf(body), ShapeOf(next)), LengthPrefix(|Encode(body)|) + Encode(body) + s)
         == Some((GroupValue(ValueOf(body), ValueOf(next)), tail))
  {
    SplitPrefixed(Encode(body), s);
  }

  lemma DecodeLeaf(op: Op, tail: seq<byte>)
    requires ValidOp(op) && !op.Open? && !op.Close?
    requires op.PutStruct? && op.block != [] ==> op.block[0] <= 254
    requires op.PutAscii? ==> |op.text| <= 254
    ensures var s := LeafBytes(op) + tail;
      match op
      case PutByte(b) => s[0] == b % 0x100
      case PutWord(w) => ReadWord(s) == w % 0x1_0000
      case PutDWord(d) => ReadDWord(s) == d % 0x1_0000_0000
      case PutStruct(x) => SplitStruct(s) == Some((if x == [] then [] else x[1..1 + x[0] as int], tail))
      case PutAscii(t) => SplitStruct(s) == Some((t, tail))
      case PutPrestruct(i) => SplitStruct(s) == Some((i, tail))
      case _ => true
  {
    match op
    case PutWord(w) => ReadWordOfWord(w);
    case PutDWord(d) => ReadDWordOfDWord(d);
    case PutStruct(x) =>
      var content := if x == [] then [] else x[1..1 + x[0] as int];
      assert LeafBytes(op) == LengthPrefix(|content|) + content;
      SplitPrefixed(content, tail);
    case PutAscii(t) => SplitPrefixed(t, tail);
    case PutPrestruct(i) => SplitPrefixed(i, tail);
    case _ =>
  }

  /** What a receiver that knows the fields reads from a sent message is what was passed in. */
  lemma SentFieldsAreReadBack(header: seq<byte>, ops: seq<Op>)
    requires header != [] && ValidOps(ops) && Balanced(ops, 0)
    requires var f := ReadForest(ops).0; ShortGroups(f) && Decodable(f)
    ensures var f := ReadForest(ops).0; var out := Run(State(header, 0, false), ops).out;
      |out| >= |header| && out[..|header|] == header
      && Decode(ShapeOf(f), out[|header|..]) == Some((ValueOf(f), []))
  {
    var f := ReadForest(ops).0;
    EncodesIffShortGroups(header, ops);
    DecodeEncode(f, []);
    assert Encode(f) + [] == Encode(f);
    assert (header + Encode(f))[|header|..] == Encode(f);
  }

  // ---------------------------------------------------------------- the code

  const MSG_SIZE: nat := 2048
  const HEADER_SIZE: nat := 12
  const SAFETY_MARGIN: nat := 12

  datatype SendResult = TooBig | Sent(message: seq<byte>)

  /** The size check in front of some format character fires. */
  predicate Overflows(pos: nat, ops: seq<Op>)
    requires ValidOps(ops)
    decreases |ops|
  {
    ops != [] && (pos + SAFETY_MARGIN >= MSG_SIZE || Overflows(pos + Width(ops[0]), ops[1..]))
  }

  /** It fires exactly if in front of some character the message has come within twelve bytes of 2048. */
  lemma {:induction false} OverflowsExactly(st: State, ops: seq<Op>)
    requires st.Valid() && ValidOps(ops)
    ensures Overflows(|st.out|, ops) <==> exists i :: 0 <= i < |ops| && |Run(st, ops[..i]).out| + 12 >= 2048
    decreases |ops|
  {
    if ops == [] {
    } else {
      var next, rest := Step(st, ops[0]), ops[1..];
      OverflowsExactly(next, rest);
      hide Step;
      assert Run(st, ops[..0]) == st;
      forall i | 0 <= i < |rest| ensures Run(st, ops[..i + 1]) == Run(next, rest[..i]) {
        assert ops[..i + 1][1..] == rest[..i] && ops[..i + 1][0] == ops[0];
      }
      assert Overflows(|st.out|, ops) <==> |st.out| + 12 >= 2048 || Overflows(|next.out|, rest);
      hide Run, Overflows;
      if i :| 0 <= i < |rest| && |Run(next, rest[..i]).out| + 12 >= 2048 {
        assert |Run(st, ops[..i + 1]).out| + 12 >= 2048;
      }
      if i :| 0 <= i < |ops| && |Run(st, ops[..i]).out| + 12 >= 2048 {
        assert i > 0 ==> |Run(next, rest[..i - 1]).out| + 12 >= 2048;
      }
    }
  }

  /** No field that is reached runs over the buffer; the margin is enough for all but strings. */
  predicate WritesFit(pos: nat, ops: seq<Op>)
    requires ValidOps(ops)
    decreases |ops|
  {
    ops == [] || pos + SAFETY_MARGIN >= MSG_SIZE
    || (pos + Width(ops[0]) <= MSG_SIZE && WritesFit(pos + Width(ops[0]), ops[1..]))
  }

  /**
   Over-long structures do get out: a prepared structure of 254 to 2000 bytes between
   parentheses passes the size check, and no receiver reads the body back.
   */
  lemma LongGroupIsSent(header: seq<byte>, info: seq<byte>)
    requires |header| == HEADER_SIZE && 254 <= |info| <= 2000
    ensures var ops, body := [Open, PutPrestruct(info), Close], LengthPrefix(|info|) + info;
      && ValidOps(ops) && Balanced(ops, 0) && WritesFit(HEADER_SIZE, ops) && !Overflows(HEADER_SIZE, ops)
      && Run(State(header, 0, false), ops) == State(header + ([Low(|body|)] + body), 0, false)
      && SplitStruct([Low(|body|)] + body) != Some((body, []))
  {
    var body := LengthPrefix(|info|) + info;
    assert |body| > 254;
    hide *;
    LongGroupPasses(info);
    GroupRuns(header, PutPrestruct(info), body);
    LongBodyIsLost(body);
  }

  /** A structure around one field, of whatever length */
  lemma GroupRuns(header: seq<byte>, op: Op, body: seq<byte>)
    requires header != [] && ValidOp(op) && LeafBytes(op) == body && !op.Open? && !op.Close? && !op.Unknown?
    ensures ValidOps([Open, op, Close])
    ensures Run(State(header, 0, false), [Open, op, Close]) == State(header + ([Low(|body|)] + body), 0, false)
  {
    hide LeafBytes, Low;
    var st := State(header, 0, false);
    LeafStep(Step(st, Open), op);
    assert header + [0] + body == header + ([0] + body);
    CloseAround(header, body);
    hide Step;
    ThreeSteps(st, [Open, op, Close]);
  }

  lemma CloseAround(header: seq<byte>, body: seq<byte>)
    requires header != []
    ensures Step(State(header + ([0] + body), |header|, false), Close) == State(header + ([Low(|body|)] + body), 0, false)
  {
    var out := header + ([0] + body);
    assert out[|header|] == 0 && out[|header| := Low(|body|)] == header + ([Low(|body|)] + body);
  }

  lemma ThreeSteps(st: State, ops: seq<Op>)
    requires st.Valid() && ValidOps(ops) && |ops| == 3
    ensures Run(st, ops) == Step(Step(Step(st, ops[0]), ops[1]), ops[2])
  {
    hide Step;
    assert ops[1..][1..] == [ops[2]] && [ops[2]][1..] == [];
    assert Run(Step(Step(st, ops[0]), ops[1]), [ops[2]]) == Step(Step(Step(st, ops[0]), ops[1]), ops[2]);
  }

  lemma LongGroupPasses(info: seq<byte>)
    requires 254 <= |info| <= 2000
    ensures var ops := [Open, PutPrestruct(info), Close];
      ValidOps(ops) && Balanced(ops, 0) && WritesFit(HEADER_SIZE, ops) && !Overflows(HEADER_SIZE, ops)
  {
    var ops := [Open, PutPrestruct(info), Close];
    assert ops[1..] == [ops[1], Close] && ops[1..][1..] == [Close] && [Close][1..] == [];
    var end := HEADER_SIZE + 1 + Width(ops[1]);
    assert Balanced([Close], 1) && Balanced(ops[1..], 1);
    assert WritesFit(end, [Close]) && WritesFit(HEADER_SIZE + 1, ops[1..]);
    assert !Overflows(end, [Close]) && !Overflows(HEADER_SIZE + 1, ops[1..]);
  }

  lemma LongBodyIsLost(body: seq<byte>)
    requires |body| > 254
    ensures SplitStruct([Low(|body|)] + body) != Some((body, []))
  {
  }

  /** Three structures around a byte and a long prepared structure, with a fourth one behind it */
  function NestedFormat(info: seq<byte>): seq<Op> {
    [Open] + ([Open] + ([Open] + ([PutByte(13)] + ([PutPrestruct(info)] + ([Open] + CLOSES)))))
  }

  const CLOSES: seq<Op> := [Close] + ([Close] + ([Close] + [Close]))

  lemma Cons(op: Op, rest: seq<Op>, st: State, pos: nat, depth: nat)
    requires ValidOp(op) && ValidOps(rest) && st.Valid()
    ensures ValidOps([op] + rest) && Run(st, [op] + rest) == Run(Step(st, op), rest)
    ensures Overflows(pos, [op] + rest) == (pos + SAFETY_MARGIN >= MSG_SIZE || Overflows(pos + Width(op), rest))
    ensures WritesFit(pos, [op] + rest)
       <==> (pos + SAFETY_MARGIN >= MSG_SIZE || (pos + Width(op) <= MSG_SIZE && WritesFit(pos + Width(op), rest)))
    ensures Balanced([op] + rest, depth)
         == if op.Open? then Balanced(rest, depth + 1)
            else if op.Close? then depth > 0 && Balanced(rest, depth - 1) else Balanced(rest, depth)
  {
    assert ([op] + rest)[1..] == rest;
  }

  /** Four closes behind a message whose back-offsets lead over 270 and 15 to byte 2 */
  lemma FourCloses(out: seq<byte>, pos: nat)
    requires |out| == 320 && out[319] == 49 && out[270] == 255 && out[15] == 13 && pos <= 2000
    ensures ValidOps(CLOSES) && Balanced(CLOSES, 4) && WritesFit(pos, CLOSES) && !Overflows(pos, CLOSES)
    ensures var r := Run(State(out, 319, false), CLOSES).out; |r| == 320 && r[2] == 61
  {
    var c2, c1 := [Close] + ([Close] + [Close]), [Close] + [Close];
    assert [Close] == [Close] + [];
    var s0 := State(out, 319, false);
    var s1, s2, s3 := Step(s0, Close), Step(Step(s0, Close), Close), Step(Step(Step(s0, Close), Close), Close);
    assert s1.pl == 270 && s1.out[270] == 255 && s1.out[15] == 13;
    assert s2.pl == 15 && s2.out[15] == 13;
    assert s3.pl == 2;
    var r := Step(s3, Close);
    assert r.out[2] == 61 && |r.out| == 320;
    hide Step;
    Cons(Close, [], s3, pos, 1);
    Cons(Close, [Close], s2, pos, 2);
    Cons(Close, c1, s1, pos, 3);
    Cons(Close, c2, s0, pos, 4);
  }

  /** What the first six steps of the nested format leave */
  function AfterOpening(header: seq<byte>, info: seq<byte>): State
    requires |header| == HEADER_SIZE && |info| == 300
  {
    State(header + [0] + [1] + [1] + [13] + (LengthPrefix(300) + info) + [49], 319, false)
  }

  lemma OpeningSteps(header: seq<byte>, info: seq<byte>, tail: seq<Op>)
    requires |header| == HEADER_SIZE && |info| == 300 && ValidOps(tail)
    ensures var ops := [Open] + ([Open] + ([Open] + ([PutByte(13)] + ([PutPrestruct(info)] + ([Open] + tail)))));
      ValidOps(ops) && Run(State(header, 0, false), ops) == Run(AfterOpening(header, info), tail)
      && Balanced(ops, 0) == Balanced(tail, 4)
      && (WritesFit(HEADER_SIZE, ops) <==> WritesFit(320, tail)) && (Overflows(HEADER_SIZE, ops) <==> Overflows(320, tail))
  {
    var s0 := State(header, 0, false);
    var s1, s2, s3 := State(header + [0], 12, false), State(header + [0] + [1], 13, false), State(header + [0] + [1] + [1], 14, false);
    var s4 := State(s3.out + [13], 14, false);
    var s5 := State(s4.out + (LengthPrefix(300) + info), 14, false);
    assert s1 == Step(s0, Open) && s2 == Step(s1, Open) && s3 == Step(s2, Open);
    assert s4 == Step(s3, PutByte(13)) && s5 == Step(s4, PutPrestruct(info));
    assert AfterOpening(header, info) == Step(s5, Open);
    assert Width(Open) == 1 && Width(PutPrestruct(info)) == 303 && Width(PutByte(13)) == 1;
    hide Step, Width, AfterOpening, LengthPrefix, Run, Balanced, WritesFit, Overflows;
    var o6 := [Open] + tail;
    var o5 := [PutPrestruct(info)] + o6;
    var o4 := [PutByte(13)] + o5;
    Cons(Open, tail, s5, 319, 3);
    Cons(PutPrestruct(info), o6, s4, 16, 3);
    Cons(PutByte(13), o5, s3, 15, 3);
    Cons(Open, o4, s2, 14, 2);
    Cons(Open, [Open] + o4, s1, 13, 1);
    Cons(Open, [Open] + ([Open] + o4), s0, 12, 0);
  }

  /**
   Over-long structures may even reach the header: with 255 at the right place the lengths
   taken for back-offsets lead into the application id, and a length is written over it.
   */
  lemma HeaderMayBeLost(header: seq<byte>, info: seq<byte>)
    requires |header| == HEADER_SIZE && |info| == 300 && info[251] == 255
    ensures var ops := NestedFormat(info);
      && ValidOps(ops) && Balanced(ops, 0) && WritesFit(HEADER_SIZE, ops) && !Overflows(HEADER_SIZE, ops)
      && var r := Run(State(header, 0, false), ops).out; |r| == 320 && r[2] == 61
  {
    var out := AfterOpening(header, info).out;
    assert |out| == 320 && out[319] == 49 && out[270] == info[251] && out[15] == 13;
    hide Step, Run, Balanced, WritesFit, Overflows;
    FourCloses(out, 320);
    OpeningSteps(header, info, CLOSES);
  }

  function Header(length: int, applId: int, command: int, id: int, number: int): (s: seq<byte>)
    ensures |s| == HEADER_SIZE
  {
    Word(length) + Word(applId) + [Low(command / 256), Low(command)] + Word(number) + DWord(id)
  }

  /** Copies a counted string to the write pointer. */
  method CopyIn(msg: array<byte>, p: nat, src: seq<byte>) returns (q: nat)
    requires p + |src| <= msg.Length
    modifies msg
    ensures q == p + |src| && msg[..q] == old(msg[..p]) + src
  {
    q := p;
    var j := 0;
    while j < |src|
      invariant 0 <= j <= |src| && q == p + j
      invariant msg[..q] == old(msg[..p]) + src[..j]
    {
      msg[q] := src[j];
      q := q + 1;
      j := j + 1;
    }
  }

  /** Copies a string one byte ahead of the pointer, then fills in the length behind it. */
  method PutText(msg: array<byte>, p: nat, text: seq<byte>) returns (q: nat)
    requires p + 1 + |text| <= msg.Length
    modifies msg
    ensures q == p + 1 + |text| && msg[..q] == old(msg[..p]) + [Low(|text|)] + text
  {
    q := p;
    var j := 0;
    while j < |text|
      invariant 0 <= j <= |text| && q == p + j
      invariant msg[..p] == old(msg[..p])
      invariant msg[p + 1..q + 1] == text[..j]
    {
      q := q + 1;
      msg[q] := text[j];
      j := j + 1;
    }
    msg[q - j] := Low(j);
    q := q + 1;
    assert msg[..q] == msg[..p] + [msg[p]] + msg[p + 1..q];
  }

  /** A word or double word, low byte first. */
  method PutLittleEndian(msg: array<byte>, p: nat, d: int, width: nat) returns (q: nat)
    requires width == 2 || width == 4
    requires p + width <= msg.Length
    modifies msg
    ensures q == p + width && msg[..q] == old(msg[..p]) + (if width == 2 then Word(d) else DWord(d))
    ensures msg[q..] == old(msg[p + width..])
  {
    q := p;
    msg[q] := Low(d);
    msg[q + 1] := Low(d / 256);
    q := q + 2;
    if width == 4 {
      msg[q] := Low(d / 65536);
      msg[q + 1] := Low(d / 16777216);
      q := q + 2;
    }
  }

  method PutPrefixed(msg: array<byte>, p: nat, info: seq<byte>) returns (q: nat)
    requires |info| <= 0xffff && p + |LengthPrefix(|info|)| + |info| <= msg.Length
    modifies msg
    ensures q == p + |LengthPrefix(|info|)| + |info|
    ensures msg[..q] == old(msg[..p]) + (LengthPrefix(|info|) + info)
  {
    if |info| < 0xff {
      msg[p] := |info|;
      q := p + 1;
    } else {
      msg[p] := 0xff;
      q := PutLittleEndian(msg, p + 1, |info|, 2);
    }
    assert msg[..q] == old(msg[..p]) + LengthPrefix(|info|);
    q := CopyIn(msg, q, info);
  }

  /** A structure that is handed over: a zero byte for none, else its length byte and what that counts. */
  method PutBlock(msg: array<byte>, p: nat, block: seq<byte>) returns (q: nat)
    requires ValidOp(PutStruct(block)) && p + Width(PutStruct(block)) <= msg.Length
    modifies msg
    ensures q == p + Width(PutStruct(block)) && msg[..q] == old(msg[..p]) + LeafBytes(PutStruct(block))
  {
    if block == [] {
      msg[p] := 0;
      q := p + 1;
    } else {
      q := CopyIn(msg, p, block[..1 + block[0] as int]);
    }
  }

  method PutLeaf(msg: array<byte>, p: nat, op: Op) returns (q: nat)
    requires ValidOp(op) && !op.Open? && !op.Close? && p + Width(op) <= msg.Length
    modifies msg
    ensures q == p + Width(op) && msg[..q] == old(msg[..p]) + LeafBytes(op)
  {
    hide Low, LengthPrefix;
    match op
    case PutByte(b) =>
      msg[p] := Low(b);
      q := p + 1;
    case PutWord(w) =>
      q := PutLittleEndian(msg, p, w, 2);
    case PutDWord(d) =>
      q := PutLittleEndian(msg, p, d, 4);
    case PutStruct(block) =>
      q := PutBlock(msg, p, block);
    case PutAscii(text) =>
      q := PutText(msg, p, text);
      assert old(msg[..p]) + [Low(|text|)] + text == old(msg[..p]) + ([Low(|text|)] + text);
    case PutPrestruct(info) =>
      q := PutPrefixed(msg, p, info);
    case Unknown =>
      q := p;
  }

  /** Opening and closing keep the innermost open structure in `pLength` alone. */
  method PutParenthesis(msg: array<byte>, p: nat, pLength: nat, warned: bool, op: Op)
    returns (q: nat, ql: nat, complaint: bool)
    requires op.Open? || op.Close?
    requires p + Width(op) <= msg.Length && (pLength == 0 || pLength < p)
    modifies msg
    ensures q <= msg.Length
    ensures State(msg[..q], ql, complaint) == Step(State(old(msg[..p]), pLength, warned), op)
  {
    q, ql, complaint := p, pLength, warned;
    if op.Open? {
      msg[p] := if pLength != 0 then Low(p - pLength) else 0;
      ql := p;
      q := p + 1;
    } else if pLength != 0 {
      var j := msg[pLength];
      msg[pLength] := Low(p - pLength - 1);
      ql := if j != 0 && j <= pLength then pLength - j else 0;
    } else {
      complaint := true;
    }
  }

  /** One format character */
  method PutField(msg: array<byte>, p: nat, pLength: nat, warned: bool, op: Op)
    returns (q: nat, ql: nat, complaint: bool)
    requires ValidOp(op) && p + Width(op) <= msg.Length && (pLength == 0 || pLength < p)
    modifies msg
    ensures q == p + Width(op) && (ql == 0 || ql < q)
    ensures State(msg[..q], ql, complaint) == Step(State(old(msg[..p]), pLength, warned), op)
  {
    hide LeafBytes;
    if op.Open? || op.Close? {
      q, ql, complaint := PutParenthesis(msg, p, pLength, warned, op);
      assert op.Close? ==> LeafBytes(op) == [];
    } else {
      LeafStep(State(msg[..p], pLength, warned), op);
      q := PutLeaf(msg, p, op);
      ql, complaint := pLength, warned || op.Unknown?;
    }
  }

  /** The loop over the format, starting behind the header. */
  method WriteFields(msg: array<byte>, ops: seq<Op>) returns (ok: bool, p: nat, pLength: nat, warned: bool)
    requires msg.Length == MSG_SIZE && ValidOps(ops) && WritesFit(HEADER_SIZE, ops)
    modifies msg
    ensures ok <==> !Overflows(HEADER_SIZE, ops)
    ensures HEADER_SIZE <= p <= MSG_SIZE
    ensures ok ==> State(msg[..p], pLength, warned) == Run(State(old(msg[..HEADER_SIZE]), 0, false), ops)
  {
    ok, p, pLength, warned := true, HEADER_SIZE, 0, false;
    ghost var start := State(msg[..HEADER_SIZE], 0, false);
    assert ops[0..] == ops && ops[..0] == [] && Run(start, []) == start && Overflows(p, []) == false;
    hide *;
    var i := 0;
    while i < |ops|
      invariant 0 <= i <= |ops| && HEADER_SIZE <= p <= MSG_SIZE
      invariant pLength == 0 || pLength < p
      invariant State(msg[..p], pLength, warned) == Run(start, ops[..i])
      invariant Overflows(HEADER_SIZE, ops) == Overflows(p, ops[i..])
      invariant WritesFit(p, ops[i..])
    {
      AdvanceRun(start, ops, i);
      AdvanceGuard(ops, i, p);
      if p + SAFETY_MARGIN >= MSG_SIZE {
        ok := false;
        return;
      }
      p, pLength, warned := PutField(msg, p, pLength, warned, ops[i]);
      i := i + 1;
    }
    assert ops[..i] == ops;
  }

  lemma AdvanceRun(start: State, ops: seq<Op>, i: nat)
    requires start.Valid() && ValidOps(ops) && i < |ops|
    ensures Run(start, ops[..i + 1]) == Step(Run(start, ops[..i]), ops[i])
  {
    assert ops[..i + 1] == ops[..i] + [ops[i]];
    RunSnoc(start, ops[..i], ops[i]);
  }

  lemma AdvanceGuard(ops: seq<Op>, i: nat, p: nat)
    requires ValidOps(ops) && i < |ops|
    ensures Overflows(p, ops[i..]) == (p + SAFETY_MARGIN >= MSG_SIZE || Overflows(p + Width(ops[i]), ops[i + 1..]))
    ensures WritesFit(p, ops[i..]) == (p + SAFETY_MARGIN >= MSG_SIZE
      || (p + Width(ops[i]) <= MSG_SIZE && WritesFit(p + Width(ops[i]), ops[i + 1..])))
  {
    assert ops[i..][0] == ops[i] && ops[i..][1..] == ops[i + 1..];
  }

  /** Where the parts of the header stand */
  lemma HeaderParts(s: seq<byte>, length: int, applId: int, command: int, id: int, number: int)
    requires |s| >= HEADER_SIZE && s[..HEADER_SIZE] == Header(length, applId, command, id, number)
    ensures ReadWord(s[2..]) == applId % 0x1_0000
    ensures s[4] as int == command / 256 % 256 && s[5] as int == command % 256
    ensures ReadWord(s[6..]) == number % 0x1_0000 && ReadDWord(s[8..]) == id % 0x1_0000_0000
  {
    var h := s[..HEADER_SIZE];
    ReadWordOfWord(applId);
    ReadWordOfWord(number);
    ReadDWordOfDWord(id);
    assert h[2..4] == Word(applId) && h[6..8] == Word(number) && h[8..12] == DWord(id);
    hide Word, DWord;
    assert s[2..][0] == h[2..4][0] && s[2..][1] == h[2..4][1] && s[6..][0] == h[6..8][0] && s[6..][1] == h[6..8][1];
    assert forall k :: 0 <= k < 4 ==> s[8..][k] == h[8..12][k];
  }

  /** The header behind the length word, which is set at the end */
  method PutHeader(msg: array<byte>, applId: nat, command: nat, id: nat, number: nat)
    requires msg.Length == MSG_SIZE && msg[..2] == Word(0)
    modifies msg
    ensures msg[..HEADER_SIZE] == Header(0, applId, command, id, number)
  {
    var p := PutLittleEndian(msg, 2, applId, 2);
    msg[4], msg[5] := Low(command / 256), Low(command);
    assert msg[..6] == Word(0) + Word(applId) + [Low(command / 256), Low(command)];
    hide Word, DWord, Low;
    p := PutLittleEndian(msg, 6, number, 2);
    p := PutLittleEndian(msg, 8, id, 4);
  }

  /**
   capi_sendf up to handing the message over: the header, the fields, the length word.
   `warned` collects the three complaints about the format, none of which stops the message.
   */
  method Sendf(applId: nat, command: nat, id: nat, number: nat, ops: seq<Op>)
    returns (r: SendResult, warned: bool)
    requires ValidOps(ops) && WritesFit(HEADER_SIZE, ops)
    ensures r.TooBig? <==> Overflows(HEADER_SIZE, ops)
    ensures r.Sent? ==>
      var st := Run(State(Header(0, applId, command, id, number), 0, false), ops);
      |st.out| >= HEADER_SIZE
      && r.message == Word(|st.out|) + st.out[2..]
      && warned == (st.warned || st.pl != 0)
    ensures r.Sent? && (Behind(State(Header(0, applId, command, id, number), 0, false), ops, HEADER_SIZE)
                        || (Balanced(ops, 0) && ShortGroups(ReadForest(ops).0))) ==>
      var m := r.message;
      |m| >= 12 && ReadWord(m) == |m| % 0x1_0000 && ReadWord(m[2..]) == applId % 0x1_0000
      && m[4] as int == command / 256 % 256 && m[5] as int == command % 256
      && ReadWord(m[6..]) == number % 0x1_0000 && ReadDWord(m[8..]) == id % 0x1_0000_0000
  {
    var msg := new byte[MSG_SIZE](_ => 0);
    assert msg[..2] == Word(0);
    PutHeader(msg, applId, command, id, number);
    var ok, p, pLength;
    ok, p, pLength, warned := WriteFields(msg, ops);
    if !ok {
      return TooBig, warned;
    }
    warned := warned || pLength != 0;
    ghost var out := msg[..p];
    label Before:
    var q := PutLittleEndian(msg, 0, p, 2);
    assert msg[..p] == msg[..2] + msg[2..][..p - 2];
    assert out[2..] == old@Before(msg[2..])[..p - 2];
    r := Sent(msg[..p]);
    ghost var start := State(Header(0, applId, command, id, number), 0, false);
    if Behind(start, ops, HEADER_SIZE) || (Balanced(ops, 0) && ShortGroups(ReadForest(ops).0)) {
      HeaderStays(start, ops);
      SentHeader(out, r.message, applId, command, id, number);
    }
  }

  lemma HeaderStays(st: State, ops: seq<Op>)
    requires |st.out| == HEADER_SIZE && st.pl == 0 && !st.warned && ValidOps(ops)
    requires Behind(st, ops, HEADER_SIZE) || (Balanced(ops, 0) && ShortGroups(ReadForest(ops).0))
    ensures |Run(st, ops).out| >= HEADER_SIZE && Run(st, ops).out[..HEADER_SIZE] == st.out
  {
    if Behind(st, ops, HEADER_SIZE) {
      FrontIsKeptExactly(st, ops, HEADER_SIZE);
      assert ops[..|ops|] == ops;
    } else {
      EncodesIffShortGroups(st.out, ops);
    }
  }

  lemma SentHeader(out: seq<byte>, m: seq<byte>, applId: nat, command: nat, id: nat, number: nat)
    requires |out| >= HEADER_SIZE && out[..HEADER_SIZE] == Header(0, applId, command, id, number)
    requires m == Word(|out|) + out[2..]
    ensures |m| == |out| && ReadWord(m) == |m| % 0x1_0000
    ensures ReadWord(m[2..]) == applId % 0x1_0000 && m[4] as int == command / 256 % 256 && m[5] as int == command % 256
    ensures ReadWord(m[6..]) == number % 0x1_0000 && ReadDWord(m[8..]) == id % 0x1_0000_0000
  {
    HeaderParts(out, 0, applId, command, id, number);
    ReadWordOfWord(|out|);
    hide Word, Header;
    assert m[2..] == out[2..] && m[6..] == out[6..] && m[8..] == out[8..];
    assert m[0] == Word(|out|)[0] && m[1] == Word(|out|)[1] && m[4] == out[4] && m[5] == out[5];
  }

}
