/** Types as text: the explicit-stack printer, the explicit-stack parser, and when they undo each other.
    Text is a sequence of tokens; a printed number or name is read back as one token of its own kind. */
module TypeText {
  import opened Excerpts
  import opened Wrappers

  datatype Kind =
    | Bool | Byte | Int8 | Int16 | UInt16 | Int32 | UInt32 | Int64 | UInt64 | Int128 | UInt128
    | Float16 | Float32 | Float64 | BFloat16 | Text | Uuid | Timestamp | Duration

  // A name has one or more parts, joined by dots.
  datatype Type =
    | Scalar(kind: Kind)
    | Defined(name: seq<string>)
    | Array(element: Type)
    | FixedArray(element: Type, size: int)
    | Map(key: Type, value: Type)

  // Number carries the parsed value, None when the literal is malformed.
  datatype Token =
    | Identifier(text: string) | Number(parsed: Option<int>)
    | MapWord | LBracket | RBracket | Comma | Dot | Other | Eof

  const MAX_DEPTH: nat := 64
  const MAX_FIXED_SIZE: int := 65535
  const NAME_BUFFER: nat := 512
  const PRINT_STACK: nat := 128
  const PARSE_STACK: nat := 128

  // ---------- names ----------

  function Spelling(k: Kind): string {
    match k
    case Bool => "bool"
    case Byte => "byte"
    case Int8 => "int8"
    case Int16 => "int16"
    case UInt16 => "uint16"
    case Int32 => "int32"
    case UInt32 => "uint32"
    case Int64 => "int64"
    case UInt64 => "uint64"
    case Int128 => "int128"
    case UInt128 => "uint128"
    case Float16 => "float16"
    case Float32 => "float32"
    case Float64 => "float64"
    case BFloat16 => "bfloat16"
    case Text => "string"
    case Uuid => "uuid"
    case Timestamp => "timestamp"
    case Duration => "duration"
  }

  // The parser's table: the spellings above, then the aliases.
  const SCALAR_TABLE: seq<(string, Kind)> := [
    ("bool", Bool), ("byte", Byte), ("int8", Int8), ("int16", Int16), ("uint16", UInt16), ("int32", Int32),
    ("uint32", UInt32), ("int64", Int64), ("uint64", UInt64), ("int128", Int128), ("uint128", UInt128),
    ("float16", Float16), ("float32", Float32), ("float64", Float64), ("bfloat16", BFloat16), ("string", Text),
    ("uuid", Uuid), ("timestamp", Timestamp), ("duration", Duration),
    ("uint8", Byte), ("sbyte", Int8), ("half", Float16), ("bf16", BFloat16), ("guid", Uuid)]

  // The first entry from i on with this name.
  function LookupFrom(name: string, i: nat): Option<Kind>
    requires i <= |SCALAR_TABLE|
    decreases |SCALAR_TABLE| - i
  {
    if i == |SCALAR_TABLE| then None
    else if SCALAR_TABLE[i].0 == name then Some(SCALAR_TABLE[i].1)
    else LookupFrom(name, i + 1)
  }

  function LookupScalar(name: string): Option<Kind> { LookupFrom(name, 0) }

  function Position(k: Kind): nat {
    match k
    case Bool => 0
    case Byte => 1
    case Int8 => 2
    case Int16 => 3
    case UInt16 => 4
    case Int32 => 5
    case UInt32 => 6
    case Int64 => 7
    case UInt64 => 8
    case Int128 => 9
    case UInt128 => 10
    case Float16 => 11
    case Float32 => 12
    case Float64 => 13
    case BFloat16 => 14
    case Text => 15
    case Uuid => 16
    case Timestamp => 17
    case Duration => 18
  }

  lemma InTable(k: Kind)
    ensures Position(k) < |SCALAR_TABLE| && SCALAR_TABLE[Position(k)] == (Spelling(k), k)
  {
  }

  lemma NamesDiffer(i: nat, j: nat)
    requires i < j < 19
    ensures |SCALAR_TABLE| == 24 && SCALAR_TABLE[i].0 != SCALAR_TABLE[j].0
  {
  }

  lemma {:induction false} LookupReaches(k: Kind, i: nat)
    requires i <= Position(k) < |SCALAR_TABLE|
    ensures LookupFrom(Spelling(k), i) == Some(k)
    decreases Position(k) - i
  {
    hide Spelling, Position;
    InTable(k);
    if i < Position(k) {
      PositionBound(k);
      NamesDiffer(i, Position(k));
      LookupReaches(k, i + 1);
    }
  }

  lemma PositionBound(k: Kind)
    ensures Position(k) < 19 < |SCALAR_TABLE|
  {
  }

  // Every printed scalar name is read back as the same scalar, aliases notwithstanding.
  lemma SpellingRead(k: Kind)
    ensures LookupScalar(Spelling(k)) == Some(k)
  {
    InTable(k);
    LookupReaches(k, 0);
  }

  // ---------- the printed text ----------

  function NameTokens(name: seq<string>): seq<Token> {
    if name == [] then []
    else if |name| == 1 then [Identifier(name[0])]
    else NameTokens(name[..|name| - 1]) + [Dot, Identifier(name[|name| - 1])]
  }

  function SizeTokens(n: int): seq<Token> { [LBracket, Number(Some(n)), RBracket] }

  function Tokens(t: Type): seq<Token> {
    match t
    case Scalar(k) => [Identifier(Spelling(k))]
    case Defined(name) => NameTokens(name)
    case Array(e) => Tokens(e) + [LBracket, RBracket]
    case FixedArray(e, n) => Tokens(e) + SizeTokens(n)
    case Map(k, v) => [MapWord, LBracket] + Tokens(k) + [Comma] + Tokens(v) + [RBracket]
  }

  // ---------- the printer ----------

  datatype Action = Visit(t: Type) | ArraySuffix | FixedSuffix(size: int) | MapComma | MapClose

  // What the printer ends with. Overrun stands for a write behind the end of its stack, after which nothing
  // can be said.
  datatype Printout = Output(tokens: seq<Token>) | Overrun

  // What is printed for t when sp entries lie below it. Where the stack check fails the printer leaves the
  // rest of the type out without a word.
  function Printed(t: Type, sp: nat): seq<Token> {
    match t
    case Scalar(k) => [Identifier(Spelling(k))]
    case Defined(name) => NameTokens(name)
    case Array(e) => if sp + 2 > PRINT_STACK then [] else Printed(e, sp + 1) + [LBracket, RBracket]
    case FixedArray(e, n) => if sp + 2 > PRINT_STACK then [] else Printed(e, sp + 1) + SizeTokens(n)
    case Map(k, v) =>
      [MapWord, LBracket]
      + if sp + 4 > PRINT_STACK then [] else Printed(k, sp + 3) + [Comma] + Printed(v, sp + 1) + [RBracket]
  }

  // There is room for everything the printer pushes.
  predicate HasRoom(t: Type, sp: nat) {
    match t
    case Scalar(_) => true
    case Defined(_) => true
    case Array(e) => sp + 2 <= PRINT_STACK && HasRoom(e, sp + 1)
    case FixedArray(e, _) => sp + 2 <= PRINT_STACK && HasRoom(e, sp + 1)
    case Map(k, v) => sp + 4 <= PRINT_STACK && HasRoom(k, sp + 3) && HasRoom(v, sp + 1)
  }

  // The check for a map allows for three entries and four are pushed. This says that no map is visited where
  // exactly three fit.
  predicate NoOverrun(t: Type, sp: nat) {
    match t
    case Scalar(_) => true
    case Defined(_) => true
    case Array(e) => sp + 2 <= PRINT_STACK ==> NoOverrun(e, sp + 1)
    case FixedArray(e, _) => sp + 2 <= PRINT_STACK ==> NoOverrun(e, sp + 1)
    case Map(k, v) =>
      sp + 3 != PRINT_STACK && (sp + 3 < PRINT_STACK ==> NoOverrun(k, sp + 3) && NoOverrun(v, sp + 1))
  }

  function Printing(t: Type): Printout { if NoOverrun(t, 0) then Output(Printed(t, 0)) else Overrun }

  function ActionText(a: Action, sp: nat): seq<Token> {
    match a
    case Visit(t) => Printed(t, sp)
    case ArraySuffix => [LBracket, RBracket]
    case FixedSuffix(n) => SizeTokens(n)
    case MapComma => [Comma]
    case MapClose => [RBracket]
  }

  // The text that the entries of a stack still lead to, top first.
  function Pending(stack: seq<Action>): seq<Token> {
    if stack == [] then []
    else
      var sp := |stack| - 1;
      ActionText(stack[sp], sp) + Pending(stack[..sp])
  }

  predicate StackOk(stack: seq<Action>) {
    forall i :: 0 <= i < |stack| && stack[i].Visit? ==> NoOverrun(stack[i].t, i)
  }

  lemma PendingPush(stack: seq<Action>, a: Action)
    ensures Pending(stack + [a]) == ActionText(a, |stack|) + Pending(stack)
  {
    assert (stack + [a])[..|stack|] == stack;
  }

  function ActionSize(a: Action): nat {
    if a.Visit? then TypeSize(a.t) else 1
  }

  // The number of entries that visiting t takes off the stack.
  function TypeSize(t: Type): nat {
    match t
    case Scalar(_) => 1
    case Defined(_) => 1
    case Array(e) => 2 + TypeSize(e)
    case FixedArray(e, _) => 2 + TypeSize(e)
    case Map(k, v) => 3 + TypeSize(k) + TypeSize(v)
  }

  function Work(stack: seq<Action>): nat {
    if stack == [] then 0 else ActionSize(stack[|stack| - 1]) + Work(stack[..|stack| - 1])
  }

  lemma WorkPush(stack: seq<Action>, a: Action)
    ensures Work(stack + [a]) == ActionSize(a) + Work(stack)
  {
    assert (stack + [a])[..|stack|] == stack;
  }

  // The entries pushed for a type, in place of its visit.
  function Pushed(t: Type, sp: nat): seq<Action> {
    match t
    case Scalar(_) => []
    case Defined(_) => []
    case Array(e) => if sp + 2 > PRINT_STACK then [] else [ArraySuffix, Visit(e)]
    case FixedArray(e, n) => if sp + 2 > PRINT_STACK then [] else [FixedSuffix(n), Visit(e)]
    case Map(k, v) => if sp + 4 > PRINT_STACK then [] else [MapClose, Visit(v), MapComma, Visit(k)]
  }

  function Emitted(t: Type): seq<Token> {
    match t
    case Scalar(k) => [Identifier(Spelling(k))]
    case Defined(name) => NameTokens(name)
    case Array(_) => []
    case FixedArray(_, _) => []
    case Map(_, _) => [MapWord, LBracket]
  }

  lemma Flatten<T>(a: seq<T>, b: seq<T>, c: seq<T>, d: seq<T>, rest: seq<T>)
    ensures a + b + (c + d + rest) == a + b + c + d + rest
  {
  }

  lemma PushFour(stack: seq<Action>, a: Action, b: Action, c: Action, d: Action)
    ensures var sp, next := |stack|, stack + [a, b, c, d];
            && Pending(next) == ActionText(d, sp + 3) + ActionText(c, sp + 2) + ActionText(b, sp + 1)
                                + ActionText(a, sp) + Pending(stack)
            && Work(next) == ActionSize(a) + ActionSize(b) + ActionSize(c) + ActionSize(d) + Work(stack)
  {
    hide Pending, Work, ActionText, ActionSize;
    PushTwo(stack, a, b);
    PushTwo(stack + [a, b], c, d);
    var sp := |stack|;
    Flatten(ActionText(d, sp + 3), ActionText(c, sp + 2), ActionText(b, sp + 1), ActionText(a, sp), Pending(stack));
    assert stack + [a, b] + [c, d] == stack + [a, b, c, d];
  }

  lemma PushTwo(stack: seq<Action>, a: Action, b: Action)
    ensures var sp, next := |stack|, stack + [a, b];
            && Pending(next) == ActionText(b, sp + 1) + ActionText(a, sp) + Pending(stack)
            && Work(next) == ActionSize(a) + ActionSize(b) + Work(stack)
  {
    hide Pending, Work, ActionText, ActionSize;
    PendingPush(stack, a);
    PendingPush(stack + [a], b);
    WorkPush(stack, a);
    WorkPush(stack + [a], b);
    assert stack + [a] + [b] == stack + [a, b];
  }

  lemma Regroup<T>(a: seq<T>, b: seq<T>, c: seq<T>, d: seq<T>, e: seq<T>, rest: seq<T>)
    ensures a + (b + c + d + e + rest) == a + (b + c + d + e) + rest
  {
  }

  lemma VisitMap(stack: seq<Action>, k: Type, v: Type)
    requires |stack| + 4 <= PRINT_STACK
    ensures var next := stack + [MapClose, Visit(v), MapComma, Visit(k)];
            && Work(next) < Work(stack + [Visit(Map(k, v))])
            && [MapWord, LBracket] + Pending(next) == Pending(stack + [Visit(Map(k, v))])
  {
    hide Pending, Work, NameTokens, Spelling, SizeTokens;
    var sp, start, one, two := |stack|, [MapWord, LBracket], [Comma], [RBracket];
    PendingPush(stack, Visit(Map(k, v)));
    WorkPush(stack, Visit(Map(k, v)));
    PushFour(stack, MapClose, Visit(v), MapComma, Visit(k));
    Regroup(start, Printed(k, sp + 3), one, Printed(v, sp + 1), two, Pending(stack));
    assert Printed(Map(k, v), sp) == start + (Printed(k, sp + 3) + one + Printed(v, sp + 1) + two);
  }

  lemma VisitArray(stack: seq<Action>, t: Type)
    requires |stack| + 2 <= PRINT_STACK && (t.Array? || t.FixedArray?)
    ensures var next := stack + [if t.Array? then ArraySuffix else FixedSuffix(t.size), Visit(t.element)];
            && Work(next) < Work(stack + [Visit(t)])
            && [] + Pending(next) == Pending(stack + [Visit(t)])
  {
    hide Pending, Work, SizeTokens;
    PendingPush(stack, Visit(t));
    WorkPush(stack, Visit(t));
    PushTwo(stack, if t.Array? then ArraySuffix else FixedSuffix(t.size), Visit(t.element));
  }

  // A type that is printed at once, or dropped because there is no room.
  lemma VisitLeaf(stack: seq<Action>, t: Type)
    requires Pushed(t, |stack|) == []
    ensures Work(stack) < Work(stack + [Visit(t)])
    ensures Emitted(t) + Pending(stack) == Pending(stack + [Visit(t)])
  {
    hide Pending, Work, SizeTokens, NameTokens, Spelling;
    PendingPush(stack, Visit(t));
    WorkPush(stack, Visit(t));
    assert Printed(t, |stack|) == Emitted(t);
  }

  lemma VisitPrints(stack: seq<Action>, t: Type)
    ensures var next := stack + Pushed(t, |stack|);
            && Work(next) < Work(stack + [Visit(t)])
            && Emitted(t) + Pending(next) == Pending(stack + [Visit(t)])
  {
    hide Pending, Work, Printed;
    if Pushed(t, |stack|) == [] {
      VisitLeaf(stack, t);
      assert stack + [] == stack;
    } else if t.Map? {
      VisitMap(stack, t.key, t.value);
    } else {
      VisitArray(stack, t);
    }
  }

  lemma StackOkPush(stack: seq<Action>, a: Action)
    ensures StackOk(stack + [a]) <==> StackOk(stack) && (a.Visit? ==> NoOverrun(a.t, |stack|))
  {
    var next := stack + [a];
    assert next[|stack|] == a && forall i :: 0 <= i < |stack| ==> next[i] == stack[i];
  }

  // Visiting t keeps it open whether the stack overruns later, unless it overruns at once.
  lemma VisitFits(stack: seq<Action>, t: Type)
    requires |stack| < PRINT_STACK
    ensures |stack + Pushed(t, |stack|)| <= PRINT_STACK
    ensures StackOk(stack + [Visit(t)]) <==>
              !(t.Map? && |stack| + 3 == PRINT_STACK) && StackOk(stack + Pushed(t, |stack|))
  {
    hide StackOk;
    var sp := |stack|;
    StackOkPush(stack, Visit(t));
    match t
    case Scalar(_) => assert stack + [] == stack;
    case Defined(_) => assert stack + [] == stack;
    case Array(e) =>
      assert stack + [] == stack;
      FitTwo(stack, ArraySuffix, Visit(e));
    case FixedArray(e, n) =>
      assert stack + [] == stack;
      FitTwo(stack, FixedSuffix(n), Visit(e));
    case Map(k, v) =>
      assert stack + [] == stack;
      FitTwo(stack, MapClose, Visit(v));
      FitTwo(stack + [MapClose, Visit(v)], MapComma, Visit(k));
      assert stack + [MapClose, Visit(v)] + [MapComma, Visit(k)] == stack + [MapClose, Visit(v), MapComma, Visit(k)];
  }

  lemma FitTwo(stack: seq<Action>, a: Action, b: Action)
    requires !a.Visit? && b.Visit?
    ensures StackOk(stack + [a, b]) <==> StackOk(stack) && NoOverrun(b.t, |stack| + 1)
  {
    hide StackOk, NoOverrun;
    StackOkPush(stack, a);
    StackOkPush(stack + [a], b);
    assert stack + [a] + [b] == stack + [a, b];
  }

  // What taking the top entry off the stack, and pushing what it stands for, leaves to be printed.
  lemma PopPrints(out: seq<Token>, rest: seq<Action>, frame: Action, whole: seq<Token>)
    requires |rest| < PRINT_STACK && out + Pending(rest + [frame]) == whole
    ensures !frame.Visit? ==>
              && out + ActionText(frame, |rest|) + Pending(rest) == whole
              && (StackOk(rest + [frame]) <==> StackOk(rest))
              && Work(rest) < Work(rest + [frame])
    ensures frame.Visit? ==>
              var next := rest + Pushed(frame.t, |rest|);
              && out + Emitted(frame.t) + Pending(next) == whole && |next| <= PRINT_STACK
              && (StackOk(rest + [frame]) <==> !(frame.t.Map? && |rest| + 3 == PRINT_STACK) && StackOk(next))
              && Work(next) < Work(rest + [frame])
  {
    hide Pending, Work, StackOk, Printed, NoOverrun, Pushed, Emitted, ActionText;
    if frame.Visit? {
      VisitPrints(rest, frame.t);
      VisitFits(rest, frame.t);
      Joined(out, Emitted(frame.t), Pending(rest + Pushed(frame.t, |rest|)));
    } else {
      PendingPush(rest, frame);
      WorkPush(rest, frame);
      StackOkPush(rest, frame);
      Joined(out, ActionText(frame, |rest|), Pending(rest));
    }
  }

  lemma Joined<T>(a: seq<T>, b: seq<T>, c: seq<T>)
    ensures a + (b + c) == a + b + c
  {
  }

  // The printer prints what Printed says, and overruns its stack exactly on the other types.
  method EmitType(t: Type) returns (r: Printout)
    ensures r == Printing(t)
  {
    hide Pending, Work, StackOk, Printed, NoOverrun, Pushed, Emitted, Spelling, SizeTokens;
    var stack := new Action[PRINT_STACK](_ => MapComma);
    var sp: nat := 1;
    stack[0] := Visit(t);
    var out := [];
    Begin(t);
    assert stack[..1] == [Visit(t)];
    while sp > 0
      invariant sp <= PRINT_STACK == stack.Length
      invariant (NoOverrun(t, 0) <==> StackOk(stack[..sp])) && out + Pending(stack[..sp]) == Printed(t, 0)
      decreases Work(stack[..sp])
    {
      sp := sp - 1;
      var frame := stack[sp];
      ghost var rest := stack[..sp];
      assert stack[..sp + 1] == rest + [frame];
      PopPrints(out, rest, frame, Printed(t, 0));
      match frame
      case Visit(u) =>
        out := out + Emitted(u);
        if u.Map? && sp + 3 == PRINT_STACK { return Overrun; }
        sp := PushAll(stack, sp, u);
      case ArraySuffix => out := out + [LBracket, RBracket];
      case FixedSuffix(n) => out := out + SizeTokens(n);
      case MapComma => out := out + [Comma];
      case MapClose => out := out + [RBracket];
    }
    EmptyPending(stack[..sp]);
    return Output(out);
  }

  lemma Begin(t: Type)
    ensures (NoOverrun(t, 0) <==> StackOk([Visit(t)])) && Pending([Visit(t)]) == Printed(t, 0)
  {
    PendingPush([], Visit(t));
  }

  lemma EmptyPending(stack: seq<Action>)
    requires stack == []
    ensures Pending(stack) == [] && StackOk(stack)
  {
  }

  method PushAll(stack: array<Action>, sp: nat, t: Type) returns (newSp: nat)
    requires stack.Length == PRINT_STACK && sp + |Pushed(t, sp)| <= PRINT_STACK
    modifies stack
    ensures newSp <= PRINT_STACK && stack[..newSp] == old(stack[..sp]) + Pushed(t, sp)
  {
    newSp := sp;
    match t
    case Scalar(_) =>
    case Defined(_) =>
    case Array(e) =>
      if sp + 2 <= PRINT_STACK {
        stack[sp] := ArraySuffix;
        stack[sp + 1] := Visit(e);
        newSp := sp + 2;
      }
    case FixedArray(e, n) =>
      if sp + 2 <= PRINT_STACK {
        stack[sp] := FixedSuffix(n);
        stack[sp + 1] := Visit(e);
        newSp := sp + 2;
      }
    case Map(k, v) =>
      if sp + 4 <= PRINT_STACK {
        stack[sp] := MapClose;
        stack[sp + 1] := Visit(v);
        stack[sp + 2] := MapComma;
        stack[sp + 3] := Visit(k);
        newSp := sp + 4;
      }
  }

  // ---------- what is printed is the text of the type, or less ----------

  // The printer prints the whole type exactly when there is room; otherwise it prints less.
  lemma {:induction false} PrintedWhole(t: Type, sp: nat)
    ensures |Printed(t, sp)| <= |Tokens(t)|
    ensures HasRoom(t, sp) <==> Printed(t, sp) == Tokens(t)
    ensures HasRoom(t, sp) <==> |Printed(t, sp)| == |Tokens(t)|
  {
    hide Spelling, NameTokens;
    match t
    case Array(e) =>
      PrintedWhole(e, sp + 1);
      SameRest(Printed(e, sp + 1), Tokens(e), [LBracket, RBracket]);
    case FixedArray(e, n) =>
      PrintedWhole(e, sp + 1);
      SameRest(Printed(e, sp + 1), Tokens(e), SizeTokens(n));
    case Map(k, v) =>
      PrintedWhole(k, sp + 3);
      PrintedWhole(v, sp + 1);
    case _ =>
  }

  lemma SameRest<T>(a: seq<T>, b: seq<T>, rest: seq<T>)
    requires |a| <= |b|
    ensures |a + rest| <= |b + rest| && (a + rest == b + rest <==> a == b)
  {
    if a + rest == b + rest { assert a == (a + rest)[..|a|] == (b + rest)[..|b|] == b; }
  }

  // With room for all, the stack is not overrun.
  lemma {:induction false} RoomIsEnough(t: Type, sp: nat)
    requires HasRoom(t, sp)
    ensures NoOverrun(t, sp)
  {
    match t
    case Array(e) => RoomIsEnough(e, sp + 1);
    case FixedArray(e, _) => RoomIsEnough(e, sp + 1);
    case Map(k, v) =>
      RoomIsEnough(k, sp + 3);
      RoomIsEnough(v, sp + 1);
    case _ =>
  }

  function Max(a: nat, b: nat): nat { if a < b then b else a }

  // How many arrays and maps lie around the innermost type.
  function Nesting(t: Type): nat {
    match t
    case Scalar(_) => 0
    case Defined(_) => 0
    case Array(e) => 1 + Nesting(e)
    case FixedArray(e, _) => 1 + Nesting(e)
    case Map(k, v) => 1 + Max(Nesting(k), Nesting(v))
  }

  predicate ScalarKeys(t: Type) {
    match t
    case Scalar(_) => true
    case Defined(_) => true
    case Array(e) => ScalarKeys(e)
    case FixedArray(e, _) => ScalarKeys(e)
    case Map(k, v) => k.Scalar? && ScalarKeys(v)
  }

  // With scalar map keys the stack is never deeper than the nesting plus four.
  lemma {:induction false} ShallowHasRoom(t: Type, sp: nat)
    requires ScalarKeys(t) && sp + Nesting(t) + 3 < PRINT_STACK
    ensures HasRoom(t, sp)
  {
    match t
    case Array(e) => ShallowHasRoom(e, sp + 1);
    case FixedArray(e, _) => ShallowHasRoom(e, sp + 1);
    case Map(k, v) => ShallowHasRoom(v, sp + 1);
    case _ =>
  }

  // ---------- the parser ----------

  datatype Result = Failed | Parsed(t: Type, pos: nat)

  datatype NameResult = BadName | Name(parts: seq<string>, pos: nat)

  function TokenAt(ts: seq<Token>, pos: nat): Token {
    if pos < |ts| then ts[pos] else Eof
  }

  // The parts after the first one; length is the number of characters so far.
  function RestOfName(ts: seq<Token>, pos: nat, parts: seq<string>, length: nat): (r: NameResult)
    requires pos <= |ts|
    ensures r.Name? ==> pos <= r.pos <= |ts|
    decreases |ts| - pos
  {
    if TokenAt(ts, pos) != Dot then Name(parts, pos)
    else if !TokenAt(ts, pos + 1).Identifier? then BadName
    else
      var part := ts[pos + 1].text;
      if length + 1 + |part| >= NAME_BUFFER then BadName
      else RestOfName(ts, pos + 2, parts + [part], length + 1 + |part|)
  }

  function ParseName(ts: seq<Token>, pos: nat): (r: NameResult)
    requires pos < |ts| && ts[pos].Identifier?
    ensures r.Name? ==> pos < r.pos <= |ts|
  {
    var first := ts[pos].text;
    if TokenAt(ts, pos + 1) == Dot && |first| >= NAME_BUFFER then BadName
    else RestOfName(ts, pos + 1, [first], |first|)
  }

  // A type at this nesting depth.
  function ParseAt(ts: seq<Token>, pos: nat, depth: nat): (r: Result)
    requires pos <= |ts|
    ensures r.Parsed? ==> pos < r.pos <= |ts|
    decreases |ts| - pos, 1
  {
    if depth > MAX_DEPTH then Failed
    else
      match TokenAt(ts, pos)
      case MapWord =>
        if TokenAt(ts, pos + 1) != LBracket then Failed
        else AfterKey(ts, ParseAt(ts, pos + 2, depth + 1), depth, pos)
      case Identifier(text) =>
        var kind := LookupScalar(text);
        if kind.Some? then Suffixes(ts, Scalar(kind.value), pos + 1, depth)
        else
          var name := ParseName(ts, pos);
          if name.BadName? then Failed else Suffixes(ts, Defined(name.parts), name.pos, depth)
      case _ => Failed
  }

  // The map key ended with this result.
  function AfterKey(ts: seq<Token>, key: Result, depth: nat, ghost from: nat): (r: Result)
    requires from <= |ts| && (key.Parsed? ==> from < key.pos <= |ts|)
    ensures r.Parsed? ==> from < r.pos <= |ts|
    decreases |ts| - from, 0
  {
    if key.Failed? || TokenAt(ts, key.pos) != Comma then Failed
    else AfterValue(ts, key.t, ParseAt(ts, key.pos + 1, depth + 1), depth, key.pos)
  }

  function AfterValue(ts: seq<Token>, key: Type, value: Result, depth: nat, ghost from: nat): (r: Result)
    requires from <= |ts| && (value.Parsed? ==> from < value.pos <= |ts|)
    ensures r.Parsed? ==> from < r.pos <= |ts|
    decreases |ts| - from, 0
  {
    if value.Failed? || TokenAt(ts, value.pos) != RBracket then Failed
    else Suffixes(ts, Map(key, value.t), value.pos + 1, depth)
  }

  // The array suffixes. Each counts as one more level of the frame it stands in, but not of the frames
  // inside the type before it.
  function Suffixes(ts: seq<Token>, t: Type, pos: nat, depth: nat): (r: Result)
    requires pos <= |ts|
    ensures r.Parsed? ==> pos <= r.pos <= |ts|
    decreases |ts| - pos, 0
  {
    if TokenAt(ts, pos) != LBracket then Parsed(t, pos)
    else if depth + 1 > MAX_DEPTH then Failed
    else
      match TokenAt(ts, pos + 1)
      case Number(n) =>
        if n.None? || n.value < 1 || n.value > MAX_FIXED_SIZE || TokenAt(ts, pos + 2) != RBracket then Failed
        else Suffixes(ts, FixedArray(t, n.value), pos + 3, depth + 1)
      case RBracket => Suffixes(ts, Array(t), pos + 2, depth + 1)
      case _ => Failed
  }

  // ---------- the parser's loop ----------

  datatype ParseState = Base | MapKey | MapValue | ArraySuffixes | Finished

  // result is the type read so far in this frame, key the key of the map it reads.
  datatype ParseFrame = ParseFrame(state: ParseState, result: Type, key: Type, depth: nat)

  const NO_TYPE: Type := Scalar(Bool)

  // What the current frame comes to. In the two map states the frame above it, child, has just finished.
  function FrameResult(ts: seq<Token>, pos: nat, f: ParseFrame, child: Type): (r: Result)
    requires 0 < pos + (if f.state.Base? then 1 else 0) && pos <= |ts|
    ensures r.Parsed? ==> 0 < r.pos <= |ts|
  {
    match f.state
    case Base => ParseAt(ts, pos, f.depth)
    case MapKey => AfterKey(ts, Parsed(child, pos), f.depth, pos - 1)
    case MapValue => AfterValue(ts, f.key, Parsed(child, pos), f.depth, pos - 1)
    case ArraySuffixes => Suffixes(ts, f.result, pos, f.depth)
    case Finished => Parsed(f.result, pos)
  }

  // The frames below wait for a key or a value.
  function Resume(ts: seq<Token>, below: seq<ParseFrame>, r: Result): Result
    requires r.Parsed? ==> 0 < r.pos <= |ts|
    decreases |below|
  {
    if below == [] then r
    else
      var f := below[|below| - 1];
      var from := if r.Parsed? then r.pos - 1 else 0;
      Resume(ts, below[..|below| - 1],
             if f.state.MapKey? then AfterKey(ts, r, f.depth, from) else AfterValue(ts, f.key, r, f.depth, from))
  }

  lemma {:induction false} ResumeFailed(ts: seq<Token>, below: seq<ParseFrame>)
    ensures Resume(ts, below, Failed) == Failed
    decreases |below|
  {
    if below != [] { ResumeFailed(ts, below[..|below| - 1]); }
  }

  // A frame is as deep as its place in the stack at least, so the stack cannot outgrow the depth limit.
  ghost predicate FramesOk(frames: seq<ParseFrame>) {
    && frames != []
    && (forall i :: 0 <= i < |frames| ==> i <= frames[i].depth)
    && (forall i :: 0 <= i < |frames| - 1 ==> frames[i].depth <= MAX_DEPTH)
    && (forall i :: 0 <= i < |frames| - 1 ==> frames[i].state.MapKey? || frames[i].state.MapValue?)
  }

  ghost predicate Machine(ts: seq<Token>, frames: seq<ParseFrame>, child: Type, pos: nat, answer: Result) {
    && FramesOk(frames) && pos <= |ts|
    && var f := frames[|frames| - 1];
       && (!f.state.Base? ==> pos > 0 && f.depth <= MAX_DEPTH)
       && answer == Resume(ts, frames[..|frames| - 1], FrameResult(ts, pos, f, child))
  }

  // The current frame goes on at another state.
  lemma Continue(ts: seq<Token>, frames: seq<ParseFrame>, child: Type, pos: nat, answer: Result, f: ParseFrame, p: nat)
    requires Machine(ts, frames, child, pos, answer) && p <= |ts|
    requires f.depth >= frames[|frames| - 1].depth && !f.state.Base? && p > 0 && f.depth <= MAX_DEPTH
    requires FrameResult(ts, p, f, child) == FrameResult(ts, pos, frames[|frames| - 1], child)
    ensures Machine(ts, frames[|frames| - 1 := f], child, p, answer)
  {
    hide FrameResult, Resume;
    assert frames[|frames| - 1 := f][..|frames| - 1] == frames[..|frames| - 1];
  }

  // The current frame waits for a key or a value, which a new frame reads.
  lemma Descend(
      ts: seq<Token>, frames: seq<ParseFrame>, child: Type, pos: nat, answer: Result, f: ParseFrame, p: nat)
    requires Machine(ts, frames, child, pos, answer) && p <= |ts|
    requires f.depth == frames[|frames| - 1].depth <= MAX_DEPTH && (f.state.MapKey? || f.state.MapValue?) && p > 0
    requires FrameResult(ts, pos, frames[|frames| - 1], child) == Opened(ts, f, p)
    ensures Machine(ts, frames[|frames| - 1 := f] + [ParseFrame(Base, NO_TYPE, NO_TYPE, f.depth + 1)], NO_TYPE, p,
                    answer)
  {
    hide ParseAt, AfterKey, AfterValue;
    var top := |frames| - 1;
    var lower := frames[top := f];
    var next := lower + [ParseFrame(Base, NO_TYPE, NO_TYPE, f.depth + 1)];
    assert next[..top + 1] == lower && lower[..top] == frames[..top];
  }

  // The current frame is finished and the one below takes its result.
  lemma Ascend(ts: seq<Token>, frames: seq<ParseFrame>, child: Type, pos: nat, answer: Result)
    requires Machine(ts, frames, child, pos, answer) && |frames| > 1 && frames[|frames| - 1].state.Finished?
    ensures Machine(ts, frames[..|frames| - 1], frames[|frames| - 1].result, pos, answer)
  {
    hide AfterKey, AfterValue;
    var lower := frames[..|frames| - 1];
    assert lower[..|lower| - 1] == frames[..|frames| - 2];
  }

  lemma MachineFailed(ts: seq<Token>, frames: seq<ParseFrame>, child: Type, pos: nat, answer: Result)
    requires Machine(ts, frames, child, pos, answer)
    requires FrameResult(ts, pos, frames[|frames| - 1], child) == Failed
    ensures answer == Failed
  {
    hide FrameResult;
    ResumeFailed(ts, frames[..|frames| - 1]);
  }

  function Rank(state: ParseState): nat {
    match state
    case Base => 4
    case ArraySuffixes => 3
    case Finished => 2
    case MapKey => 1
    case MapValue => 1
  }

  // Only the states of a map read the type of the frame above.
  lemma ChildUnused(ts: seq<Token>, pos: nat, f: ParseFrame, a: Type, b: Type)
    requires pos <= |ts| && !f.state.Finished? && (f.state.MapKey? || f.state.MapValue? ==> a == b)
    ensures StepOf(ts, pos, f, a) == StepOf(ts, pos, f, b)
  {
    hide ParseName, LookupScalar;
  }

  // The type parser: any tokens, the same result as the recursive reading. Its check for a full stack
  // never fails.
  method ParseType(ts: seq<Token>, start: nat) returns (r: Result)
    requires start <= |ts|
    ensures r == ParseAt(ts, start, 0)
  {
    hide Machine, ParseAt, Resume, StepOf;
    ghost var answer := ParseAt(ts, start, 0);
    var frames := new ParseFrame[PARSE_STACK](_ => ParseFrame(Base, NO_TYPE, NO_TYPE, 0));
    var top: nat, pos: nat := 0, start;
    ghost var child := NO_TYPE;
    StartMachine(ts, start, NO_TYPE);
    assert frames[..1] == [ParseFrame(Base, NO_TYPE, NO_TYPE, 0)];
    while true
      invariant top < PARSE_STACK == frames.Length && pos <= |ts|
      invariant Machine(ts, frames[..top + 1], child, pos, answer)
      invariant frames[top].state.MapKey? || frames[top].state.MapValue? ==>
                  top + 1 < PARSE_STACK && frames[top + 1].result == child
      decreases |ts| - pos, Rank(frames[top].state)
    {
      ghost var stack := frames[..top + 1];
      MachineFacts(ts, stack, child, pos, answer);
      if frames[top].state.Finished? {
        if top == 0 {
          LastResult(ts, stack, child, pos, answer);
          return Parsed(frames[0].result, pos);
        }
        Ascend(ts, stack, child, pos, answer);
        child := frames[top].result;
        top := top - 1;
        assert frames[..top + 1] == stack[..top + 1];
      } else {
        var above := if top + 1 < PARSE_STACK then frames[top + 1].result else NO_TYPE;
        var step := FrameStep(ts, pos, frames[top], above);
        ChildUnused(ts, pos, frames[top], above, child);
        StepRight(ts, stack, child, pos, answer, step);
        match step
        case Stop => return Failed;
        case Go(f, p) =>
          frames[top], pos := f, p;
          assert frames[..top + 1] == stack[top := f];
        case Open(f, p) =>
          assert top + 1 < PARSE_STACK;
          frames[top], pos := f, p;
          top := top + 1;
          frames[top] := ParseFrame(Base, NO_TYPE, NO_TYPE, f.depth + 1);
          assert frames[..top + 1] == stack[top - 1 := f] + [ParseFrame(Base, NO_TYPE, NO_TYPE, f.depth + 1)];
          child := NO_TYPE;
      }
    }
  }

  // What one round does to the current frame: an error, another state, or a new frame above it.
  datatype RoundStep = Stop | Go(f: ParseFrame, pos: nat) | Open(f: ParseFrame, pos: nat)

  method FrameStep(ts: seq<Token>, pos: nat, f: ParseFrame, child: Type) returns (step: RoundStep)
    requires pos <= |ts| && !f.state.Finished?
    ensures step == StepOf(ts, pos, f, child)
  {
    if f.depth > MAX_DEPTH { return Stop; }
    match f.state
    case Base =>
      match TokenAt(ts, pos)
      {
        case MapWord =>
          if TokenAt(ts, pos + 1) != LBracket { return Stop; }
          return Open(f.(state := MapKey), pos + 2);
        case Identifier(text) =>
          var kind := LookupScalar(text);
          if kind.Some? { return Go(f.(state := ArraySuffixes, result := Scalar(kind.value)), pos + 1); }
          var name := ReadName(ts, pos);
          if name.BadName? { return Stop; }
          return Go(f.(state := ArraySuffixes, result := Defined(name.parts)), name.pos);
        case _ => return Stop;
      }
    case MapKey =>
      if TokenAt(ts, pos) != Comma { return Stop; }
      return Open(f.(state := MapValue, key := child), pos + 1);
    case MapValue =>
      if TokenAt(ts, pos) != RBracket { return Stop; }
      return Go(f.(state := ArraySuffixes, result := Map(f.key, child)), pos + 1);
    case ArraySuffixes =>
      if TokenAt(ts, pos) != LBracket { return Go(f.(state := Finished), pos); }
      var g := f.(depth := f.depth + 1);
      if g.depth > MAX_DEPTH { return Stop; }
      match TokenAt(ts, pos + 1)
      {
        case Number(n) =>
          if n.None? || n.value < 1 || n.value > MAX_FIXED_SIZE || TokenAt(ts, pos + 2) != RBracket { return Stop; }
          return Go(g.(result := FixedArray(f.result, n.value)), pos + 3);
        case RBracket => return Go(g.(result := Array(f.result)), pos + 2);
        case _ => return Stop;
      }
  }

  function StepOf(ts: seq<Token>, pos: nat, f: ParseFrame, child: Type): RoundStep
    requires pos <= |ts| && !f.state.Finished?
  {
    if f.depth > MAX_DEPTH then Stop
    else
      match f.state
      case Base => (
        match TokenAt(ts, pos)
        case MapWord => if TokenAt(ts, pos + 1) != LBracket then Stop else Open(f.(state := MapKey), pos + 2)
        case Identifier(text) =>
          var kind := LookupScalar(text);
          if kind.Some? then Go(f.(state := ArraySuffixes, result := Scalar(kind.value)), pos + 1)
          else
            var name := ParseName(ts, pos);
            if name.BadName? then Stop
            else Go(f.(state := ArraySuffixes, result := Defined(name.parts)), name.pos)
        case _ => Stop)
      case MapKey =>
        if TokenAt(ts, pos) != Comma then Stop else Open(f.(state := MapValue, key := child), pos + 1)
      case MapValue =>
        if TokenAt(ts, pos) != RBracket then Stop
        else Go(f.(state := ArraySuffixes, result := Map(f.key, child)), pos + 1)
      case ArraySuffixes =>
        if TokenAt(ts, pos) != LBracket then Go(f.(state := Finished), pos)
        else if f.depth + 1 > MAX_DEPTH then Stop
        else (
          match TokenAt(ts, pos + 1)
          case Number(n) =>
            if n.None? || n.value < 1 || n.value > MAX_FIXED_SIZE || TokenAt(ts, pos + 2) != RBracket then Stop
            else Go(f.(depth := f.depth + 1, result := FixedArray(f.result, n.value)), pos + 3)
          case RBracket => Go(f.(depth := f.depth + 1, result := Array(f.result)), pos + 2)
          case _ => Stop)
  }

  // What the frame leads to when a frame that reads a key or a value for it is opened at p.
  function Opened(ts: seq<Token>, f: ParseFrame, p: nat): Result
    requires p <= |ts|
  {
    var r := ParseAt(ts, p, f.depth + 1);
    var from := if r.Parsed? then r.pos - 1 else 0;
    if f.state.MapKey? then AfterKey(ts, r, f.depth, from) else AfterValue(ts, f.key, r, f.depth, from)
  }

  ghost predicate KeepsResult(ts: seq<Token>, pos: nat, f: ParseFrame, child: Type, step: RoundStep)
    requires pos <= |ts| && (!f.state.Base? ==> pos > 0)
  {
    match step
    case Stop => FrameResult(ts, pos, f, child) == Failed
    case Go(g, p) =>
      && 0 < p <= |ts| && f.depth <= g.depth <= MAX_DEPTH
      && (pos < p || (pos == p && Rank(g.state) < Rank(f.state)))
      && (g.state.ArraySuffixes? || g.state.Finished?)
      && FrameResult(ts, p, g, child) == FrameResult(ts, pos, f, child)
    case Open(g, p) =>
      && pos < p <= |ts| && g.depth == f.depth <= MAX_DEPTH && (g.state.MapKey? || g.state.MapValue?)
      && FrameResult(ts, pos, f, child) == Opened(ts, g, p)
  }

  lemma FromIrrelevant(ts: seq<Token>, key: Type, r: Result, depth: nat, from: nat, other: nat)
    requires from <= |ts| && other <= |ts| && (r.Parsed? ==> from < r.pos <= |ts| && other < r.pos)
    ensures AfterKey(ts, r, depth, from) == AfterKey(ts, r, depth, other)
    ensures AfterValue(ts, key, r, depth, from) == AfterValue(ts, key, r, depth, other)
  {
    hide ParseAt, Suffixes;
  }

  // A round keeps the result that the frame leads to.
  lemma StepResult(ts: seq<Token>, pos: nat, f: ParseFrame, child: Type)
    requires pos <= |ts| && !f.state.Finished? && (!f.state.Base? ==> pos > 0 && f.depth <= MAX_DEPTH)
    ensures KeepsResult(ts, pos, f, child, StepOf(ts, pos, f, child))
  {
    hide LookupScalar, ParseName, Suffixes, AfterValue;
    var step := StepOf(ts, pos, f, child);
    match step
    case Stop => StopResult(ts, pos, f, child);
    case Go(g, p) => GoResult(ts, pos, f, child);
    case Open(g, p) =>
      var r := ParseAt(ts, p, f.depth + 1);
      FromIrrelevant(ts, g.key, r, f.depth, pos, if r.Parsed? then r.pos - 1 else 0);
      OpenResult(ts, pos, f, child);
  }

  lemma StopResult(ts: seq<Token>, pos: nat, f: ParseFrame, child: Type)
    requires pos <= |ts| && !f.state.Finished? && (!f.state.Base? ==> pos > 0 && f.depth <= MAX_DEPTH)
    requires StepOf(ts, pos, f, child).Stop?
    ensures FrameResult(ts, pos, f, child) == Failed
  {
    hide LookupScalar, ParseName;
  }

  lemma GoResult(ts: seq<Token>, pos: nat, f: ParseFrame, child: Type)
    requires pos <= |ts| && !f.state.Finished? && (!f.state.Base? ==> pos > 0 && f.depth <= MAX_DEPTH)
    requires StepOf(ts, pos, f, child).Go?
    ensures KeepsResult(ts, pos, f, child, StepOf(ts, pos, f, child))
  {
    hide LookupScalar, ParseName;
  }

  lemma OpenResult(ts: seq<Token>, pos: nat, f: ParseFrame, child: Type)
    requires pos <= |ts| && !f.state.Finished? && (!f.state.Base? ==> pos > 0 && f.depth <= MAX_DEPTH)
    requires StepOf(ts, pos, f, child).Open?
    ensures var step := StepOf(ts, pos, f, child);
            && pos < step.pos <= |ts| && step.f.depth == f.depth <= MAX_DEPTH
            && (step.f.state.MapKey? || step.f.state.MapValue?)
            && var r := ParseAt(ts, step.pos, f.depth + 1);
               FrameResult(ts, pos, f, child) ==
                 if step.f.state.MapKey? then AfterKey(ts, r, f.depth, pos)
                 else AfterValue(ts, step.f.key, r, f.depth, pos)
  {
    hide LookupScalar, ParseName, Suffixes, AfterValue;
  }

  ghost predicate KeepsMachine(
      ts: seq<Token>, frames: seq<ParseFrame>, child: Type, pos: nat, answer: Result, step: RoundStep)
    requires frames != []
  {
    match step
    case Stop => answer == Failed
    case Go(f, p) =>
      && 0 < p <= |ts| && (f.state.ArraySuffixes? || f.state.Finished?)
      && (pos < p || (pos == p && Rank(f.state) < Rank(frames[|frames| - 1].state)))
      && Machine(ts, frames[|frames| - 1 := f], child, p, answer)
    case Open(f, p) =>
      && pos < p <= |ts| && |frames| <= MAX_DEPTH + 1
      && Machine(ts, frames[|frames| - 1 := f] + [ParseFrame(Base, NO_TYPE, NO_TYPE, f.depth + 1)], NO_TYPE, p,
                 answer)
  }

  lemma StepRight(
      ts: seq<Token>, frames: seq<ParseFrame>, child: Type, pos: nat, answer: Result, step: RoundStep)
    requires Machine(ts, frames, child, pos, answer) && frames != [] && pos <= |ts|
    requires !frames[|frames| - 1].state.Finished?
    requires step == StepOf(ts, pos, frames[|frames| - 1], child)
    ensures KeepsMachine(ts, frames, child, pos, answer, step)
  {
    hide Machine, FrameResult, StepOf, Opened;
    MachineFacts(ts, frames, child, pos, answer);
    StepResult(ts, pos, frames[|frames| - 1], child);
    match step
    case Stop => MachineFailed(ts, frames, child, pos, answer);
    case Go(f, p) => Continue(ts, frames, child, pos, answer, f, p);
    case Open(f, p) => Descend(ts, frames, child, pos, answer, f, p);
  }

  lemma MachineFacts(ts: seq<Token>, frames: seq<ParseFrame>, child: Type, pos: nat, answer: Result)
    requires Machine(ts, frames, child, pos, answer)
    ensures frames != [] && pos <= |ts| && |frames| - 1 <= frames[|frames| - 1].depth
    ensures var f := frames[|frames| - 1]; !f.state.Base? ==> pos > 0 && f.depth <= MAX_DEPTH
    ensures forall i :: 0 <= i < |frames| - 1 ==> frames[i].state.MapKey? || frames[i].state.MapValue?
  {
    hide FrameResult, Resume;
  }

  lemma StartMachine(ts: seq<Token>, start: nat, child: Type)
    requires start <= |ts|
    ensures Machine(ts, [ParseFrame(Base, NO_TYPE, NO_TYPE, 0)], child, start, ParseAt(ts, start, 0))
  {
    hide ParseAt;
  }

  lemma LastResult(ts: seq<Token>, frames: seq<ParseFrame>, child: Type, pos: nat, answer: Result)
    requires Machine(ts, frames, child, pos, answer) && |frames| == 1 && frames[0].state.Finished?
    ensures answer == Parsed(frames[0].result, pos)
  {
    hide ParseAt;
  }

  // The loop over the parts of a dotted name.
  method ReadName(ts: seq<Token>, start: nat) returns (r: NameResult)
    requires start < |ts| && ts[start].Identifier?
    ensures r == ParseName(ts, start)
  {
    var parts, length: nat, pos := [ts[start].text], |ts[start].text|, start + 1;
    if TokenAt(ts, pos) == Dot && length >= NAME_BUFFER {
      return BadName;
    }
    while TokenAt(ts, pos) == Dot
      invariant pos <= |ts| && ParseName(ts, start) == RestOfName(ts, pos, parts, length)
      decreases |ts| - pos
    {
      if !TokenAt(ts, pos + 1).Identifier? { return BadName; }
      var part := ts[pos + 1].text;
      if length + 1 + |part| >= NAME_BUFFER { return BadName; }
      parts, length, pos := parts + [part], length + 1 + |part|, pos + 2;
    }
    return Name(parts, pos);
  }

  // ---------- the text of a type is parsed back ----------

  // Names the parser can form: a first part that is no scalar, and a dotted name that fits its buffer.
  predicate NameOk(name: seq<string>) {
    && name != [] && LookupScalar(name[0]).None?
    && (|name| > 1 ==> NameLength(name) < NAME_BUFFER)
  }

  function NameLength(name: seq<string>): nat {
    if name == [] then 0
    else if |name| == 1 then |name[0]|
    else NameLength(name[..|name| - 1]) + 1 + |name[|name| - 1]|
  }

  predicate TypeOk(t: Type) {
    match t
    case Scalar(_) => true
    case Defined(name) => NameOk(name)
    case Array(e) => TypeOk(e)
    case FixedArray(e, n) => TypeOk(e) && 1 <= n <= MAX_FIXED_SIZE
    case Map(k, v) => TypeOk(k) && TypeOk(v)
  }

  // The number of array suffixes at the end of the text of t.
  function SuffixCount(t: Type): nat {
    match t
    case Array(e) => 1 + SuffixCount(e)
    case FixedArray(e, _) => 1 + SuffixCount(e)
    case _ => 0
  }

  // The parser's depth limit holds for t at this depth.
  predicate DepthFits(t: Type, depth: nat) {
    match t
    case Scalar(_) => depth <= MAX_DEPTH
    case Defined(_) => depth <= MAX_DEPTH
    case Array(e) => DepthFits(e, depth) && depth + SuffixCount(t) <= MAX_DEPTH
    case FixedArray(e, _) => DepthFits(e, depth) && depth + SuffixCount(t) <= MAX_DEPTH
    case Map(k, v) => depth <= MAX_DEPTH && DepthFits(k, depth + 1) && DepthFits(v, depth + 1)
  }

  lemma HereToken(ts: seq<Token>, pos: nat, tokens: seq<Token>, i: nat)
    requires Here(ts, pos, tokens) && i < |tokens|
    ensures pos + i < |ts| && TokenAt(ts, pos + i) == ts[pos + i] == tokens[i]
  {
    HereAt(ts, pos, tokens, i);
  }

  // After the first part the parser reads the other parts of the name, as long as it fits the buffer.
  lemma {:induction false} NameRead(ts: seq<Token>, pos: nat, name: seq<string>)
    requires name != [] && Here(ts, pos, NameTokens(name)) && (|name| > 1 ==> NameLength(name) < NAME_BUFFER)
    ensures pos + |NameTokens(name)| <= |ts| && |NameTokens(name)| >= 1 && |name[0]| <= NameLength(name)
    ensures RestOfName(ts, pos + 1, [name[0]], |name[0]|) ==
            RestOfName(ts, pos + |NameTokens(name)|, name, NameLength(name))
    decreases |name|
  {
    hide Here, RestOfName;
    HereLength(ts, pos, NameTokens(name));
    if |name| > 1 {
      var front, last := name[..|name| - 1], name[|name| - 1];
      HereParts(ts, pos, NameTokens(front), [Dot, Identifier(last)]);
      NameRead(ts, pos, front);
      var q := pos + |NameTokens(front)|;
      HereToken(ts, q, [Dot, Identifier(last)], 0);
      HereToken(ts, q, [Dot, Identifier(last)], 1);
      NamePart(ts, q, front, NameLength(front));
      assert front + [last] == name;
    } else {
      assert [name[0]] == name;
    }
  }

  lemma NamePart(ts: seq<Token>, pos: nat, parts: seq<string>, length: nat)
    requires pos + 2 <= |ts| && ts[pos] == Dot && ts[pos + 1].Identifier?
    requires length + 1 + |ts[pos + 1].text| < NAME_BUFFER
    ensures RestOfName(ts, pos, parts, length) ==
            RestOfName(ts, pos + 2, parts + [ts[pos + 1].text], length + 1 + |ts[pos + 1].text|)
  {
  }

  lemma ParseWord(ts: seq<Token>, pos: nat, depth: nat)
    requires pos < |ts| && ts[pos].Identifier?
    ensures var kind := LookupScalar(ts[pos].text);
            var name := ParseName(ts, pos);
            ParseAt(ts, pos, depth) ==
              if depth > MAX_DEPTH then Failed
              else if kind.Some? then Suffixes(ts, Scalar(kind.value), pos + 1, depth)
              else if name.BadName? then Failed
              else Suffixes(ts, Defined(name.parts), name.pos, depth)
  {
    hide LookupScalar, ParseName, Suffixes;
  }

  lemma ParseMap(ts: seq<Token>, pos: nat, depth: nat)
    requires pos + 2 <= |ts| && ts[pos] == MapWord && ts[pos + 1] == LBracket
    ensures ParseAt(ts, pos, depth) ==
              if depth > MAX_DEPTH then Failed else AfterKey(ts, ParseAt(ts, pos + 2, depth + 1), depth, pos)
  {
    hide AfterKey;
  }

  lemma SuffixStep(ts: seq<Token>, t: Type, pos: nat, depth: nat, size: Option<int>)
    requires pos <= |ts| && TokenAt(ts, pos) == LBracket
    requires size.None? ==> TokenAt(ts, pos + 1) == RBracket
    requires size.Some? ==> 1 <= size.value <= MAX_FIXED_SIZE
    requires size.Some? ==> TokenAt(ts, pos + 1) == Number(size) && TokenAt(ts, pos + 2) == RBracket
    ensures Suffixes(ts, t, pos, depth) ==
              if depth + 1 > MAX_DEPTH then Failed
              else if size.None? then Suffixes(ts, Array(t), pos + 2, depth + 1)
              else Suffixes(ts, FixedArray(t, size.value), pos + 3, depth + 1)
  {
  }

  lemma SuffixEnd(ts: seq<Token>, t: Type, pos: nat, depth: nat)
    requires pos <= |ts| && TokenAt(ts, pos) != LBracket
    ensures Suffixes(ts, t, pos, depth) == Parsed(t, pos)
  {
  }

  // From the text of a type the parser reaches the state after its last suffix, within the depth limit.
  lemma {:induction false} TypeRead(ts: seq<Token>, pos: nat, t: Type, depth: nat)
    requires TypeOk(t) && Here(ts, pos, Tokens(t)) && TokenAt(ts, pos + |Tokens(t)|) != Dot
    ensures pos + |Tokens(t)| <= |ts|
    ensures ParseAt(ts, pos, depth) ==
              if DepthFits(t, depth)
              then Suffixes(ts, t, pos + |Tokens(t)|, depth + SuffixCount(t))
              else Failed
    decreases t
  {
    hide Here, NameTokens, Spelling, ParseAt, Suffixes, DepthFits, SuffixCount, NameOk;
    HereLength(ts, pos, Tokens(t));
    match t
    case Scalar(k) => ScalarRead(ts, pos, k, depth);
    case Defined(name) => DefinedRead(ts, pos, name, depth);
    case Array(e) =>
      HereParts(ts, pos, Tokens(e), [LBracket, RBracket]);
      HereToken(ts, pos + |Tokens(e)|, [LBracket, RBracket], 0);
      TypeRead(ts, pos, e, depth);
      SuffixRead(ts, pos, e, None, depth);
    case FixedArray(e, n) =>
      HereParts(ts, pos, Tokens(e), SizeTokens(n));
      HereToken(ts, pos + |Tokens(e)|, SizeTokens(n), 0);
      TypeRead(ts, pos, e, depth);
      SuffixRead(ts, pos, e, Some(n), depth);
    case Map(k, v) => MapRead(ts, pos, k, v, depth);
  }

  // One more suffix after an element type that was read.
  lemma SuffixRead(ts: seq<Token>, pos: nat, e: Type, size: Option<int>, depth: nat)
    requires size.Some? ==> 1 <= size.value <= MAX_FIXED_SIZE
    requires pos + |Tokens(e)| <= |ts|
    requires Here(ts, pos + |Tokens(e)|, if size.None? then [LBracket, RBracket] else SizeTokens(size.value))
    requires ParseAt(ts, pos, depth) ==
               if DepthFits(e, depth) then Suffixes(ts, e, pos + |Tokens(e)|, depth + SuffixCount(e)) else Failed
    ensures var t := if size.None? then Array(e) else FixedArray(e, size.value);
            && pos + |Tokens(t)| <= |ts|
            && ParseAt(ts, pos, depth) ==
                 if DepthFits(t, depth) then Suffixes(ts, t, pos + |Tokens(t)|, depth + SuffixCount(t)) else Failed
  {
    hide Here, ParseAt, Suffixes, Spelling, NameTokens;
    var text := if size.None? then [LBracket, RBracket] else SizeTokens(size.value);
    var q := pos + |Tokens(e)|;
    HereLength(ts, q, text);
    HereToken(ts, q, text, 0);
    HereToken(ts, q, text, 1);
    if size.Some? { HereToken(ts, q, text, 2); }
    SuffixStep(ts, e, q, depth + SuffixCount(e), size);
  }

  lemma ScalarRead(ts: seq<Token>, pos: nat, k: Kind, depth: nat)
    requires Here(ts, pos, [Identifier(Spelling(k))])
    ensures ParseAt(ts, pos, depth) ==
              if DepthFits(Scalar(k), depth) then Suffixes(ts, Scalar(k), pos + 1, depth + SuffixCount(Scalar(k)))
              else Failed
  {
    hide Here, Spelling, LookupScalar, ParseAt, Suffixes, ParseName;
    HereToken(ts, pos, [Identifier(Spelling(k))], 0);
    SpellingRead(k);
    ParseWord(ts, pos, depth);
  }

  lemma DefinedRead(ts: seq<Token>, pos: nat, name: seq<string>, depth: nat)
    requires NameOk(name) && Here(ts, pos, NameTokens(name)) && TokenAt(ts, pos + |NameTokens(name)|) != Dot
    ensures pos + |NameTokens(name)| <= |ts|
    ensures ParseAt(ts, pos, depth) ==
              if DepthFits(Defined(name), depth)
              then Suffixes(ts, Defined(name), pos + |NameTokens(name)|, depth + SuffixCount(Defined(name)))
              else Failed
  {
    hide Here, LookupScalar, Suffixes, ParseAt;
    NameRead(ts, pos, name);
    HereToken(ts, pos, NameTokens(name), 0);
    NameStarts(name);
    ParseWord(ts, pos, depth);
    var end := pos + |NameTokens(name)|;
    assert RestOfName(ts, end, name, NameLength(name)) == Name(name, end);
  }

  lemma {:induction false} NameStarts(name: seq<string>)
    requires name != []
    ensures NameTokens(name) != [] && NameTokens(name)[0] == Identifier(name[0])
    decreases |name|
  {
    if |name| > 1 { NameStarts(name[..|name| - 1]); }
  }

  // The tokens of a map stand in five parts.
  lemma MapParts(ts: seq<Token>, pos: nat, keyText: seq<Token>, valueText: seq<Token>)
    requires Here(ts, pos, [MapWord, LBracket] + keyText + [Comma] + valueText + [RBracket])
    ensures var p := pos + 2 + |keyText|;
            var q := p + 1 + |valueText|;
            && q < |ts| && ts[pos] == MapWord && ts[pos + 1] == LBracket
            && Here(ts, pos + 2, keyText) && TokenAt(ts, p) == Comma
            && Here(ts, p + 1, valueText) && TokenAt(ts, q) == RBracket
  {
    hide Here;
    HereParts(ts, pos, [MapWord, LBracket] + keyText + [Comma] + valueText, [RBracket]);
    HereParts(ts, pos, [MapWord, LBracket] + keyText + [Comma], valueText);
    HereParts(ts, pos, [MapWord, LBracket] + keyText, [Comma]);
    HereParts(ts, pos, [MapWord, LBracket], keyText);
    HereToken(ts, pos, [MapWord, LBracket], 0);
    HereToken(ts, pos, [MapWord, LBracket], 1);
    HereToken(ts, pos + 2 + |keyText|, [Comma], 0);
    HereToken(ts, pos + 2 + |keyText| + 1 + |valueText|, [RBracket], 0);
  }

  lemma {:induction false} MapRead(ts: seq<Token>, pos: nat, k: Type, v: Type, depth: nat)
    requires TypeOk(k) && TypeOk(v) && Here(ts, pos, Tokens(Map(k, v)))
    ensures pos + |Tokens(Map(k, v))| <= |ts|
    ensures ParseAt(ts, pos, depth) ==
              if DepthFits(Map(k, v), depth)
              then Suffixes(ts, Map(k, v), pos + |Tokens(Map(k, v))|, depth + SuffixCount(Map(k, v)))
              else Failed
    decreases Map(k, v), 0
  {
    hide Here, Tokens, TypeOk, ParseAt, Suffixes;
    var keyText, valueText := Tokens(k), Tokens(v);
    MapText(k, v);
    MapParts(ts, pos, keyText, valueText);
    ParseMap(ts, pos, depth);
    var p := pos + 2 + |keyText|;
    TypeRead(ts, pos + 2, k, depth + 1);
    TypeRead(ts, p + 1, v, depth + 1);
    SuffixEnd(ts, k, p, depth + 1 + SuffixCount(k));
    SuffixEnd(ts, v, p + 1 + |valueText|, depth + 1 + SuffixCount(v));
  }

  lemma MapText(k: Type, v: Type)
    ensures Tokens(Map(k, v)) == [MapWord, LBracket] + Tokens(k) + [Comma] + Tokens(v) + [RBracket]
  {
  }

  // ---------- round trip ----------

  // What follows a type in the source: nothing that would extend it.
  predicate Ends(ts: seq<Token>, pos: nat) { TokenAt(ts, pos) != Dot && TokenAt(ts, pos) != LBracket }

  // The parser reads the text of a type back as that type, and no more than its text, exactly when the
  // depth limit holds; otherwise it fails.
  lemma TextParsed(ts: seq<Token>, pos: nat, t: Type)
    requires TypeOk(t) && Here(ts, pos, Tokens(t)) && Ends(ts, pos + |Tokens(t)|)
    ensures pos <= |ts|
    ensures ParseAt(ts, pos, 0) == if DepthFits(t, 0) then Parsed(t, pos + |Tokens(t)|) else Failed
  {
    TypeRead(ts, pos, t, 0);
  }

  // A parsed type took as many tokens as its text has.
  lemma {:induction false} ParsedLength(ts: seq<Token>, pos: nat, depth: nat)
    requires pos <= |ts|
    ensures var r := ParseAt(ts, pos, depth); r.Parsed? ==> r.pos - pos == |Tokens(r.t)|
    decreases |ts| - pos, 1
  {
    hide Spelling, LookupScalar, ParseName, Suffixes;
    if depth <= MAX_DEPTH {
      match TokenAt(ts, pos)
      case MapWord => if TokenAt(ts, pos + 1) == LBracket { MapLength(ts, pos, depth); }
      case Identifier(text) =>
        var kind := LookupScalar(text);
        if kind.Some? {
          SuffixesLength(ts, Scalar(kind.value), pos + 1, depth, pos);
        } else {
          ParseNameLength(ts, pos);
          var name := ParseName(ts, pos);
          if name.Name? { SuffixesLength(ts, Defined(name.parts), name.pos, depth, pos); }
        }
      case _ =>
    }
  }

  lemma {:induction false} MapLength(ts: seq<Token>, pos: nat, depth: nat)
    requires pos + 2 <= |ts| && ts[pos] == MapWord && ts[pos + 1] == LBracket && depth <= MAX_DEPTH
    ensures var r := ParseAt(ts, pos, depth); r.Parsed? ==> r.pos - pos == |Tokens(r.t)|
    decreases |ts| - pos, 0
  {
    hide ParseAt, Suffixes, Tokens;
    ParseMap(ts, pos, depth);
    ParsedLength(ts, pos + 2, depth + 1);
    var key := ParseAt(ts, pos + 2, depth + 1);
    if key.Parsed? && TokenAt(ts, key.pos) == Comma {
      ParsedLength(ts, key.pos + 1, depth + 1);
      var value := ParseAt(ts, key.pos + 1, depth + 1);
      if value.Parsed? && TokenAt(ts, value.pos) == RBracket {
        MapTokens(key.t, value.t);
        SuffixesLength(ts, Map(key.t, value.t), value.pos + 1, depth, pos);
      }
    }
  }

  lemma MapTokens(k: Type, v: Type)
    ensures |Tokens(Map(k, v))| == |Tokens(k)| + |Tokens(v)| + 4
  {
  }

  lemma {:induction false} SuffixesLength(ts: seq<Token>, t: Type, pos: nat, depth: nat, from: nat)
    requires pos <= |ts| && pos - from == |Tokens(t)|
    ensures var r := Suffixes(ts, t, pos, depth); r.Parsed? ==> r.pos - from == |Tokens(r.t)|
    decreases |ts| - pos, 0
  {
    hide Spelling, NameTokens;
    if TokenAt(ts, pos) == LBracket && depth + 1 <= MAX_DEPTH {
      match TokenAt(ts, pos + 1)
      case Number(n) =>
        if n.Some? && 1 <= n.value <= MAX_FIXED_SIZE && TokenAt(ts, pos + 2) == RBracket {
          SuffixesLength(ts, FixedArray(t, n.value), pos + 3, depth + 1, from);
        }
      case RBracket => SuffixesLength(ts, Array(t), pos + 2, depth + 1, from);
      case _ =>
    }
  }

  lemma ParseNameLength(ts: seq<Token>, pos: nat)
    requires pos < |ts| && ts[pos].Identifier?
    ensures var r := ParseName(ts, pos); r.Name? ==> r.pos - pos == |NameTokens(r.parts)|
  {
    RestLength(ts, pos + 1, [ts[pos].text], |ts[pos].text|, pos);
  }

  lemma {:induction false} RestLength(ts: seq<Token>, pos: nat, parts: seq<string>, length: nat, from: nat)
    requires pos <= |ts| && parts != [] && pos - from == |NameTokens(parts)|
    ensures var r := RestOfName(ts, pos, parts, length); r.Name? ==> r.pos - from == |NameTokens(r.parts)|
    decreases |ts| - pos
  {
    if TokenAt(ts, pos) == Dot && TokenAt(ts, pos + 1).Identifier? {
      var part := ts[pos + 1].text;
      assert (parts + [part])[..|parts|] == parts;
      if length + 1 + |part| < NAME_BUFFER { RestLength(ts, pos + 2, parts + [part], length + 1 + |part|, from); }
    }
  }

  // t is printed, and its text, before rest, is parsed back to it.
  predicate ReadBack(t: Type, rest: seq<Token>) {
    var r := Printing(t);
    r.Output? && ParseAt(r.tokens + rest, 0, 0) == Parsed(t, |r.tokens|)
  }

  // Printing a type and parsing the text gives the type back, all of the text used, exactly when the
  // printer has room for all it pushes and the parser's depth limit holds.
  lemma PrintThenParse(t: Type, rest: seq<Token>)
    requires TypeOk(t) && Ends(rest, 0)
    ensures ReadBack(t, rest) <==> HasRoom(t, 0) && DepthFits(t, 0)
  {
    hide Tokens, Printed, ParseAt, HasRoom, NoOverrun, DepthFits, TypeOk;
    var text := Printed(t, 0);
    var ts := text + rest;
    PrintedWhole(t, 0);
    if HasRoom(t, 0) {
      RoomIsEnough(t, 0);
      assert ts[0..|text|] == text;
      assert TokenAt(ts, |text|) == TokenAt(rest, 0);
      TextParsed(ts, 0, t);
    } else {
      ParsedLength(ts, 0, 0);
    }
  }

  // For types with scalar map keys nested at most 64 deep neither limit is ever reached.
  lemma ShallowRoundTrip(t: Type, rest: seq<Token>)
    requires TypeOk(t) && ScalarKeys(t) && Nesting(t) <= MAX_DEPTH && Ends(rest, 0)
    ensures Printing(t) == Output(Tokens(t))
    ensures ParseAt(Tokens(t) + rest, 0, 0) == Parsed(t, |Tokens(t)|)
  {
    hide Tokens, Printed, ParseAt, TypeOk;
    ShallowHasRoom(t, 0);
    RoomIsEnough(t, 0);
    ShallowFits(t, 0);
    PrintedWhole(t, 0);
    PrintThenParse(t, rest);
  }

  lemma {:induction false} ShallowFits(t: Type, depth: nat)
    requires depth + Nesting(t) <= MAX_DEPTH
    ensures DepthFits(t, depth) && SuffixCount(t) <= Nesting(t)
  {
    match t
    case Array(e) => ShallowFits(e, depth);
    case FixedArray(e, _) => ShallowFits(e, depth);
    case Map(k, v) =>
      ShallowFits(k, depth + 1);
      ShallowFits(v, depth + 1);
    case _ =>
  }

  function Arrays(n: nat, t: Type): Type { if n == 0 then t else Array(Arrays(n - 1, t)) }

  // The two limits differ: the parser counts suffixes per frame, the printer's stack holds them all. It
  // accepts this type of 128 levels, and the printer drops the innermost part of it.
  lemma LimitsDiffer(n: nat)
    requires n == MAX_DEPTH
    ensures var t := Arrays(n, Map(Scalar(Bool), Arrays(n - 1, Scalar(Bool))));
            TypeOk(t) && ScalarKeys(t) && DepthFits(t, 0) && Printing(t).Output? && |Printing(t).tokens| < |Tokens(t)|
  {
    var inner := Scalar(Bool);
    var m := Map(Scalar(Bool), Arrays(n - 1, inner));
    ArraysFit(n - 1, inner, 1);
    ArraysRoom(n - 1, inner, n + 1);
    assert NoOverrun(Arrays(n - 1, inner), n + 1);
    assert NoOverrun(m, n);
    ArraysFit(n, m, 0);
    ArraysRoom(n, m, 0);
    PrintedWhole(Arrays(n, m), 0);
  }

  lemma {:induction false} ArraysFit(n: nat, t: Type, depth: nat)
    requires TypeOk(t) && ScalarKeys(t) && DepthFits(t, depth) && SuffixCount(t) == 0 && depth + n <= MAX_DEPTH
    ensures TypeOk(Arrays(n, t)) && ScalarKeys(Arrays(n, t)) && DepthFits(Arrays(n, t), depth)
    ensures SuffixCount(Arrays(n, t)) == n
  {
    if n > 0 { ArraysFit(n - 1, t, depth); }
  }

  lemma {:induction false} ArraysRoom(n: nat, t: Type, sp: nat)
    ensures HasRoom(Arrays(n, t), sp) <==> (n == 0 || sp + n + 1 <= PRINT_STACK) && HasRoom(t, sp + n)
    ensures sp + n + 1 <= PRINT_STACK && NoOverrun(t, sp + n) ==> NoOverrun(Arrays(n, t), sp)
    ensures n > 0 && sp + n + 1 == PRINT_STACK + 1 ==> NoOverrun(Arrays(n, t), sp)
  {
    if n > 0 { ArraysRoom(n - 1, t, sp + 1); }
  }

  // And the printer overruns its stack on this type of 126 levels, which the parser accepts too.
  lemma AcceptedTypeOverruns(n: nat)
    requires n == MAX_DEPTH
    ensures var t := Arrays(n, Map(Scalar(Bool), Arrays(n - 4, Map(Scalar(Bool), Scalar(Bool)))));
            TypeOk(t) && ScalarKeys(t) && DepthFits(t, 0) && Printing(t) == Overrun
  {
    var inner := Map(Scalar(Bool), Scalar(Bool));
    var m := Map(Scalar(Bool), Arrays(n - 4, inner));
    ArraysFit(n - 4, inner, 1);
    ArraysFit(n, m, 0);
    ArraysOverrun(n - 4, inner, n + 1);
    assert !NoOverrun(m, n);
    ArraysOverrun(n, m, 0);
  }

  lemma {:induction false} ArraysOverrun(n: nat, t: Type, sp: nat)
    requires sp + n + 1 <= PRINT_STACK && !NoOverrun(t, sp + n)
    ensures !NoOverrun(Arrays(n, t), sp)
  {
    if n > 0 { ArraysOverrun(n - 1, t, sp + 1); }
  }
}
