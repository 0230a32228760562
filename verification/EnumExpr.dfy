/** Enum value expressions: the explicit-stack operator-precedence evaluator against the value of the
    grammar tree. */
module EnumExpr {
  import opened Excerpts
  import opened Wrappers

  // A 64-bit two's complement integer.
  datatype Value = Value(bits: bv64)

  function Negate(v: Value): Value { Value(0 - v.bits) }

  // Operators by binding strength; 0 stands for no operator.
  type Op = o: nat | o <= 3
  const NONE: Op := 0
  const OR: Op := 1
  const AND: Op := 2
  const SHIFT: Op := 3

  // A shift by a negative amount or by 64 and more gives 0.
  function ApplyOp(a: Value, b: Value, op: Op): Value {
    if op == OR then Value(a.bits | b.bits)
    else if op == AND then Value(a.bits & b.bits)
    else if op == SHIFT then Value(if b.bits >= 64 then 0 else a.bits << b.bits)
    else Value(0)
  }

  // Number carries the parsed value, None when the literal is malformed.
  datatype Token =
    | Number(parsed: Option<Value>) | Identifier(name: string)
    | Minus | LParen | RParen | Pipe | Ampersand | LAngle | Other | Eof

  // The members parsed so far.
  type Members = seq<(string, Value)>

  const STACK_SIZE: nat := 32

  function TokenAt(ts: seq<Token>, pos: nat): Token {
    if pos < |ts| then ts[pos] else Eof
  }

  // The first member of this name.
  function Lookup(members: Members, name: string): Option<Value> {
    if members == [] then None
    else if members[0].0 == name then Some(members[0].1)
    else Lookup(members[1..], name)
  }

  function LiteralValue(members: Members, t: Token): Option<Value> {
    match t
    case Number(parsed) => parsed
    case Identifier(name) => Lookup(members, name)
    case _ => None
  }

  function OperatorAt(ts: seq<Token>, pos: nat): Op {
    if TokenAt(ts, pos) == Pipe then OR
    else if TokenAt(ts, pos) == Ampersand then AND
    else if TokenAt(ts, pos) == LAngle && TokenAt(ts, pos + 1) == LAngle then SHIFT
    else NONE
  }

  function Width(op: Op): nat { if op == SHIFT then 2 else 1 }

  // ---------- frames ----------

  // One level of parentheses: its operands, its pending operators, and whether the group it waits for is
  // to be negated.
  datatype Frame = Frame(values: seq<Value>, ops: seq<Op>, negateNext: bool)

  const EMPTY_FRAME := Frame([], [], false)

  predicate Increasing(ops: seq<Op>) {
    && (forall i :: 0 <= i < |ops| ==> ops[i] > 0)
    && forall i, j :: 0 <= i < j < |ops| ==> ops[i] < ops[j]
  }

  // pending is 1 where the last operand has arrived and 0 where it has not.
  predicate Shaped(f: Frame, pending: nat) {
    |f.values| == |f.ops| + pending && Increasing(f.ops)
  }

  lemma {:induction false} AtLeastIndex(ops: seq<Op>, i: nat)
    requires Increasing(ops) && i < |ops|
    ensures i < ops[i]
  {
    if i > 0 { AtLeastIndex(ops, i - 1); }
  }

  // There are three operators, so a strictly increasing stack of them has at most three entries.
  lemma ShapedIsSmall(f: Frame, pending: nat)
    requires Shaped(f, pending)
    ensures |f.ops| <= 3 && |f.values| <= 3 + pending
  {
    if f.ops != [] { AtLeastIndex(f.ops, |f.ops| - 1); }
  }

  function Pop(f: Frame): Frame
    requires Shaped(f, 1) && f.ops != []
  {
    var n := |f.values|;
    Frame(f.values[..n - 2] + [ApplyOp(f.values[n - 2], f.values[n - 1], f.ops[|f.ops| - 1])],
          f.ops[..|f.ops| - 1], f.negateNext)
  }

  // Applies the pending operators that bind at least as strongly as op.
  function Reduce(f: Frame, op: Op): (r: Frame)
    requires Shaped(f, 1)
    ensures Shaped(r, 1) && (r.ops != [] ==> r.ops[|r.ops| - 1] < op)
    decreases |f.ops|
  {
    if f.ops != [] && f.ops[|f.ops| - 1] >= op then Reduce(Pop(f), op) else f
  }

  function Push(f: Frame, v: Value): Frame {
    f.(values := f.values + [v])
  }

  function PushOp(f: Frame, op: Op): (r: Frame)
    requires Shaped(f, 1) && op != NONE
    ensures Shaped(r, 0)
  {
    var g := Reduce(f, op);
    g.(ops := g.ops + [op])
  }

  // ---------- the evaluation, recursive in the groups ----------

  // Failed when an error ended the evaluation; clean is false when a missing ')' was reported.
  datatype Outcome = Failed | Done(value: Value, pos: nat, clean: bool)

  function Also(o: Outcome, clean: bool): Outcome {
    if o.Failed? then o else o.(clean := o.clean && clean)
  }

  function SignOf(v: Value, negate: bool): Value { if negate then Negate(v) else v }

  function AtOperand(members: Members, ts: seq<Token>, pos: nat, f: Frame, depth: nat): (o: Outcome)
    requires pos <= |ts| && Shaped(f, 0)
    ensures o.Done? ==> pos < o.pos <= |ts|
    decreases |ts| - pos
  {
    var minus := TokenAt(ts, pos) == Minus;
    var negate := if minus then !f.negateNext else f.negateNext;
    var p := if minus then pos + 1 else pos;
    if TokenAt(ts, p) == LParen then
      if depth + 1 >= STACK_SIZE then Failed
      else
        var inner := AtOperand(members, ts, p + 1, EMPTY_FRAME, depth + 1);
        AfterGroup(members, ts, inner, f.(negateNext := negate), depth, pos)
    else
      var v := LiteralValue(members, TokenAt(ts, p));
      if v.None? then Failed
      else AtOperator(members, ts, p + 1, Push(f, SignOf(v.value, negate)).(negateNext := false), depth)
  }

  // The group that f waits for ended with this outcome.
  function AfterGroup(members: Members, ts: seq<Token>, inner: Outcome, f: Frame, depth: nat, ghost from: nat)
    : (o: Outcome)
    requires Shaped(f, 0) && from <= |ts| && (inner.Done? ==> from < inner.pos <= |ts|)
    ensures o.Done? ==> from < o.pos <= |ts|
    decreases |ts| - from, 0
  {
    if inner.Failed? then Failed
    else
      var closed := TokenAt(ts, inner.pos) == RParen;
      var p := if closed then inner.pos + 1 else inner.pos;
      var g := Push(f, SignOf(inner.value, f.negateNext)).(negateNext := false);
      Also(AtOperator(members, ts, p, g, depth), inner.clean && closed)
  }

  function AtOperator(members: Members, ts: seq<Token>, pos: nat, f: Frame, depth: nat): (o: Outcome)
    requires pos <= |ts| && Shaped(f, 1)
    ensures o.Done? ==> pos <= o.pos <= |ts|
    decreases |ts| - pos
  {
    var op := OperatorAt(ts, pos);
    if op == NONE then Done(Reduce(f, NONE).values[0], pos, true)
    else AtOperand(members, ts, pos + Width(op), PushOp(f, op), depth)
  }

  // The frames below wait for groups that end in turn.
  function Resume(members: Members, ts: seq<Token>, outer: seq<Frame>, o: Outcome): Outcome
    requires forall i :: 0 <= i < |outer| ==> Shaped(outer[i], 0)
    requires o.Done? ==> 0 < o.pos <= |ts|
    decreases |outer|
  {
    if outer == [] then o
    else
      var last := |outer| - 1;
      var from := if o.Done? then o.pos - 1 else 0;
      Resume(members, ts, outer[..last], AfterGroup(members, ts, o, outer[last], last, from))
  }

  lemma {:induction false} ResumeAlso(members: Members, ts: seq<Token>, outer: seq<Frame>, o: Outcome, clean: bool)
    requires forall i :: 0 <= i < |outer| ==> Shaped(outer[i], 0)
    requires o.Done? ==> 0 < o.pos <= |ts|
    ensures Resume(members, ts, outer, Also(o, clean)) == Also(Resume(members, ts, outer, o), clean)
    decreases |outer|
  {
    hide AtOperator, Shaped;
    if outer != [] {
      var last := |outer| - 1;
      var from := if o.Done? then o.pos - 1 else 0;
      ResumeAlso(members, ts, outer[..last], AfterGroup(members, ts, o, outer[last], last, from), clean);
    }
  }

  lemma {:induction false} ResumeFailed(members: Members, ts: seq<Token>, outer: seq<Frame>)
    requires forall i :: 0 <= i < |outer| ==> Shaped(outer[i], 0)
    ensures Resume(members, ts, outer, Failed) == Failed
    decreases |outer|
  {
    if outer != [] { ResumeFailed(members, ts, outer[..|outer| - 1]); }
  }

  // The reduce loops. Both operands are always there.
  method ReduceLoop(f: Frame, op: Op) returns (r: Frame)
    requires Shaped(f, 1)
    ensures r == Reduce(f, op)
  {
    hide ApplyOp;
    r := f;
    while r.ops != [] && r.ops[|r.ops| - 1] >= op
      invariant Shaped(r, 1) && Reduce(r, op) == Reduce(f, op)
      decreases |r.ops|
    {
      assert |r.values| >= 2;
      r := Pop(r);
    }
  }

  // The state of the evaluation loop: the frames in use, the last of them current, and the result that the
  // remaining steps lead to.
  ghost predicate Machine(
      members: Members, ts: seq<Token>, frames: seq<Frame>, pos: nat, operand: bool, ok: bool, answer: Outcome) {
    && 0 < |frames| <= STACK_SIZE && pos <= |ts| && (operand || pos > 0)
    && var top := |frames| - 1;
       && (forall i :: 0 <= i < top ==> Shaped(frames[i], 0)) && Shaped(frames[top], if operand then 0 else 1)
       && answer == Also(Resume(members, ts, frames[..top],
                                if operand then AtOperand(members, ts, pos, frames[top], top)
                                else AtOperator(members, ts, pos, frames[top], top)), ok)
  }

  // What the operand state does with the frames in use: the new frames and position, or None.
  function OperandStep(members: Members, ts: seq<Token>, frames: seq<Frame>, pos: nat): Option<(seq<Frame>, nat, bool)>
    requires frames != []
  {
    var f := frames[|frames| - 1];
    var minus := TokenAt(ts, pos) == Minus;
    var negate := if minus then !f.negateNext else f.negateNext;
    var p := if minus then pos + 1 else pos;
    if TokenAt(ts, p) == LParen then
      if |frames| >= STACK_SIZE then None
      else Some((frames[|frames| - 1 := f.(negateNext := negate)] + [EMPTY_FRAME], p + 1, true))
    else
      var v := LiteralValue(members, TokenAt(ts, p));
      if v.None? then None
      else Some((frames[|frames| - 1 := Push(f, SignOf(v.value, negate)).(negateNext := false)], p + 1, false))
  }

  lemma OperandStepRight(
      members: Members, ts: seq<Token>, frames: seq<Frame>, pos: nat, ok: bool, answer: Outcome)
    requires Machine(members, ts, frames, pos, true, ok, answer)
    ensures match OperandStep(members, ts, frames, pos)
            case None => answer == Failed
            case Some((later, p, operand)) =>
              pos < p <= |ts| && Machine(members, ts, later, p, operand, ok, answer)
  {
    hide AtOperand, AtOperator, Resume, AfterGroup;
    var top := |frames| - 1;
    var outer := frames[..top];
    OperandUnfold(members, ts, pos, frames[top], top);
    match OperandStep(members, ts, frames, pos)
    case None => ResumeFailed(members, ts, outer);
    case Some((later, p, operand)) =>
      if operand {
        ResumeStep(members, ts, later[..top + 1], AtOperand(members, ts, p, EMPTY_FRAME, top + 1), p - 1);
        assert later[..top + 1][..top] == outer;
      } else {
        assert later[..top] == outer;
      }
  }

  // The end of a group or of the whole expression, and the next operator.
  lemma CloseRight(
      members: Members, ts: seq<Token>, frames: seq<Frame>, pos: nat, ok: bool, answer: Outcome)
    requires Machine(members, ts, frames, pos, false, ok, answer) && OperatorAt(ts, pos) == NONE
    ensures var top := |frames| - 1;
            var value := Reduce(frames[top], NONE).values[0];
            if top == 0 then answer == Done(value, pos, ok)
            else
              var closed := TokenAt(ts, pos) == RParen;
              var f := Push(frames[top - 1], SignOf(value, frames[top - 1].negateNext)).(negateNext := false);
              var p := if closed then pos + 1 else pos;
              Machine(members, ts, frames[..top - 1] + [f], p, false, ok && closed, answer)
  {
    hide AtOperand, AtOperator, Resume, AfterGroup, Reduce, SignOf, OperatorAt, Increasing;
    var top := |frames| - 1;
    OperatorUnfold(members, ts, pos, frames[top], top);
    var done := Done(Reduce(frames[top], NONE).values[0], pos, true);
    if top == 0 {
      ResumeNone(members, ts, done);
      assert frames[..0] == [];
    } else {
      var closed := TokenAt(ts, pos) == RParen;
      GroupUnfold(members, ts, done, frames[top - 1], top - 1, pos - 1);
      ResumeStep(members, ts, frames[..top], done, pos - 1);
      assert frames[..top][..top - 1] == frames[..top - 1];
      var f := Push(frames[top - 1], SignOf(done.value, frames[top - 1].negateNext)).(negateNext := false);
      var p := if closed then pos + 1 else pos;
      ResumeAlso(members, ts, frames[..top - 1], AtOperator(members, ts, p, f, top - 1), closed);
      assert (frames[..top - 1] + [f])[..top - 1] == frames[..top - 1];
    }
  }

  lemma OperatorRight(
      members: Members, ts: seq<Token>, frames: seq<Frame>, pos: nat, ok: bool, answer: Outcome, op: Op)
    requires Machine(members, ts, frames, pos, false, ok, answer) && op == OperatorAt(ts, pos) != NONE
    ensures var top := |frames| - 1;
            Machine(members, ts, frames[top := PushOp(frames[top], op)], pos + Width(op), true, ok, answer)
  {
    hide AtOperand, AtOperator, Resume, PushOp;
    var top := |frames| - 1;
    OperatorUnfold(members, ts, pos, frames[top], top);
    assert frames[top := PushOp(frames[top], op)][..top] == frames[..top];
  }

  method OperandState(
      members: Members, ts: seq<Token>, frames: array<Frame>, top: nat, pos: nat, ghost ok: bool, ghost answer: Outcome)
    returns (failed: bool, newTop: nat, newPos: nat, operand: bool)
    requires frames.Length == STACK_SIZE && top < STACK_SIZE
    requires Machine(members, ts, frames[..top + 1], pos, true, ok, answer)
    modifies frames
    ensures failed ==> answer == Failed
    ensures !failed ==> newTop < STACK_SIZE && pos < newPos <= |ts|
                        && Machine(members, ts, frames[..newTop + 1], newPos, operand, ok, answer)
  {
    hide AtOperand, AtOperator, Machine, SignOf, Shaped;
    ghost var stack := frames[..top + 1];
    ghost var step := OperandStep(members, ts, stack, pos);
    OperandStepRight(members, ts, stack, pos, ok, answer);
    FramesSmall(members, ts, stack, pos, true, ok, answer);
    var negate := frames[top].negateNext;
    newTop, newPos, operand := top, pos, true;
    if TokenAt(ts, newPos) == Minus {
      negate := !negate;
      newPos := newPos + 1;
    }
    if TokenAt(ts, newPos) == LParen {
      if top + 1 >= STACK_SIZE {
        return true, newTop, newPos, operand;
      }
      newPos := newPos + 1;
      frames[top] := frames[top].(negateNext := negate);
      newTop := top + 1;
      frames[newTop] := EMPTY_FRAME;
    } else {
      var v := LiteralValue(members, TokenAt(ts, newPos));
      if v == None {
        return true, newTop, newPos, operand;
      }
      newPos := newPos + 1;
      assert |stack[top].values| < STACK_SIZE;
      frames[top] := Push(frames[top], SignOf(v.value, negate)).(negateNext := false);
      operand := false;
    }
    assert frames[..newTop + 1] == step.value.0;
    failed := false;
  }

  // Closes the current frame: the whole expression ends, or the group of the frame below.
  method CloseFrame(
      members: Members, ts: seq<Token>, frames: array<Frame>, top: nat, pos: nat, ok: bool, value: Value,
      ghost answer: Outcome)
    returns (newPos: nat, newOk: bool)
    requires frames.Length == STACK_SIZE && 0 < top < STACK_SIZE && OperatorAt(ts, pos) == NONE
    requires Machine(members, ts, frames[..top + 1], pos, false, ok, answer)
    requires Shaped(frames[top], 1) && value == Reduce(frames[top], NONE).values[0]
    modifies frames
    ensures pos <= newPos <= |ts| && Machine(members, ts, frames[..top], newPos, false, newOk, answer)
  {
    hide Machine, SignOf, Reduce;
    ghost var stack := frames[..top + 1];
    FramesSmall(members, ts, stack, pos, false, ok, answer);
    CloseRight(members, ts, stack, pos, ok, answer);
    ghost var next :=
      stack[..top - 1] + [Push(stack[top - 1], SignOf(value, stack[top - 1].negateNext)).(negateNext := false)];
    newOk := ok && TokenAt(ts, pos) == RParen;
    newPos := if TokenAt(ts, pos) == RParen then pos + 1 else pos;
    assert |stack[top - 1].values| < STACK_SIZE;
    frames[top - 1] := Push(frames[top - 1], SignOf(value, frames[top - 1].negateNext)).(negateNext := false);
    assert frames[..top] == next;
    MachineBounds(members, ts, next, newPos, false, newOk, answer);
  }

  // Puts the operator at pos on the stack of the current frame, whose stronger operators were applied.
  method PushOperator(
      members: Members, ts: seq<Token>, frames: array<Frame>, top: nat, pos: nat, ghost ok: bool, op: Op,
      reduced: Frame, ghost answer: Outcome)
    returns (newPos: nat)
    requires frames.Length == STACK_SIZE && top < STACK_SIZE && op == OperatorAt(ts, pos) != NONE
    requires Machine(members, ts, frames[..top + 1], pos, false, ok, answer)
    requires Shaped(frames[top], 1) && reduced == Reduce(frames[top], op)
    modifies frames
    ensures pos < newPos <= |ts| && Machine(members, ts, frames[..top + 1], newPos, true, ok, answer)
  {
    hide Machine, Reduce;
    ghost var stack := frames[..top + 1];
    OperatorRight(members, ts, stack, pos, ok, answer, op);
    assert |reduced.ops| < STACK_SIZE by { ShapedIsSmall(reduced, 1); }
    ghost var next := stack[top := PushOp(stack[top], op)];
    frames[top] := reduced.(ops := reduced.ops + [op]);
    newPos := pos + Width(op);
    assert frames[..top + 1] == next;
    MachineBounds(members, ts, next, newPos, true, ok, answer);
  }

  // The evaluator. Its bounds checks for the two stacks of a frame and for missing operands never fail,
  // on any tokens; only the check for too many frames can.
  method ParseExpression(members: Members, ts: seq<Token>, start: nat)
    returns (value: Value, pos: nat, ok: bool)
    requires start <= |ts|
    ensures var o := AtOperand(members, ts, start, EMPTY_FRAME, 0);
            && (ok <==> o.Done? && o.clean)
            && (if o.Done? then value == o.value && pos == o.pos else value == Value(0))
  {
    hide AtOperand, AtOperator, Machine, Reduce, SignOf;
    ghost var answer := AtOperand(members, ts, start, EMPTY_FRAME, 0);
    var frames := new Frame[STACK_SIZE](_ => EMPTY_FRAME);
    var top, operand := 0, true;
    pos, ok := start, true;
    Begin(members, ts, start);
    assert frames[..1] == [EMPTY_FRAME];
    while true
      invariant 0 <= top < frames.Length == STACK_SIZE && pos <= |ts|
      invariant Machine(members, ts, frames[..top + 1], pos, operand, ok, answer)
      decreases |ts| - pos, operand, top
    {
      if operand {
        var failed;
        failed, top, pos, operand := OperandState(members, ts, frames, top, pos, ok, answer);
        if failed { return Value(0), pos, false; }
      } else {
        ghost var stack := frames[..top + 1];
        FramesSmall(members, ts, stack, pos, operand, ok, answer);
        var op := OperatorAt(ts, pos);
        var reduced := ReduceLoop(frames[top], op);
        if op == NONE {
          value := reduced.values[0];
          if top == 0 {
            CloseRight(members, ts, stack, pos, ok, answer);
            return;
          }
          pos, ok := CloseFrame(members, ts, frames, top, pos, ok, value, answer);
          top := top - 1;
        } else {
          pos := PushOperator(members, ts, frames, top, pos, ok, op, reduced, answer);
          operand := true;
        }
      }
    }
  }

  lemma MachineBounds(
      members: Members, ts: seq<Token>, frames: seq<Frame>, pos: nat, operand: bool, ok: bool, answer: Outcome)
    requires Machine(members, ts, frames, pos, operand, ok, answer)
    ensures 0 < |frames| <= STACK_SIZE && pos <= |ts|
  {
    hide AtOperand, AtOperator, Resume, Shaped;
  }

  lemma Begin(members: Members, ts: seq<Token>, start: nat)
    requires start <= |ts|
    ensures Machine(members, ts, [EMPTY_FRAME], start, true, true, AtOperand(members, ts, start, EMPTY_FRAME, 0))
  {
    hide AtOperand;
    ResumeNone(members, ts, AtOperand(members, ts, start, EMPTY_FRAME, 0));
    assert [EMPTY_FRAME][..0] == [];
  }

  lemma FramesSmall(
      members: Members, ts: seq<Token>, frames: seq<Frame>, pos: nat, operand: bool, ok: bool, answer: Outcome)
    requires Machine(members, ts, frames, pos, operand, ok, answer)
    ensures Shaped(frames[|frames| - 1], if operand then 0 else 1)
    ensures forall i :: 0 <= i < |frames| ==> |frames[i].ops| <= 3 && |frames[i].values| <= 4
  {
    hide AtOperand, AtOperator, Resume, Shaped;
    forall i | 0 <= i < |frames|
      ensures |frames[i].ops| <= 3 && |frames[i].values| <= 4
    {
      ShapedIsSmall(frames[i], if operand || i < |frames| - 1 then 0 else 1);
    }
  }

  lemma ResumeNone(members: Members, ts: seq<Token>, o: Outcome)
    requires o.Done? ==> 0 < o.pos <= |ts|
    ensures Resume(members, ts, [], o) == o
  {
  }

  lemma ResumeStep(members: Members, ts: seq<Token>, outer: seq<Frame>, o: Outcome, from: nat)
    requires outer != [] && (forall i :: 0 <= i < |outer| ==> Shaped(outer[i], 0))
    requires from <= |ts| && (o.Done? ==> from < o.pos <= |ts|)
    ensures var last := |outer| - 1;
            Resume(members, ts, outer, o) ==
            Resume(members, ts, outer[..last], AfterGroup(members, ts, o, outer[last], last, from))
  {
  }

  lemma OperandUnfold(members: Members, ts: seq<Token>, pos: nat, f: Frame, depth: nat)
    requires pos <= |ts| && Shaped(f, 0)
    ensures var minus := TokenAt(ts, pos) == Minus;
            var negate := if minus then !f.negateNext else f.negateNext;
            var p := if minus then pos + 1 else pos;
            AtOperand(members, ts, pos, f, depth) ==
              if TokenAt(ts, p) == LParen then
                if depth + 1 >= STACK_SIZE then Failed
                else AfterGroup(members, ts, AtOperand(members, ts, p + 1, EMPTY_FRAME, depth + 1),
                                f.(negateNext := negate), depth, p)
              else
                var v := LiteralValue(members, TokenAt(ts, p));
                if v.None? then Failed
                else AtOperator(members, ts, p + 1, Push(f, SignOf(v.value, negate)).(negateNext := false), depth)
  {
  }

  lemma OperatorUnfold(members: Members, ts: seq<Token>, pos: nat, f: Frame, depth: nat)
    requires pos <= |ts| && Shaped(f, 1)
    ensures var op := OperatorAt(ts, pos);
            AtOperator(members, ts, pos, f, depth) ==
              if op == NONE then Done(Reduce(f, NONE).values[0], pos, true)
              else AtOperand(members, ts, pos + Width(op), PushOp(f, op), depth)
  {
  }

  lemma GroupUnfold(members: Members, ts: seq<Token>, inner: Outcome, f: Frame, depth: nat, from: nat)
    requires Shaped(f, 0) && from <= |ts| && inner.Done? && from < inner.pos <= |ts|
    ensures var closed := TokenAt(ts, inner.pos) == RParen;
            var p := if closed then inner.pos + 1 else inner.pos;
            var g := Push(f, SignOf(inner.value, f.negateNext)).(negateNext := false);
            AfterGroup(members, ts, inner, f, depth, from) ==
            Also(AtOperator(members, ts, p, g, depth), inner.clean && closed)
  {
  }

  // ---------- the grammar ----------

  datatype Primary = Literal(token: Token) | Group(inner: Disjunction)
  datatype Unary = Unary(negate: bool, body: Primary)
  datatype Shift = OneUnary(last: Unary) | Shl(left: Shift, last: Unary)
  datatype Conjunction = OneShift(only: Shift) | And(left: Conjunction, right: Shift)
  datatype Disjunction = OneConjunction(only: Conjunction) | Or(left: Disjunction, right: Conjunction)

  function PrimaryTokens(e: Primary): seq<Token> {
    match e
    case Literal(t) => [t]
    case Group(inner) => [LParen] + DisjunctionTokens(inner) + [RParen]
  }

  function UnaryTokens(e: Unary): seq<Token> {
    (if e.negate then [Minus] else []) + PrimaryTokens(e.body)
  }

  function ShiftTokens(e: Shift): seq<Token> {
    match e
    case OneUnary(u) => UnaryTokens(u)
    case Shl(left, u) => ShiftTokens(left) + [LAngle, LAngle] + UnaryTokens(u)
  }

  function ConjunctionTokens(e: Conjunction): seq<Token> {
    match e
    case OneShift(s) => ShiftTokens(s)
    case And(left, s) => ConjunctionTokens(left) + [Ampersand] + ShiftTokens(s)
  }

  function DisjunctionTokens(e: Disjunction): seq<Token> {
    match e
    case OneConjunction(c) => ConjunctionTokens(c)
    case Or(left, c) => DisjunctionTokens(left) + [Pipe] + ConjunctionTokens(c)
  }

  // Every literal is a well-formed number or a known member.
  predicate PrimaryOk(members: Members, e: Primary) {
    match e
    case Literal(t) => LiteralValue(members, t).Some?
    case Group(inner) => DisjunctionOk(members, inner)
  }

  predicate ShiftOk(members: Members, e: Shift) {
    match e
    case OneUnary(u) => PrimaryOk(members, u.body)
    case Shl(left, u) => ShiftOk(members, left) && PrimaryOk(members, u.body)
  }

  predicate ConjunctionOk(members: Members, e: Conjunction) {
    match e
    case OneShift(s) => ShiftOk(members, s)
    case And(left, s) => ConjunctionOk(members, left) && ShiftOk(members, s)
  }

  predicate DisjunctionOk(members: Members, e: Disjunction) {
    match e
    case OneConjunction(c) => ConjunctionOk(members, c)
    case Or(left, c) => DisjunctionOk(members, left) && ConjunctionOk(members, c)
  }

  function PrimaryValue(members: Members, e: Primary): Value
    requires PrimaryOk(members, e)
  {
    match e
    case Literal(t) => LiteralValue(members, t).value
    case Group(inner) => DisjunctionValue(members, inner)
  }

  function UnaryValue(members: Members, e: Unary): Value
    requires PrimaryOk(members, e.body)
  {
    SignOf(PrimaryValue(members, e.body), e.negate)
  }

  function ShiftValue(members: Members, e: Shift): Value
    requires ShiftOk(members, e)
  {
    match e
    case OneUnary(u) => UnaryValue(members, u)
    case Shl(left, u) => ApplyOp(ShiftValue(members, left), UnaryValue(members, u), SHIFT)
  }

  function ConjunctionValue(members: Members, e: Conjunction): Value
    requires ConjunctionOk(members, e)
  {
    match e
    case OneShift(s) => ShiftValue(members, s)
    case And(left, s) => ApplyOp(ConjunctionValue(members, left), ShiftValue(members, s), AND)
  }

  function DisjunctionValue(members: Members, e: Disjunction): Value
    requires DisjunctionOk(members, e)
  {
    match e
    case OneConjunction(c) => ConjunctionValue(members, c)
    case Or(left, c) => ApplyOp(DisjunctionValue(members, left), ConjunctionValue(members, c), OR)
  }

  function Max(a: nat, b: nat): nat { if a < b then b else a }

  // How deep parentheses are nested.
  function PrimaryDepth(e: Primary): nat {
    match e
    case Literal(_) => 0
    case Group(inner) => 1 + DisjunctionDepth(inner)
  }

  function ShiftDepth(e: Shift): nat {
    match e
    case OneUnary(u) => PrimaryDepth(u.body)
    case Shl(left, u) => Max(ShiftDepth(left), PrimaryDepth(u.body))
  }

  function ConjunctionDepth(e: Conjunction): nat {
    match e
    case OneShift(s) => ShiftDepth(s)
    case And(left, s) => Max(ConjunctionDepth(left), ShiftDepth(s))
  }

  function DisjunctionDepth(e: Disjunction): nat {
    match e
    case OneConjunction(c) => ConjunctionDepth(c)
    case Or(left, c) => Max(DisjunctionDepth(left), ConjunctionDepth(c))
  }

  // ---------- what an expression leaves in its frame ----------

  // The frame after an expression's operands were pushed, with the reductions that pushing its operators
  // made and no others.
  function AfterShift(members: Members, e: Shift, f: Frame): (r: Frame)
    requires ShiftOk(members, e) && Shaped(f, 0)
    ensures Shaped(r, 1)
  {
    match e
    case OneUnary(u) => Push(f, UnaryValue(members, u))
    case Shl(left, u) => Push(PushOp(AfterShift(members, left, f), SHIFT), UnaryValue(members, u))
  }

  function AfterConjunction(members: Members, e: Conjunction, f: Frame): (r: Frame)
    requires ConjunctionOk(members, e) && Shaped(f, 0)
    ensures Shaped(r, 1)
  {
    match e
    case OneShift(s) => AfterShift(members, s, f)
    case And(left, s) => AfterShift(members, s, PushOp(AfterConjunction(members, left, f), AND))
  }

  function AfterDisjunction(members: Members, e: Disjunction, f: Frame): (r: Frame)
    requires DisjunctionOk(members, e) && Shaped(f, 0)
    ensures Shaped(r, 1)
  {
    match e
    case OneConjunction(c) => AfterConjunction(members, c, f)
    case Or(left, c) => AfterConjunction(members, c, PushOp(AfterDisjunction(members, left, f), OR))
  }

  ghost predicate Below(f: Frame, op: Op) { f.ops != [] ==> f.ops[|f.ops| - 1] < op }

  lemma ReduceOne(f: Frame, a: Value, b: Value, o: Op, op: Op)
    requires Shaped(f, 0) && Below(f, o) && op <= o && o != NONE
    ensures PushOp(Push(f, a), o) == Frame(f.values + [a], f.ops + [o], f.negateNext)
    ensures Shaped(PushOp(Push(f, a), o), 0)
    ensures Reduce(Push(PushOp(Push(f, a), o), b), op) == Reduce(Push(f, ApplyOp(a, b, o)), op)
  {
    hide ApplyOp;
    assert Reduce(Push(f, a), o) == Push(f, a);
    var g := Push(PushOp(Push(f, a), o), b);
    assert g.ops[|g.ops| - 1] == o;
    assert g == Frame(f.values + [a] + [b], f.ops + [o], f.negateNext);
    assert g.values[..|g.values| - 2] == f.values && g.ops[..|g.ops| - 1] == f.ops;
    assert Pop(g) == Push(f, ApplyOp(a, b, o));
  }

  // Reduced by an operator that does not bind more strongly than <<, a shift expression is its value.
  lemma {:induction false} ReduceShift(members: Members, e: Shift, f: Frame, op: Op)
    requires ShiftOk(members, e) && Shaped(f, 0) && Below(f, SHIFT)
    ensures Reduce(AfterShift(members, e, f), op) == Reduce(Push(f, ShiftValue(members, e)), op)
    decreases e
  {
    hide ApplyOp, UnaryValue;
    match e
    case OneUnary(_) =>
    case Shl(left, u) =>
      ReduceShift(members, left, f, SHIFT);
      ReduceOne(f, ShiftValue(members, left), UnaryValue(members, u), SHIFT, op);
  }

  lemma {:induction false} ReduceConjunction(members: Members, e: Conjunction, f: Frame, op: Op)
    requires ConjunctionOk(members, e) && Shaped(f, 0) && Below(f, AND) && op <= AND
    ensures Reduce(AfterConjunction(members, e, f), op) == Reduce(Push(f, ConjunctionValue(members, e)), op)
    decreases e
  {
    hide ApplyOp, AfterShift, ShiftValue;
    match e
    case OneShift(s) => ReduceShift(members, s, f, op);
    case And(left, s) =>
      ReduceConjunction(members, left, f, AND);
      ReduceOne(f, ConjunctionValue(members, left), ShiftValue(members, s), AND, op);
      ReduceShift(members, s, PushOp(Push(f, ConjunctionValue(members, left)), AND), op);
  }

  lemma {:induction false} ReduceDisjunction(members: Members, e: Disjunction, f: Frame, op: Op)
    requires DisjunctionOk(members, e) && Shaped(f, 0) && Below(f, OR) && op <= OR
    ensures Reduce(AfterDisjunction(members, e, f), op) == Reduce(Push(f, DisjunctionValue(members, e)), op)
    decreases e
  {
    hide ApplyOp, AfterConjunction, ConjunctionValue;
    match e
    case OneConjunction(c) => ReduceConjunction(members, c, f, op);
    case Or(left, c) =>
      ReduceDisjunction(members, left, f, OR);
      ReduceOne(f, DisjunctionValue(members, left), ConjunctionValue(members, c), OR, op);
      ReduceConjunction(members, c, PushOp(Push(f, DisjunctionValue(members, left)), OR), op);
  }

  // ---------- the evaluation of the tokens of an expression ----------

  lemma HereToken(ts: seq<Token>, pos: nat, tokens: seq<Token>, i: nat)
    requires Here(ts, pos, tokens) && i < |tokens|
    ensures pos + i < |ts| && TokenAt(ts, pos + i) == tokens[i]
  {
    HereAt(ts, pos, tokens, i);
  }

  lemma {:induction false} EvalUnary(members: Members, ts: seq<Token>, pos: nat, e: Unary, f: Frame, depth: nat)
    requires depth < STACK_SIZE && Shaped(f, 0) && !f.negateNext
    requires PrimaryOk(members, e.body) && Here(ts, pos, UnaryTokens(e))
    ensures AtOperand(members, ts, pos, f, depth) ==
              if PrimaryDepth(e.body) + depth < STACK_SIZE
              then AtOperator(members, ts, pos + |UnaryTokens(e)|, Push(f, UnaryValue(members, e)), depth)
              else Failed
    decreases e
  {
    hide AtOperand, AtOperator, AfterGroup, Here, Negate;
    HereParts(ts, pos, if e.negate then [Minus] else [], PrimaryTokens(e.body));
    var p := if e.negate then pos + 1 else pos;
    HereToken(ts, p, PrimaryTokens(e.body), 0);
    HereToken(ts, pos, UnaryTokens(e), 0);
    OperandUnfold(members, ts, pos, f, depth);
    match e.body
    case Group(_) => if depth + 1 < STACK_SIZE { EvalGroup(members, ts, p, e, f, depth); }
    case Literal(_) => assert Push(f, UnaryValue(members, e)).(negateNext := false) == Push(f, UnaryValue(members, e));
  }

  // From the '(' at p on.
  lemma {:induction false} EvalGroup(members: Members, ts: seq<Token>, p: nat, e: Unary, f: Frame, depth: nat)
    requires depth + 1 < STACK_SIZE && e.body.Group? && PrimaryOk(members, e.body) && Here(ts, p, PrimaryTokens(e.body))
    requires Shaped(f, 0) && !f.negateNext && p < |ts|
    ensures AfterGroup(members, ts, AtOperand(members, ts, p + 1, EMPTY_FRAME, depth + 1),
                       f.(negateNext := e.negate), depth, p) ==
              if PrimaryDepth(e.body) + depth < STACK_SIZE
              then AtOperator(members, ts, p + |PrimaryTokens(e.body)|, Push(f, UnaryValue(members, e)), depth)
              else Failed
    decreases e.body
  {
    hide AtOperand, AtOperator, AfterGroup, Here, Reduce, Negate, AfterDisjunction;
    var inner, g := e.body.inner, f.(negateNext := e.negate);
    var tokens := DisjunctionTokens(inner);
    HereParts(ts, p, [LParen] + tokens, [RParen]);
    HereParts(ts, p, [LParen], tokens);
    EvalDisjunction(members, ts, p + 1, inner, EMPTY_FRAME, depth + 1);
    var q := p + 1 + |tokens|;
    HereToken(ts, q, [RParen], 0);
    if PrimaryDepth(e.body) + depth < STACK_SIZE {
      OperatorUnfold(members, ts, q, AfterDisjunction(members, inner, EMPTY_FRAME), depth + 1);
      ReduceDisjunction(members, inner, EMPTY_FRAME, NONE);
      ReduceDone(Push(EMPTY_FRAME, DisjunctionValue(members, inner)));
      GroupUnfold(members, ts, Done(DisjunctionValue(members, inner), q, true), g, depth, p);
      assert Push(g, UnaryValue(members, e)).(negateNext := false) == Push(f, UnaryValue(members, e));
    } else {
      assert AfterGroup(members, ts, Failed, g, depth, p) == Failed by { GroupFailed(members, ts, g, depth, p); }
    }
  }

  lemma GroupFailed(members: Members, ts: seq<Token>, f: Frame, depth: nat, from: nat)
    requires Shaped(f, 0) && from <= |ts|
    ensures AfterGroup(members, ts, Failed, f, depth, from) == Failed
  {
  }

  lemma ReduceDone(f: Frame)
    requires Shaped(f, 1) && f.ops == []
    ensures Reduce(f, NONE) == f
  {
  }

  lemma {:induction false} EvalShift(members: Members, ts: seq<Token>, pos: nat, e: Shift, f: Frame, depth: nat)
    requires depth < STACK_SIZE && ShiftOk(members, e) && Here(ts, pos, ShiftTokens(e)) && Shaped(f, 0) && !f.negateNext
    ensures AtOperand(members, ts, pos, f, depth) ==
              if ShiftDepth(e) + depth < STACK_SIZE
              then AtOperator(members, ts, pos + |ShiftTokens(e)|, AfterShift(members, e, f), depth)
              else Failed
    decreases e
  {
    hide AtOperand, AtOperator, Here, Reduce, PushOp, UnaryValue, UnaryTokens;
    match e
    case OneUnary(u) => EvalUnary(members, ts, pos, u, f, depth);
    case Shl(left, u) =>
      var tokens := ShiftTokens(left);
      HereParts(ts, pos, tokens + [LAngle, LAngle], UnaryTokens(u));
      HereParts(ts, pos, tokens, [LAngle, LAngle]);
      EvalShift(members, ts, pos, left, f, depth);
      var q := pos + |tokens|;
      HereToken(ts, q, [LAngle, LAngle], 0);
      HereToken(ts, q, [LAngle, LAngle], 1);
      if ShiftDepth(left) + depth < STACK_SIZE {
        var g := AfterShift(members, left, f);
        OperatorUnfold(members, ts, q, g, depth);
        KeepsSign(g, SHIFT);
        ShiftKeepsSign(members, left, f);
        EvalUnary(members, ts, q + 2, u, PushOp(g, SHIFT), depth);
      }
  }

  lemma {:induction false} EvalConjunction(
      members: Members, ts: seq<Token>, pos: nat, e: Conjunction, f: Frame, depth: nat)
    requires depth < STACK_SIZE && Shaped(f, 0) && !f.negateNext
    requires ConjunctionOk(members, e) && Here(ts, pos, ConjunctionTokens(e))
    ensures AtOperand(members, ts, pos, f, depth) ==
              if ConjunctionDepth(e) + depth < STACK_SIZE
              then AtOperator(members, ts, pos + |ConjunctionTokens(e)|, AfterConjunction(members, e, f), depth)
              else Failed
    decreases e
  {
    hide AtOperand, AtOperator, Here, Reduce, PushOp, AfterShift, ShiftTokens;
    match e
    case OneShift(s) => EvalShift(members, ts, pos, s, f, depth);
    case And(left, s) =>
      var tokens := ConjunctionTokens(left);
      HereParts(ts, pos, tokens + [Ampersand], ShiftTokens(s));
      HereParts(ts, pos, tokens, [Ampersand]);
      EvalConjunction(members, ts, pos, left, f, depth);
      var q := pos + |tokens|;
      HereToken(ts, q, [Ampersand], 0);
      if ConjunctionDepth(left) + depth < STACK_SIZE {
        var g := AfterConjunction(members, left, f);
        OperatorUnfold(members, ts, q, g, depth);
        KeepsSign(g, AND);
        ConjunctionKeepsSign(members, left, f);
        EvalShift(members, ts, q + 1, s, PushOp(g, AND), depth);
      }
  }

  lemma {:induction false} EvalDisjunction(
      members: Members, ts: seq<Token>, pos: nat, e: Disjunction, f: Frame, depth: nat)
    requires depth < STACK_SIZE && Shaped(f, 0) && !f.negateNext
    requires DisjunctionOk(members, e) && Here(ts, pos, DisjunctionTokens(e))
    ensures AtOperand(members, ts, pos, f, depth) ==
              if DisjunctionDepth(e) + depth < STACK_SIZE
              then AtOperator(members, ts, pos + |DisjunctionTokens(e)|, AfterDisjunction(members, e, f), depth)
              else Failed
    decreases e
  {
    hide AtOperand, AtOperator, Here, Reduce, PushOp, AfterConjunction, ConjunctionTokens;
    match e
    case OneConjunction(c) => EvalConjunction(members, ts, pos, c, f, depth);
    case Or(left, c) =>
      var tokens := DisjunctionTokens(left);
      HereParts(ts, pos, tokens + [Pipe], ConjunctionTokens(c));
      HereParts(ts, pos, tokens, [Pipe]);
      EvalDisjunction(members, ts, pos, left, f, depth);
      var q := pos + |tokens|;
      HereToken(ts, q, [Pipe], 0);
      if DisjunctionDepth(left) + depth < STACK_SIZE {
        var g := AfterDisjunction(members, left, f);
        OperatorUnfold(members, ts, q, g, depth);
        KeepsSign(g, OR);
        DisjunctionKeepsSign(members, left, f);
        EvalConjunction(members, ts, q + 1, c, PushOp(g, OR), depth);
      }
  }

  lemma {:induction false} KeepsSign(f: Frame, op: Op)
    requires Shaped(f, 1)
    ensures Reduce(f, op).negateNext == f.negateNext
    ensures op != NONE ==> PushOp(f, op).negateNext == f.negateNext
    decreases |f.ops|
  {
    hide ApplyOp;
    if f.ops != [] && f.ops[|f.ops| - 1] >= op { KeepsSign(Pop(f), op); }
  }

  lemma {:induction false} ShiftKeepsSign(members: Members, e: Shift, f: Frame)
    requires ShiftOk(members, e) && Shaped(f, 0)
    ensures AfterShift(members, e, f).negateNext == f.negateNext
  {
    hide UnaryValue, PushOp;
    if e.Shl? {
      ShiftKeepsSign(members, e.left, f);
      KeepsSign(AfterShift(members, e.left, f), SHIFT);
    }
  }

  lemma {:induction false} ConjunctionKeepsSign(members: Members, e: Conjunction, f: Frame)
    requires ConjunctionOk(members, e) && Shaped(f, 0)
    ensures AfterConjunction(members, e, f).negateNext == f.negateNext
  {
    hide AfterShift, PushOp;
    match e
    case OneShift(s) => ShiftKeepsSign(members, s, f);
    case And(left, s) =>
      ConjunctionKeepsSign(members, left, f);
      KeepsSign(AfterConjunction(members, left, f), AND);
      ShiftKeepsSign(members, s, PushOp(AfterConjunction(members, left, f), AND));
  }

  lemma {:induction false} DisjunctionKeepsSign(members: Members, e: Disjunction, f: Frame)
    requires DisjunctionOk(members, e) && Shaped(f, 0)
    ensures AfterDisjunction(members, e, f).negateNext == f.negateNext
  {
    hide AfterConjunction, PushOp;
    match e
    case OneConjunction(c) => ConjunctionKeepsSign(members, c, f);
    case Or(left, c) =>
      DisjunctionKeepsSign(members, left, f);
      KeepsSign(AfterDisjunction(members, left, f), OR);
      ConjunctionKeepsSign(members, c, PushOp(AfterDisjunction(members, left, f), OR));
  }

  // For every expression of the grammar that no operator follows: the evaluator returns its value and
  // stops after its tokens exactly when its parentheses are nested less than 32 deep, and fails otherwise.
  lemma ExpressionValue(members: Members, ts: seq<Token>, pos: nat, e: Disjunction)
    requires DisjunctionOk(members, e) && Here(ts, pos, DisjunctionTokens(e))
    requires OperatorAt(ts, pos + |DisjunctionTokens(e)|) == NONE
    ensures AtOperand(members, ts, pos, EMPTY_FRAME, 0) ==
              if DisjunctionDepth(e) < STACK_SIZE
              then Done(DisjunctionValue(members, e), pos + |DisjunctionTokens(e)|, true)
              else Failed
  {
    hide AtOperand, AtOperator, Reduce, AfterDisjunction;
    EvalDisjunction(members, ts, pos, e, EMPTY_FRAME, 0);
    if DisjunctionDepth(e) < STACK_SIZE {
      OperatorUnfold(members, ts, pos + |DisjunctionTokens(e)|, AfterDisjunction(members, e, EMPTY_FRAME), 0);
      ReduceDisjunction(members, e, EMPTY_FRAME, NONE);
      ReduceDone(Push(EMPTY_FRAME, DisjunctionValue(members, e)));
    }
  }
}
