/** Expression trees, the postfix programs they are read from and printed to, and
    the two evaluators: recursion over a tree and a stack machine over a program.
 */
module Expressions {
  import opened Options
  import opened Words
  import opened BitFields

  /** Operators with one operand. */
  datatype Unary =
    | Not
    | IsZero
    | Parity
    | Crop(bits: nat)
    | SignExtend(bits: nat)
    | Select(skip: nat, take: nat)

  /** Operators with two operands. */
  datatype Binary =
    | Add | Sub | Mul | UnsignedDiv | Div
    | Shl | Shr
    | And | Or | Xor
    | CmpLt
    | DepositBits | ExtractBits

  /** A tree node holds as many children as its operator takes (`Op::num_args`). */
  datatype Node =
    | Arg(index: nat, width: nat, signed: bool)
    | Const(value: Word)
    | Un(op: Unary, arg: Node)
    | Bin(bop: Binary, left: Node, right: Node)
    | IfZero(cond: Node, ifZero: Node, ifNonzero: Node)

  /** The raw value of every input, as an unsigned number. */
  type Env = nat -> Word

  // ------------------------------------------------------------ well-formedness

  /** The operand ranges in which no distance of the evaluator's shifts wraps around. */
  predicate ValidUnary(op: Unary)
  {
    match op
    case Crop(n) => n <= 127
    case SignExtend(n) => 1 <= n <= 127
    case Select(s, t) => t <= 127 && (t == 0 || s + t <= 128)
    case _ => true
  }

  /** The one field out of range that reduction itself produces: it reads an empty table, and so
      nothing but zeros, at whatever distance. */
  predicate ReadsEmptyTable(op: Unary, a: Node)
  {
    op == Select(255, 1) && (a == Const(Zero()) || (a.Bin? && a.bop.Shl? && a.left == Const(Zero())))
  }

  /** Every use of an input declares the width of that input, and every operator is in range. */
  predicate Valid(t: Node, widths: nat -> nat)
  {
    match t
    case Arg(i, w, _) => w == widths(i) && 1 <= w <= 128
    case Const(_) => true
    case Un(op, a) => (ValidUnary(op) || ReadsEmptyTable(op, a)) && Valid(a, widths)
    case Bin(_, a, b) => Valid(a, widths) && Valid(b, widths)
    case IfZero(c, z, n) => Valid(c, widths) && Valid(z, widths) && Valid(n, widths)
  }

  ghost predicate InRange(env: Env, widths: nat -> nat)
  {
    forall i: nat :: Fits(env(i), widths(i))
  }

  // ----------------------------------------------------------- tree evaluation

  function EvalUnary(op: Unary, a: Word): Word
  {
    match op
    case Not => WNot(a)
    case IsZero => WIsZero(a)
    case Parity => WParity(a)
    case Crop(n) => CropOp(a, n)
    case SignExtend(n) => ExtendOp(a, n)
    case Select(s, t) => SelectOp(a, s, t)
  }

  function EvalBinary(op: Binary, a: Word, b: Word): Word
  {
    match op
    case Add => WAdd(a, b)
    case Sub => WSub(a, b)
    case Mul => WMul(a, b)
    case UnsignedDiv => WUnsignedDiv(a, b)
    case Div => WDiv(a, b)
    case Shl => WShl(a, Amount(b))
    case Shr => WShr(a, Amount(b))
    case And => WAnd(a, b)
    case Or => WOr(a, b)
    case Xor => WXor(a, b)
    case CmpLt => WCmpLt(a, b)
    case DepositBits => WDeposit(a, b)
    case ExtractBits => WExtract(a, b)
  }

  function EvalIfZero(c: Word, z: Word, n: Word): Word
  {
    if c == Zero() then z else n
  }

  /** How an input is read: as it is, or sign-extended from its width. */
  function EvalInput(v: Word, width: nat, signed: bool): Word
  {
    if signed && 1 <= width <= 128 then WSignExtend(v, width) else v
  }

  function Eval(t: Node, env: Env): Word
  {
    match t
    case Arg(i, w, signed) => EvalInput(env(i), w, signed)
    case Const(c) => c
    case Un(op, a) => EvalUnary(op, Eval(a, env))
    case Bin(op, a, b) => EvalBinary(op, Eval(a, env), Eval(b, env))
    case IfZero(c, z, n) => EvalIfZero(Eval(c, env), Eval(z, env), Eval(n, env))
  }

  lemma EmptyTableValue(op: Unary, a: Node, env: Env)
    requires ReadsEmptyTable(op, a)
    ensures Eval(Un(op, a), env) == Zero()
  {
    var x := Eval(a, env);
    if a.Const? {
      assert x == Zero();
    } else {
      assert Eval(Const(Zero()), env) == Zero();
      assert x == WShl(Zero(), Amount(Eval(a.right, env)));
    }
    assert forall i :: 0 <= i < 128 ==> !x[i];
    assert SelectOp(x, 255, 1) == Zero();
  }

  // ---------------------------------------------------------- postfix programs

  datatype Op =
    | Hole(n: nat)
    | Literal(c: int)
    | Apply1(u: Unary)
    | Apply2(b: Binary)
    | ApplyIfZero

  datatype ArgSpec =
    | Input(index: nat, width: nat, signed: bool)
    | TinyConst(c: int)
    | Pooled(index: nat)

  /** A synthesized computation: postfix operators, the meaning of each hole, a constant pool. */
  datatype Program = Program(ops: seq<Op>, args: seq<ArgSpec>, consts: seq<Word>)

  function Interpret(p: Program, n: nat, env: Env): Option<Word>
  {
    if n >= |p.args| then None
    else
      match p.args[n]
      case Input(i, w, signed) => Some(EvalInput(env(i), w, signed))
      case TinyConst(c) => Some(OfInt(c))
      case Pooled(k) => if k < |p.consts| then Some(p.consts[k]) else None
  }

  /** The machine keeps its top element apart from the stack below it. */
  datatype Machine = Machine(stack: seq<Word>, top: Word)

  /** One operator; `None` where the source panics. */
  function Step(op: Op, p: Program, env: Env, m: Machine): Option<Machine>
  {
    match op
    case Hole(n) =>
      var v := Interpret(p, n, env);
      if v.None? then None else Some(Machine(m.stack + [m.top], v.value))
    case Literal(c) => Some(Machine(m.stack + [m.top], OfInt(c)))
    case Apply1(u) => Some(m.(top := EvalUnary(u, m.top)))
    case Apply2(b) =>
      var n := |m.stack|;
      if n < 1 then None
      else Some(Machine(m.stack[..n - 1], EvalBinary(b, m.stack[n - 1], m.top)))
    case ApplyIfZero =>
      var n := |m.stack|;
      if n < 2 then None
      else Some(Machine(m.stack[..n - 2], EvalIfZero(m.stack[n - 2], m.stack[n - 1], m.top)))
  }

  function RunFrom(ops: seq<Op>, p: Program, env: Env, m: Machine): Option<Machine>
  {
    if |ops| == 0 then Some(m)
    else
      var next := Step(ops[0], p, env, m);
      if next.None? then None else RunFrom(ops[1..], p, env, next.value)
  }

  /** The value a program leaves on top of the stack, which starts with a zero on top. */
  function Run(p: Program, env: Env): Option<Word>
  {
    var m := RunFrom(p.ops, p, env, Machine([], Zero()));
    if m.None? then None else Some(m.value.top)
  }

  /** The evaluation loop of `evaluate_on_stack`. */
  method EvaluateOnStack(p: Program, env: Env) returns (result: Option<Word>)
    ensures result == Run(p, env)
  {
    var m := Machine([], Zero());
    var i := 0;
    assert p.ops[0..] == p.ops;
    while i < |p.ops|
      invariant 0 <= i <= |p.ops|
      invariant RunFrom(p.ops[i..], p, env, m) == RunFrom(p.ops, p, env, Machine([], Zero()))
    {
      var next := Step(p.ops[i], p, env, m);
      assert p.ops[i..][1..] == p.ops[i + 1..];
      if next.None? {
        return None;
      }
      m := next.value;
      i := i + 1;
    }
    result := Some(m.top);
  }

  // ------------------------------------------- reading a program into a tree

  /** The leaf that a hole stands for. */
  function HoleNode(p: Program, n: nat): Option<Node>
  {
    if n >= |p.args| then None
    else
      match p.args[n]
      case Input(i, w, signed) => Some(Node.Arg(i, w, signed))
      case TinyConst(c) => Some(Const(OfInt(c)))
      case Pooled(k) => if k < |p.consts| then Some(Const(p.consts[k])) else None
  }

  function BuildStep(op: Op, p: Program, stack: seq<Node>): Option<seq<Node>>
  {
    var n := |stack|;
    match op
    case Hole(h) =>
      var leaf := HoleNode(p, h);
      if leaf.None? then None else Some(stack + [leaf.value])
    case Literal(c) => Some(stack + [Const(OfInt(c))])
    case Apply1(u) => if n < 1 then None else Some(stack[..n - 1] + [Un(u, stack[n - 1])])
    case Apply2(b) =>
      if n < 2 then None else Some(stack[..n - 2] + [Bin(b, stack[n - 2], stack[n - 1])])
    case ApplyIfZero =>
      if n < 3 then None
      else Some(stack[..n - 3] + [IfZero(stack[n - 3], stack[n - 2], stack[n - 1])])
  }

  function BuildFrom(ops: seq<Op>, p: Program, stack: seq<Node>): Option<seq<Node>>
  {
    if |ops| == 0 then Some(stack)
    else
      var next := BuildStep(ops[0], p, stack);
      if next.None? then None else BuildFrom(ops[1..], p, next.value)
  }

  /** The tree of a program: the last entry of the final stack. */
  function Tree(p: Program): Option<Node>
  {
    var stack := BuildFrom(p.ops, p, []);
    if stack.None? || |stack.value| == 0 then None else Some(stack.value[|stack.value| - 1])
  }

  /** The loop of `tree_from`. */
  method TreeFrom(p: Program) returns (tree: Option<Node>)
    ensures tree == Tree(p)
  {
    var stack: seq<Node> := [];
    var i := 0;
    assert p.ops[0..] == p.ops;
    while i < |p.ops|
      invariant 0 <= i <= |p.ops|
      invariant BuildFrom(p.ops[i..], p, stack) == BuildFrom(p.ops, p, [])
    {
      var next := BuildStep(p.ops[i], p, stack);
      assert p.ops[i..][1..] == p.ops[i + 1..];
      if next.None? {
        return None;
      }
      stack := next.value;
      i := i + 1;
    }
    if |stack| == 0 {
      return None;
    }
    tree := Some(stack[|stack| - 1]);
  }

  lemma {:induction false} BuildAppend(a: seq<Op>, b: seq<Op>, p: Program, stack: seq<Node>)
    ensures BuildFrom(a + b, p, stack)
         == (var r := BuildFrom(a, p, stack); if r.None? then None else BuildFrom(b, p, r.value))
    decreases |a|
  {
    if |a| == 0 {
      assert a + b == b;
    } else {
      assert (a + b)[1..] == a[1..] + b;
      var next := BuildStep(a[0], p, stack);
      if next.Some? {
        BuildAppend(a[1..], b, p, next.value);
      }
    }
  }

  // ------------------------------------------- a program computes its own tree

  function Evals(ts: seq<Node>, env: Env): (r: seq<Word>)
    ensures |r| == |ts|
    ensures forall i :: 0 <= i < |ts| ==> r[i] == Eval(ts[i], env)
  {
    seq(|ts|, i requires 0 <= i < |ts| => Eval(ts[i], env))
  }

  /** The machine holds, above the initial zero, the value of each tree on the tree stack. */
  ghost predicate Holds(m: Machine, stack: seq<Node>, env: Env)
  {
    m.stack + [m.top] == [Zero()] + Evals(stack, env)
  }

  lemma EvalsPush(stack: seq<Node>, k: nat, node: Node, env: Env)
    requires k <= |stack|
    ensures Evals(stack[..k] + [node], env) == Evals(stack, env)[..k] + [Eval(node, env)]
  {
  }

  lemma MachineHolds(m: Machine, stack: seq<Node>, env: Env)
    requires Holds(m, stack, env)
    ensures |m.stack| == |stack| && m.stack == ([Zero()] + Evals(stack, env))[..|stack|]
    ensures m.top == ([Zero()] + Evals(stack, env))[|stack|]
  {
    var all := [Zero()] + Evals(stack, env);
    assert (m.stack + [m.top])[..|m.stack|] == m.stack;
    assert all[|stack|] == (m.stack + [m.top])[|stack|];
  }

  lemma StepHole(h: nat, p: Program, env: Env, m: Machine, stack: seq<Node>)
    requires Holds(m, stack, env) && BuildStep(Hole(h), p, stack).Some?
    ensures Step(Hole(h), p, env, m).Some?
    ensures Holds(Step(Hole(h), p, env, m).value, BuildStep(Hole(h), p, stack).value, env)
  {
    hide EvalUnary, EvalBinary, EvalIfZero, OfInt, Evals;
    var n, vs := |stack|, Evals(stack, env);
    MachineHolds(m, stack, env);
    EvalsPush(stack, n, HoleNode(p, h).value, env);
  }

  lemma StepLiteral(c: int, p: Program, env: Env, m: Machine, stack: seq<Node>)
    requires Holds(m, stack, env) && BuildStep(Literal(c), p, stack).Some?
    ensures Step(Literal(c), p, env, m).Some?
    ensures Holds(Step(Literal(c), p, env, m).value, BuildStep(Literal(c), p, stack).value, env)
  {
    hide EvalUnary, EvalBinary, EvalIfZero, OfInt, Evals;
    var n, vs := |stack|, Evals(stack, env);
    MachineHolds(m, stack, env);
    EvalsPush(stack, n, Const(OfInt(c)), env);
  }

  lemma StepUnary(u: Unary, p: Program, env: Env, m: Machine, stack: seq<Node>)
    requires Holds(m, stack, env) && BuildStep(Apply1(u), p, stack).Some?
    ensures Step(Apply1(u), p, env, m).Some?
    ensures Holds(Step(Apply1(u), p, env, m).value, BuildStep(Apply1(u), p, stack).value, env)
  {
    hide EvalUnary, EvalBinary, EvalIfZero, OfInt, Evals;
    var n, vs := |stack|, Evals(stack, env);
    MachineHolds(m, stack, env);
    EvalsPush(stack, n - 1, Un(u, stack[n - 1]), env);
  }

  lemma StepBinary(b: Binary, p: Program, env: Env, m: Machine, stack: seq<Node>)
    requires Holds(m, stack, env) && BuildStep(Apply2(b), p, stack).Some?
    ensures Step(Apply2(b), p, env, m).Some?
    ensures Holds(Step(Apply2(b), p, env, m).value, BuildStep(Apply2(b), p, stack).value, env)
  {
    hide EvalUnary, EvalBinary, EvalIfZero, OfInt, Evals;
    var n, vs := |stack|, Evals(stack, env);
    MachineHolds(m, stack, env);
    EvalsPush(stack, n - 2, Bin(b, stack[n - 2], stack[n - 1]), env);
    assert m.stack[n - 1] == vs[n - 2];
    assert m.stack[..n - 1] == [Zero()] + vs[..n - 2];
  }

  lemma StepIfZero(p: Program, env: Env, m: Machine, stack: seq<Node>)
    requires Holds(m, stack, env) && BuildStep(ApplyIfZero, p, stack).Some?
    ensures Step(ApplyIfZero, p, env, m).Some?
    ensures Holds(Step(ApplyIfZero, p, env, m).value, BuildStep(ApplyIfZero, p, stack).value, env)
  {
    hide EvalUnary, EvalBinary, EvalIfZero, OfInt, Evals;
    var n, vs := |stack|, Evals(stack, env);
    MachineHolds(m, stack, env);
    EvalsPush(stack, n - 3, IfZero(stack[n - 3], stack[n - 2], stack[n - 1]), env);
    assert m.stack[n - 1] == vs[n - 2] && m.stack[n - 2] == vs[n - 3];
    assert m.stack[..n - 2] == [Zero()] + vs[..n - 3];
  }

  lemma StepSimulates(op: Op, p: Program, env: Env, m: Machine, stack: seq<Node>)
    requires Holds(m, stack, env)
    requires BuildStep(op, p, stack).Some?
    ensures Step(op, p, env, m).Some?
    ensures Holds(Step(op, p, env, m).value, BuildStep(op, p, stack).value, env)
  {
    hide Step, BuildStep, Holds;
    match op
    case Hole(h) => StepHole(h, p, env, m, stack);
    case Literal(c) => StepLiteral(c, p, env, m, stack);
    case Apply1(u) => StepUnary(u, p, env, m, stack);
    case Apply2(b) => StepBinary(b, p, env, m, stack);
    case ApplyIfZero => StepIfZero(p, env, m, stack);
  }

  lemma {:induction false} RunSimulates(ops: seq<Op>, p: Program, env: Env, m: Machine, stack: seq<Node>)
    requires Holds(m, stack, env)
    requires BuildFrom(ops, p, stack).Some?
    ensures RunFrom(ops, p, env, m).Some?
    ensures Holds(RunFrom(ops, p, env, m).value, BuildFrom(ops, p, stack).value, env)
    decreases |ops|
  {
    if |ops| > 0 {
      StepSimulates(ops[0], p, env, m, stack);
      RunSimulates(ops[1..], p, env, Step(ops[0], p, env, m).value, BuildStep(ops[0], p, stack).value);
    }
  }

  /** Every program that reads into a tree runs without panicking and computes that tree. */
  lemma TreeComputesProgram(p: Program, env: Env)
    requires Tree(p).Some?
    ensures Run(p, env) == Some(Eval(Tree(p).value, env))
  {
    var start := Machine([], Zero());
    assert Evals([], env) == [];
    assert [] + [start.top] == [Zero()] + [];
    assert Holds(start, [], env);
    RunSimulates(p.ops, p, env, start, []);
    var m := RunFrom(p.ops, p, env, start).value;
    var stack := BuildFrom(p.ops, p, []).value;
    assert (m.stack + [m.top])[|m.stack|] == ([Zero()] + Evals(stack, env))[|stack|];
  }

  // ------------------------------------------ printing a tree as a program

  predicate FitsI8(c: Word) { -128 <= ToInt(c) <= 127 }

  /** Appends the postfix form of `t`: a hole per input and per constant outside the `i8` range. */
  function Print(t: Node, p: Program): Program
    decreases t
  {
    match t
    case Arg(i, w, signed) =>
      Program(p.ops + [Hole(|p.args|)], p.args + [Input(i, w, signed)], p.consts)
    case Const(c) =>
      if FitsI8(c) then p.(ops := p.ops + [Literal(ToInt(c))])
      else Program(p.ops + [Hole(|p.args|)], p.args + [Pooled(|p.consts|)], p.consts + [c])
    case Un(op, a) =>
      var p1 := Print(a, p);
      p1.(ops := p1.ops + [Apply1(op)])
    case Bin(op, a, b) =>
      var p2 := Print(b, Print(a, p));
      p2.(ops := p2.ops + [Apply2(op)])
    case IfZero(c, z, n) =>
      var p3 := Print(n, Print(z, Print(c, p)));
      p3.(ops := p3.ops + [ApplyIfZero])
  }

  const Empty := Program([], [], [])

  /** A constant is printed in place exactly when it is a signed byte, and else goes into the pool. */
  lemma ConstantPooled(c: Word, p: Program)
    ensures var r := Print(Const(c), p);
            && |r.ops| == |p.ops| + 1
            && if -128 <= ToInt(c) <= 127 then r.consts == p.consts && r.args == p.args
               else r.consts == p.consts + [c] && |r.args| == |p.args| + 1
  {
  }

  /** The three output buffers of `create_template`. */
  class TemplateBuffers {
    var ops: seq<Op>
    var args: seq<ArgSpec>
    var consts: seq<Word>

    constructor ()
      ensures Contents() == Empty
    {
      ops, args, consts := [], [], [];
    }

    function Contents(): Program
      reads this
    {
      Program(ops, args, consts)
    }

    method CreateTemplate(t: Node)
      modifies this
      ensures Contents() == Print(t, old(Contents()))
      decreases t
    {
      var newOp;
      match t {
        case Arg(i, w, signed) =>
          newOp := Hole(|args|);
          args := args + [Input(i, w, signed)];
        case Const(c) =>
          if FitsI8(c) {
            newOp := Literal(ToInt(c));
          } else {
            newOp := Hole(|args|);
            args := args + [Pooled(|consts|)];
            consts := consts + [c];
          }
        case Un(op, a) =>
          CreateTemplate(a);
          newOp := Apply1(op);
        case Bin(op, a, b) =>
          CreateTemplate(a);
          CreateTemplate(b);
          newOp := Apply2(op);
        case IfZero(c, z, n) =>
          CreateTemplate(c);
          CreateTemplate(z);
          CreateTemplate(n);
          newOp := ApplyIfZero;
      }
      ops := ops + [newOp];
    }
  }

  /** `q` has grown from `p` at the end of each buffer. */
  ghost predicate Extends(q: Program, p: Program)
  {
    p.ops <= q.ops && p.args <= q.args && p.consts <= q.consts
  }

  lemma {:induction false} PrintExtends(t: Node, p: Program)
    ensures Extends(Print(t, p), p)
    decreases t
  {
    match t
    case Arg(_, _, _) =>
    case Const(_) =>
    case Un(_, a) => PrintExtends(a, p);
    case Bin(_, a, b) =>
      PrintExtends(a, p);
      PrintExtends(b, Print(a, p));
    case IfZero(c, z, n) =>
      PrintExtends(c, p);
      PrintExtends(z, Print(c, p));
      PrintExtends(n, Print(z, Print(c, p)));
  }

  /** The operators that printing `t` after `p` appends. */
  function Printed(t: Node, p: Program): seq<Op>
  {
    PrintExtends(t, p);
    Print(t, p).ops[|p.ops|..]
  }

  lemma PrintedCons(q: Program, p: Program, op: Op)
    requires Extends(q, p)
    ensures (q.ops + [op])[|p.ops|..] == q.ops[|p.ops|..] + [op]
  {
  }

  lemma PrintedSplit(r: Program, q: Program, p: Program)
    requires Extends(q, p) && Extends(r, q)
    ensures r.ops[|p.ops|..] == q.ops[|p.ops|..] + r.ops[|q.ops|..]
  {
    assert r.ops[..|q.ops|] == q.ops;
  }

  /** Reading the printed operators back pushes exactly the printed tree, whatever is already on
      the stack and however the buffers grow later. */
  lemma {:induction false} PrintThenBuild(t: Node, p: Program, full: Program, stack: seq<Node>)
    requires Extends(full, Print(t, p))
    ensures BuildFrom(Printed(t, p), full, stack) == Some(stack + [t])
    decreases t
  {
    PrintExtends(t, p);
    match t
    case Arg(i, w, signed) =>
      BuildOne(Hole(|p.args|), Printed(t, p), full, stack);
    case Const(c) =>
      if FitsI8(c) {
        ToIntCong(c);
        BuildOne(Literal(ToInt(c)), Printed(t, p), full, stack);
      } else {
        BuildOne(Hole(|p.args|), Printed(t, p), full, stack);
      }
    case Un(op, a) =>
      PrintExtends(a, p);
      PrintThenBuild(a, p, full, stack);
      PrintedCons(Print(a, p), p, Apply1(op));
      BuildAppend(Printed(a, p), [Apply1(op)], full, stack);
      BuildOne(Apply1(op), [Apply1(op)], full, stack + [a]);
    case Bin(op, a, b) =>
      var p1 := Print(a, p);
      PrintedBinary(op, a, b, p);
      PrintExtends(b, p1);
      PrintThenBuild(a, p, full, stack);
      PrintThenBuild(b, p1, full, stack + [a]);
      BuildBinary(Printed(a, p), Printed(b, p1), op, full, stack, a, b);
    case IfZero(c, z, n) =>
      var p1 := Print(c, p);
      var p2 := Print(z, p1);
      PrintedIfZero(c, z, n, p);
      PrintExtends(z, p1);
      PrintExtends(n, p2);
      PrintThenBuild(c, p, full, stack);
      PrintThenBuild(z, p1, full, stack + [c]);
      PrintThenBuild(n, p2, full, stack + [c] + [z]);
      BuildIfZero(Printed(c, p), Printed(z, p1), Printed(n, p2), full, stack, c, z, n);
  }

  lemma PrintBinaryOps(op: Binary, a: Node, b: Node, p: Program)
    ensures Print(Bin(op, a, b), p).ops == Print(b, Print(a, p)).ops + [Apply2(op)]
  {
  }

  lemma PrintedBinary(op: Binary, a: Node, b: Node, p: Program)
    ensures Printed(Bin(op, a, b), p) == Printed(a, p) + Printed(b, Print(a, p)) + [Apply2(op)]
  {
    hide Print;
    var p1 := Print(a, p);
    var p2 := Print(b, p1);
    PrintExtends(a, p);
    PrintExtends(b, p1);
    PrintBinaryOps(op, a, b, p);
    PrintedCons(p2, p, Apply2(op));
    PrintedSplit(p2, p1, p);
  }

  lemma PrintedIfZero(c: Node, z: Node, n: Node, p: Program)
    ensures Printed(IfZero(c, z, n), p) ==
            Printed(c, p) + Printed(z, Print(c, p)) + Printed(n, Print(z, Print(c, p))) + [ApplyIfZero]
  {
    var p1 := Print(c, p);
    var p2 := Print(z, p1);
    var p3 := Print(n, p2);
    PrintExtends(c, p);
    PrintExtends(z, p1);
    PrintExtends(n, p2);
    assert Print(IfZero(c, z, n), p).ops == p3.ops + [ApplyIfZero];
    PrintedCons(p3, p, ApplyIfZero);
    PrintedSplit(p3, p2, p);
    PrintedSplit(p2, p1, p);
  }

  lemma BuildBinary(first: seq<Op>, second: seq<Op>, op: Binary, p: Program, stack: seq<Node>, a: Node, b: Node)
    requires BuildFrom(first, p, stack) == Some(stack + [a])
    requires BuildFrom(second, p, stack + [a]) == Some(stack + [a] + [b])
    ensures BuildFrom(first + second + [Apply2(op)], p, stack) == Some(stack + [Bin(op, a, b)])
  {
    BuildAppend(first, second, p, stack);
    BuildAppend(first + second, [Apply2(op)], p, stack);
    BuildOne(Apply2(op), [Apply2(op)], p, stack + [a] + [b]);
    assert (stack + [a] + [b])[..|stack|] == stack;
  }

  lemma BuildIfZero(first: seq<Op>, second: seq<Op>, third: seq<Op>, p: Program, stack: seq<Node>,
                    c: Node, z: Node, n: Node)
    requires BuildFrom(first, p, stack) == Some(stack + [c])
    requires BuildFrom(second, p, stack + [c]) == Some(stack + [c] + [z])
    requires BuildFrom(third, p, stack + [c] + [z]) == Some(stack + [c] + [z] + [n])
    ensures BuildFrom(first + second + third + [ApplyIfZero], p, stack) == Some(stack + [IfZero(c, z, n)])
  {
    BuildAppend(first, second, p, stack);
    BuildAppend(first + second, third, p, stack);
    BuildAppend(first + second + third, [ApplyIfZero], p, stack);
    BuildOne(ApplyIfZero, [ApplyIfZero], p, stack + [c] + [z] + [n]);
    assert (stack + [c] + [z] + [n])[..|stack|] == stack;
  }

  lemma BuildOne(op: Op, ops: seq<Op>, p: Program, stack: seq<Node>)
    requires ops == [op]
    ensures BuildFrom(ops, p, stack) == BuildStep(op, p, stack)
    ensures op.Apply1? && |stack| >= 1 ==>
              BuildStep(op, p, stack) == Some(stack[..|stack| - 1] + [Un(op.u, stack[|stack| - 1])])
  {
    assert ops[1..] == [];
  }

  /** Printing a tree and reading it back is the identity, for any nesting of operators and any
      mix of small and pooled constants. */
  lemma PrintRoundTrip(t: Node)
    ensures Tree(Print(t, Empty)) == Some(t)
  {
    var p := Print(t, Empty);
    PrintExtends(t, Empty);
    PrintThenBuild(t, Empty, p, []);
    assert Printed(t, Empty) == p.ops;
    assert [] + [t] == [t];
  }

  /** The printed program computes the tree. */
  lemma PrintedProgramComputes(t: Node, env: Env)
    ensures Run(Print(t, Empty), env) == Some(Eval(t, env))
  {
    PrintRoundTrip(t);
    TreeComputesProgram(Print(t, Empty), env);
  }
}
