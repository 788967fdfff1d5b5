/** Boolean formulas over instruction inputs and their compilation to postfix programs.

    A program with a one-bit output holds when bit 0 of its result is set.  The
    combinators `not`, `and` and `or` work on programs: they concatenate operators,
    merge the argument lists without duplicates, and renumber holes and constants.
 */
module Predicates {
  import opened Options
  import opened Arithmetic
  import opened ByteStrings
  import opened Words
  import opened WordArithmetic
  import opened Expressions

  // ------------------------------------------------------------- input values

  datatype Value = Num(n: nat) | Bytes(bytes: seq<Byte>)

  datatype IoType = Integer(bits: nat) | ByteString(count: nat)

  /** A value of the given type; integers have at most 64 bits and byte strings at most 16 bytes. */
  predicate HasType(v: Value, ty: IoType)
  {
    match ty
    case Integer(bits) => v.Num? && bits <= 64 && v.n < Pow2(bits)
    case ByteString(count) => v.Bytes? && count <= 16 && |v.bytes| == count
  }

  function NumBits(ty: IoType): nat { if ty.Integer? then ty.bits else 8 * ty.count }

  /** How an unsigned big-endian argument reads a value. */
  function Number(v: Value): Word { OfInt(if v.Num? then v.n else BigEndian(v.bytes)) }

  function Inputs(inputs: seq<Value>): (e: Env)
    ensures forall i :: 0 <= i < |inputs| ==> e(i) == Number(inputs[i])
  {
    (i: nat) => InputAt(inputs, i)
  }

  function InputAt(inputs: seq<Value>, i: nat): Word { if i < |inputs| then Number(inputs[i]) else Zero() }

  lemma OfIntInjective(x: nat, y: nat, n: nat)
    requires n <= 128 && x < Pow2(n) && y < Pow2(n) && OfInt(x) == OfInt(y)
    ensures x == y
  {
    Pow2Mono(n, 128);
    NatOfInt(x);
    NatOfInt(y);
  }

  /** An integer of at most 64 bits is read as itself; of a byte string, bit `i` of what is read is in
      the byte that is `i / 8` from the end. */
  lemma NumberReads(v: Value, ty: IoType, i: nat)
    requires HasType(v, ty) && i < 128
    ensures v.Num? ==> ToNat(Number(v)) == v.n
    ensures v.Bytes? ==> Number(v)[i] == (i < 8 * |v.bytes| && Bit(v.bytes[|v.bytes| - 1 - i / 8], i % 8))
  {
    if v.Num? {
      Pow2Mono(ty.bits, 128);
      NatOfInt(v.n);
    } else {
      BitOfBytes(v.bytes, i);
    }
  }

  /** The width of a type is the least that all its values fit in. */
  lemma WidthExact(ty: IoType, n: nat)
    requires match ty case Integer(bits) => bits <= 64 case ByteString(count) => count <= 16
    ensures (forall v :: HasType(v, ty) ==> Fits(Number(v), n)) <==> n >= NumBits(ty)
  {
    var w := NumBits(ty);
    if n >= w {
      forall v | HasType(v, ty) ensures Fits(Number(v), n) {
        WidthFits(v, ty);
      }
    } else {
      var v := WidestValue(ty);
      assert !Fits(Number(v), n);
    }
  }

  lemma WidthFits(v: Value, ty: IoType)
    requires HasType(v, ty)
    ensures Fits(Number(v), NumBits(ty))
  {
    forall i | NumBits(ty) <= i < 128 ensures !Number(v)[i] {
      NumberReads(v, ty, i);
      if v.Num? {
        BoundClearsBit(v.n, ty.bits, i);
      }
    }
  }

  /** A value with the highest bit of its type set. */
  lemma WidestValue(ty: IoType) returns (v: Value)
    requires match ty case Integer(bits) => bits <= 64 case ByteString(count) => count <= 16
    requires NumBits(ty) > 0
    ensures HasType(v, ty) && Number(v)[NumBits(ty) - 1]
  {
    var top := NumBits(ty) - 1;
    match ty
    case Integer(bits) =>
      v := Num(Pow2(top));
      BitOfParts(1, 0, top, top);
      assert Bit(1, 0);
    case ByteString(count) =>
      v := Bytes(seq<Byte>(count, i => 128));
      NumberReads(v, ty, top);
      assert top / 8 == count - 1 && top % 8 == 7;
      assert Bit(128, 7);
  }

  /** Values of one type are equal exactly when they are read as equal numbers. */
  lemma NumberInjective(v: Value, w: Value, ty: IoType)
    requires HasType(v, ty) && HasType(w, ty)
    ensures Number(v) == Number(w) <==> v == w
  {
    if Number(v) == Number(w) {
      match ty
      case Integer(bits) =>
        OfIntInjective(v.n, w.n, bits);
      case ByteString(count) =>
        BigEndianBound(v.bytes);
        BigEndianBound(w.bytes);
        EightBitsEach(count);
        OfIntInjective(BigEndian(v.bytes), BigEndian(w.bytes), 8 * count);
        BigEndianInjective(v.bytes, w.bytes);
    }
  }

  // ---------------------------------------------------------------- programs

  /** A program that leaves exactly one tree, and that tree. */
  predicate Single(p: Program)
  {
    var r := BuildFrom(p.ops, p, []);
    r.Some? && |r.value| == 1
  }

  function TreeOf(p: Program): Node
    requires Single(p)
  {
    BuildFrom(p.ops, p, []).value[0]
  }

  /** The truth value of a program with a one-bit output. */
  ghost predicate True(p: Program, env: Env)
  {
    Run(p, env).Some? && Run(p, env).value[0]
  }

  lemma TrueOfTree(p: Program, env: Env)
    requires Single(p)
    ensures Run(p, env) == Some(Eval(TreeOf(p), env))
    ensures True(p, env) <==> Eval(TreeOf(p), env)[0]
  {
    TreeComputesProgram(p, env);
  }

  /** What is below on the stack does not matter and is kept. */
  lemma {:induction false} BuildFrame(ops: seq<Op>, p: Program, base: seq<Node>, stack: seq<Node>)
    requires BuildFrom(ops, p, stack).Some?
    ensures BuildFrom(ops, p, base + stack) == Some(base + BuildFrom(ops, p, stack).value)
    decreases |ops|
  {
    if |ops| > 0 {
      var next := BuildStep(ops[0], p, stack);
      StepFrame(ops[0], p, base, stack);
      BuildFrame(ops[1..], p, base, next.value);
    }
  }

  lemma StepFrame(op: Op, p: Program, base: seq<Node>, stack: seq<Node>)
    requires BuildStep(op, p, stack).Some?
    ensures BuildStep(op, p, base + stack) == Some(base + BuildStep(op, p, stack).value)
  {
    match op
    case Hole(h) => assert base + stack + [HoleNode(p, h).value] == base + (stack + [HoleNode(p, h).value]);
    case Literal(c) => assert base + stack + [Const(OfInt(c))] == base + (stack + [Const(OfInt(c))]);
    case Apply1(u) => TopReplaced(base, stack, 1, Un(u, stack[|stack| - 1]));
    case Apply2(b) => TopReplaced(base, stack, 2, Bin(b, stack[|stack| - 2], stack[|stack| - 1]));
    case ApplyIfZero => TopReplaced(base, stack, 3, IfZero(stack[|stack| - 3], stack[|stack| - 2], stack[|stack| - 1]));
  }

  /** The top `k` entries of a stack, and the stack with `t` in their place. */
  lemma TopReplaced(base: seq<Node>, stack: seq<Node>, k: nat, t: Node)
    requires k <= |stack|
    ensures |base + stack| == |base| + |stack|
    ensures forall i :: |stack| - k <= i < |stack| ==> (base + stack)[|base| + i] == stack[i]
    ensures (base + stack)[..|base + stack| - k] + [t] == base + (stack[..|stack| - k] + [t])
  {
    assert (base + stack)[..|base + stack| - k] == base + stack[..|stack| - k];
  }

  // --------------------------------------------------------------- negation

  function NotProgram(p: Program): Program { p.(ops := p.ops + [Apply1(Not)]) }

  lemma {:induction false} BuildSameLeaves(ops: seq<Op>, p: Program, q: Program, stack: seq<Node>)
    requires p.args == q.args && p.consts == q.consts
    ensures BuildFrom(ops, p, stack) == BuildFrom(ops, q, stack)
    decreases |ops|
  {
    if |ops| > 0 {
      var next := BuildStep(ops[0], p, stack);
      assert next == BuildStep(ops[0], q, stack);
      if next.Some? {
        BuildSameLeaves(ops[1..], p, q, next.value);
      }
    }
  }

  lemma NotProgramTree(p: Program)
    requires Single(p)
    ensures Single(NotProgram(p)) && TreeOf(NotProgram(p)) == Un(Not, TreeOf(p))
  {
    var q := NotProgram(p);
    BuildSameLeaves(p.ops, p, q, []);
    BuildAppend(p.ops, [Apply1(Not)], q, []);
    var stack := BuildFrom(p.ops, p, []).value;
    BuildOne(Apply1(Not), [Apply1(Not)], q, stack);
    assert stack[..0] + [Un(Not, stack[0])] == [Un(Not, stack[0])];
  }

  // ------------------------------------------------ concatenating two programs

  predicate HolesInRange(ops: seq<Op>, p: Program)
  {
    forall i :: 0 <= i < |ops| && ops[i].Hole? ==> ops[i].n < |p.args|
  }

  lemma {:induction false} BuiltHolesInRange(ops: seq<Op>, p: Program, stack: seq<Node>)
    requires BuildFrom(ops, p, stack).Some?
    ensures HolesInRange(ops, p)
    decreases |ops|
  {
    if |ops| > 0 {
      BuiltHolesInRange(ops[1..], p, BuildStep(ops[0], p, stack).value);
      assert forall i :: 0 < i < |ops| ==> ops[i] == ops[1..][i - 1];
    }
  }

  /** The first position of `a`, or the length of the list. */
  function Position(args: seq<ArgSpec>, a: ArgSpec): (i: nat)
    ensures i <= |args|
    ensures i < |args| ==> args[i] == a
    ensures i == |args| ==> a !in args
  {
    if |args| == 0 then 0 else if args[0] == a then 0 else 1 + Position(args[1..], a)
  }

  /** Adds `a` unless the list has it. */
  function Insert(args: seq<ArgSpec>, a: ArgSpec): seq<ArgSpec>
  {
    if Position(args, a) < |args| then args else args + [a]
  }

  /** Renumbers the holes of `ops`, adding their arguments to the list as they come. */
  function Renumber(ops: seq<Op>, p: Program, args: seq<ArgSpec>): (r: (seq<Op>, seq<ArgSpec>))
    requires HolesInRange(ops, p)
    ensures args <= r.1 && |r.0| == |ops|
  {
    if |ops| == 0 then ([], args)
    else
      assert forall i :: 0 <= i < |ops| - 1 ==> ops[1..][i] == ops[i + 1];
      match ops[0]
      case Hole(n) =>
        var (rest, args') := Renumber(ops[1..], p, Insert(args, p.args[n]));
        ([Hole(Position(args, p.args[n]))] + rest, args')
      case _ =>
        var (rest, args') := Renumber(ops[1..], p, args);
        ([ops[0]] + rest, args')
  }

  function ShiftConsts(args: seq<ArgSpec>, k: nat): (r: seq<ArgSpec>)
    ensures |r| == |args|
    ensures forall i :: 0 <= i < |args| ==> r[i] == if args[i].Pooled? then Pooled(args[i].index + k) else args[i]
  {
    seq(|args|, i requires 0 <= i < |args| => if args[i].Pooled? then Pooled(args[i].index + k) else args[i])
  }

  /** `chain`: the operators of `q`, then those of `p`. */
  function Chain(p: Program, q: Program): Program
    requires HolesInRange(p.ops, p)
  {
    var (ops, args) := Renumber(p.ops, p, ShiftConsts(q.args, |p.consts|));
    Program(q.ops + ops, args, p.consts + q.consts)
  }

  /** One operator: its renumbered form and the grown argument list. */
  function RenumberOne(op: Op, p: Program, args: seq<ArgSpec>): (Op, seq<ArgSpec>)
    requires op.Hole? ==> op.n < |p.args|
  {
    if op.Hole? then (Hole(Position(args, p.args[op.n])), Insert(args, p.args[op.n])) else (op, args)
  }

  lemma RenumberStep(ops: seq<Op>, p: Program, args: seq<ArgSpec>)
    requires |ops| > 0 && HolesInRange(ops, p)
    ensures HolesInRange(ops[1..], p)
    ensures var (op, args') := RenumberOne(ops[0], p, args);
            var rest := Renumber(ops[1..], p, args');
            Renumber(ops, p, args) == ([op] + rest.0, rest.1)
  {
    assert forall i :: 0 <= i < |ops| - 1 ==> ops[1..][i] == ops[i + 1];
  }

  /** Looks the argument of a hole up in the list, adding it if it is new. */
  method RenumberOp(op: Op, p: Program, args: seq<ArgSpec>) returns (op': Op, args': seq<ArgSpec>)
    requires op.Hole? ==> op.n < |p.args|
    ensures (op', args') == RenumberOne(op, p, args)
  {
    op', args' := op, args;
    if op.Hole? {
      var a := p.args[op.n];
      var k := Position(args, a);
      if k == |args| {
        args' := args + [a];
      }
      op' := Hole(k);
    }
  }

  lemma RenumberPrefix(ops: seq<Op>, p: Program, args: seq<ArgSpec>, done: seq<Op>)
    requires |ops| > 0 && HolesInRange(ops, p)
    ensures HolesInRange(ops[1..], p)
    ensures var (op, args') := RenumberOne(ops[0], p, args);
            && done + Renumber(ops, p, args).0 == (done + [op]) + Renumber(ops[1..], p, args').0
            && Renumber(ops, p, args).1 == Renumber(ops[1..], p, args').1
  {
    RenumberStep(ops, p, args);
    var (op, args') := RenumberOne(ops[0], p, args);
    var rest := Renumber(ops[1..], p, args').0;
    assert done + ([op] + rest) == (done + [op]) + rest;
  }

  /** The loop of `chain`, which grows the argument list while it maps the operators. */
  method RenumberOps(p: Program, start: seq<ArgSpec>) returns (ops: seq<Op>, args: seq<ArgSpec>)
    requires HolesInRange(p.ops, p)
    ensures (ops, args) == Renumber(p.ops, p, start)
  {
    ops, args := [], start;
    var todo := p.ops;
    assert [] + Renumber(todo, p, args).0 == Renumber(todo, p, args).0;
    while |todo| > 0
      invariant HolesInRange(todo, p)
      invariant Renumber(p.ops, p, start) == (ops + Renumber(todo, p, args).0, Renumber(todo, p, args).1)
      decreases |todo|
    {
      RenumberPrefix(todo, p, args, ops);
      var op', args' := RenumberOp(todo[0], p, args);
      ops, args := ops + [op'], args';
      todo := todo[1..];
    }
    assert ops + [] == ops;
  }

  method ChainPrograms(p: Program, q: Program) returns (r: Program)
    requires HolesInRange(p.ops, p)
    ensures r == Chain(p, q)
  {
    var ops, args := RenumberOps(p, ShiftConsts(q.args, |p.consts|));
    r := Program(q.ops + ops, args, p.consts + q.consts);
  }

  predicate NoRepeats(args: seq<ArgSpec>) { forall i, j :: 0 <= i < j < |args| ==> args[i] != args[j] }

  /** Arguments are shared: a list without repeats stays one, and each argument that is added is one
      that the renumbered operators use. */
  lemma {:induction false} ArgsShared(ops: seq<Op>, p: Program, args: seq<ArgSpec>)
    requires HolesInRange(ops, p)
    ensures NoRepeats(args) ==> NoRepeats(Renumber(ops, p, args).1)
    ensures forall a :: a in Renumber(ops, p, args).1 ==> a in args || UsesArg(ops, p, a)
    decreases |ops|
  {
    if |ops| > 0 {
      RenumberStep(ops, p, args);
      var args' := RenumberOne(ops[0], p, args).1;
      ArgsShared(ops[1..], p, args');
      forall a | UsesArg(ops[1..], p, a) ensures UsesArg(ops, p, a) {
        var i :| 0 <= i < |ops| - 1 && ops[1..][i].Hole? && p.args[ops[1..][i].n] == a;
        assert ops[i + 1].Hole? && p.args[ops[i + 1].n] == a;
      }
      if ops[0].Hole? {
        assert UsesArg(ops, p, p.args[ops[0].n]);
      }
    }
  }

  predicate UsesArg(ops: seq<Op>, p: Program, a: ArgSpec)
    requires HolesInRange(ops, p)
  {
    exists i :: 0 <= i < |ops| && ops[i].Hole? && p.args[ops[i].n] == a
  }

  lemma ChainShares(p: Program, q: Program)
    requires HolesInRange(p.ops, p) && NoRepeats(q.args)
    ensures NoRepeats(Chain(p, q).args)
  {
    ArgsShared(p.ops, p, ShiftConsts(q.args, |p.consts|));
  }

  lemma {:induction false} RenumberedBuild(ops: seq<Op>, p: Program, args: seq<ArgSpec>, full: Program,
                                           stack: seq<Node>)
    requires HolesInRange(ops, p)
    requires Renumber(ops, p, args).1 <= full.args && p.consts <= full.consts
    requires BuildFrom(ops, p, stack).Some?
    ensures BuildFrom(Renumber(ops, p, args).0, full, stack) == BuildFrom(ops, p, stack)
    decreases |ops|
  {
    if |ops| > 0 {
      assert forall i :: 0 <= i < |ops| - 1 ==> ops[1..][i] == ops[i + 1];
      var next := BuildStep(ops[0], p, stack);
      var (ops', args') := Renumber(ops, p, args);
      match ops[0] {
        case Hole(n) =>
          var a := p.args[n];
          var k := Position(args, a);
          RenumberedBuild(ops[1..], p, Insert(args, a), full, next.value);
          assert ops'[1..] == Renumber(ops[1..], p, Insert(args, a)).0;
          assert Insert(args, a)[k] == a && full.args[k] == a;
          assert HoleNode(full, k) == HoleNode(p, n);
          assert BuildStep(ops'[0], full, stack) == next;
        case _ =>
          RenumberedBuild(ops[1..], p, args, full, next.value);
          assert ops'[1..] == Renumber(ops[1..], p, args).0;
          assert BuildStep(ops'[0], full, stack) == next;
      }
    }
  }

  lemma {:induction false} ShiftedBuild(ops: seq<Op>, q: Program, p: Program, full: Program, stack: seq<Node>)
    requires ShiftConsts(q.args, |p.consts|) <= full.args && full.consts == p.consts + q.consts
    requires BuildFrom(ops, q, stack).Some?
    ensures BuildFrom(ops, full, stack) == BuildFrom(ops, q, stack)
    decreases |ops|
  {
    if |ops| > 0 {
      var next := BuildStep(ops[0], q, stack);
      if ops[0].Hole? {
        var n := ops[0].n;
        assert full.args[n] == ShiftConsts(q.args, |p.consts|)[n];
        assert HoleNode(full, n) == HoleNode(q, n);
      }
      assert BuildStep(ops[0], full, stack) == next;
      ShiftedBuild(ops[1..], q, p, full, next.value);
    }
  }

  /** `and` and `or`: the concatenation followed by the operator. */
  function Combine(op: Binary, p: Program, q: Program): Program
    requires HolesInRange(p.ops, p)
  {
    var c := Chain(p, q);
    c.(ops := c.ops + [Apply2(op)])
  }

  /** Combining two programs combines their trees, with the second program's tree on the left. */
  lemma CombineTree(op: Binary, p: Program, q: Program)
    requires Single(p) && Single(q)
    ensures HolesInRange(p.ops, p)
    ensures Single(Combine(op, p, q)) && TreeOf(Combine(op, p, q)) == Bin(op, TreeOf(q), TreeOf(p))
  {
    BuiltHolesInRange(p.ops, p, []);
    var r := Combine(op, p, q);
    var (ops, args) := Renumber(p.ops, p, ShiftConsts(q.args, |p.consts|));
    var tp, tq := BuildFrom(p.ops, p, []).value, BuildFrom(q.ops, q, []).value;
    ShiftedBuild(q.ops, q, p, r, []);
    RenumberedBuild(p.ops, p, ShiftConsts(q.args, |p.consts|), r, []);
    BuildFrame(ops, r, tq, []);
    assert tq + [] == tq;
    BuildAppend(q.ops, ops, r, []);
    BuildAppend(q.ops + ops, [Apply2(op)], r, []);
    var stack := tq + tp;
    BuildOne(Apply2(op), [Apply2(op)], r, stack);
    assert stack[0] == tq[0] && stack[1] == tp[0] && |stack| == 2;
    assert stack[..0] + [Bin(op, stack[0], stack[1])] == [Bin(op, stack[0], stack[1])];
  }

  lemma CombineTrue(op: Binary, p: Program, q: Program, env: Env)
    requires Single(p) && Single(q) && (op == And || op == Or)
    ensures HolesInRange(p.ops, p) && Single(Combine(op, p, q))
    ensures op == And ==> (True(Combine(op, p, q), env) <==> True(p, env) && True(q, env))
    ensures op == Or ==> (True(Combine(op, p, q), env) <==> True(p, env) || True(q, env))
  {
    CombineTree(op, p, q);
    TrueOfTree(p, env);
    TrueOfTree(q, env);
    TrueOfTree(Combine(op, p, q), env);
  }
}
