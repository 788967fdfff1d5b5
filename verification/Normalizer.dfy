/** The demand-driven reduction pass and the normalizer built on it.

    `Reduced(t, m)` and `Uses(t, m)` are the two results of `Node::reduce(bits_needed)`:
    the rewritten tree and, per input, the bits that the demanded result may depend on.
 */
module Normalizer {
  import opened Options
  import opened Words
  import opened WordArithmetic
  import opened BitFields
  import opened Expressions
  import opened Demand
  import opened Rewrites
  import opened RewriteSoundness

  // ---------------------------------------------------------- argument uses

  /** The use mask of input `i`; inputs past the end of the vector are unused. */
  function At(u: seq<Word>, i: nat): Word { if i < |u| then u[i] else Zero() }

  function Choose(b: bool, w: Word): Word { if b then w else Zero() }

  function SingleUse(index: nat, mask: Word): (u: seq<Word>)
    ensures forall i: nat :: At(u, i) == Choose(i == index, mask)
  {
    seq<Word>(index, _ => Zero()) + [mask]
  }

  function Union(u: seq<Word>, v: seq<Word>): (r: seq<Word>)
    ensures |r| == Max(|u|, |v|)
    ensures forall i: nat :: At(r, i) == WOr(At(u, i), At(v, i))
  {
    assert WOr(Zero(), Zero()) == Zero();
    seq(Max(|u|, |v|), i requires 0 <= i => WOr(At(u, i), At(v, i)))
  }

  class ArgumentUse {
    var masks: seq<Word>

    constructor (initial: seq<Word>)
      ensures masks == initial
    {
      masks := initial;
    }

    /** Grows the vector to the length of the other one, then merges it entry by entry. */
    method UnionWith(other: seq<Word>)
      modifies this
      ensures masks == Union(old(masks), other)
    {
      if |other| > |masks| {
        masks := masks + seq(|other| - |masks|, _ => Zero());
      }
      ghost var grown := masks;
      var i := 0;
      while i < |masks| && i < |other|
        invariant 0 <= i <= |masks| && i <= |other| <= |masks| == |grown|
        invariant forall j :: 0 <= j < i ==> masks[j] == WOr(grown[j], other[j])
        invariant forall j :: i <= j < |masks| ==> masks[j] == grown[j]
      {
        masks := masks[i := WOr(masks[i], other[i])];
        i := i + 1;
      }
      forall j | 0 <= j < |masks| ensures masks[j] == Union(old(masks), other)[j] {
        assert WOr(grown[j], Zero()) == grown[j];
        assert At(Union(old(masks), other), j) == WOr(At(old(masks), j), At(other, j));
      }
    }
  }

  function NonzeroCount(u: seq<Word>): nat
  {
    if |u| == 0 then 0 else (if u[0] != Zero() then 1 else 0) + NonzeroCount(u[1..])
  }

  function FirstNonzero(u: seq<Word>): nat
  {
    if |u| == 0 || u[0] != Zero() then 0 else 1 + FirstNonzero(u[1..])
  }

  /** The only input with a nonzero use mask, and that mask. */
  function SingleArg(u: seq<Word>): Option<(nat, Word)>
  {
    if NonzeroCount(u) == 1 then Some((FirstNonzero(u), At(u, FirstNonzero(u)))) else None
  }

  lemma {:induction false} NoneNonzero(u: seq<Word>, i: nat)
    requires NonzeroCount(u) == 0
    ensures At(u, i) == Zero()
    decreases |u|
  {
    if |u| > 0 && i > 0 {
      NoneNonzero(u[1..], i - 1);
      assert At(u, i) == At(u[1..], i - 1);
    }
  }

  lemma {:induction false} OthersUnused(u: seq<Word>, i: nat)
    requires NonzeroCount(u) == 1 && i != FirstNonzero(u)
    ensures At(u, i) == Zero()
    decreases |u|
  {
    if u[0] != Zero() {
      NoneNonzero(u[1..], i - 1);
      assert At(u, i) == At(u[1..], i - 1);
    } else if i > 0 {
      OthersUnused(u[1..], i - 1);
      assert At(u, i) == At(u[1..], i - 1);
    }
  }

  // -------------------------------------------------------- demand per child

  /** The demand on the first operand.  A shift asks for every bit that some distance in the
      range of its second operand could move into a demanded place. */
  function LeftMask(op: Binary, b: Node, m: Word): Word
  {
    if op == Shl || op == Shr then ShiftMask(op == Shl, m, Min(NumBits(b), 7)) else BinaryMask(op, m)
  }

  function RightMask(op: Binary, m: Word): Word
  {
    if op == Shl || op == Shr then Low(7) else BinaryMask(op, m)
  }

  lemma BinaryDemandSound(op: Binary, a: Node, b: Node, m: Word, widths: nat -> nat, env: Env, x': Word, y': Word)
    requires Valid(Bin(op, a, b), widths) && InRange(env, widths)
    requires Same(LeftMask(op, b, m), x', Eval(a, env)) && Same(RightMask(op, m), y', Eval(b, env))
    ensures Same(m, EvalBinary(op, x', y'), Eval(Bin(op, a, b), env))
  {
    hide ShiftMask, BinaryMask, Low, Amount;
    var x, y := Eval(a, env), Eval(b, env);
    if op == Shl || op == Shr {
      var k := Min(NumBits(b), 7);
      AmountSame(y', y);
      DistanceBound(b, widths, env);
      ShiftDemand(op == Shl, m, k, x', x, Amount(y));
    } else {
      BinaryDemand(op, m, x', x, y', y);
    }
  }

  // ------------------------------------------------------- the use analysis

  /** The argument uses that `reduce` returns: they depend on the tree before rewriting only. */
  function Uses(t: Node, m: Word): seq<Word>
    decreases t
  {
    if m == Zero() then []
    else
      match t
      case Const(_) => []
      case Arg(i, w, _) => SingleUse(i, WAnd(m, Low(w)))
      case Un(op, a) => Uses(a, UnaryMask(op, m))
      case Bin(op, a, b) => Union(Uses(a, LeftMask(op, b, m)), Uses(b, RightMask(op, m)))
      case IfZero(c, z, n) => Union(Union(Uses(c, Ones()), Uses(z, m)), Uses(n, m))
  }

  /** Sign bits are demanded wherever copies of them are: the use mask of a signed input and the
      demand of a sign extension mention the sign bit only when it is demanded itself. */
  predicate SignsCovered(t: Node, m: Word)
    decreases t
  {
    m == Zero() ||
    match t
    case Const(_) => true
    case Arg(_, w, signed) => signed && 1 <= w <= 128 ==> Fits(m, w) || m[w - 1]
    case Un(op, a) => DemandCovered(op, m) && SignsCovered(a, UnaryMask(op, m))
    case Bin(op, a, b) => SignsCovered(a, LeftMask(op, b, m)) && SignsCovered(b, RightMask(op, m))
    case IfZero(c, z, n) => SignsCovered(c, Ones()) && SignsCovered(z, m) && SignsCovered(n, m)
  }

  /** Two environments agree on every input bit listed in `u`. */
  ghost predicate Agree(u: seq<Word>, e: Env, f: Env)
  {
    forall i: nat :: Same(At(u, i), e(i), f(i))
  }

  lemma AgreeUnion(u: seq<Word>, v: seq<Word>, e: Env, f: Env)
    requires Agree(Union(u, v), e, f)
    ensures Agree(u, e, f) && Agree(v, e, f)
  {
    forall i: nat ensures Same(At(u, i), e(i), f(i)) && Same(At(v, i), e(i), f(i)) {
      assert Same(At(Union(u, v), i), e(i), f(i));
      assert At(Union(u, v), i) == WOr(At(u, i), At(v, i));
    }
  }

  /** The demanded bits of a tree depend on no input bit outside its uses. */
  lemma {:induction false} UsesSound(t: Node, m: Word, widths: nat -> nat, e: Env, f: Env)
    requires Valid(t, widths) && InRange(e, widths) && InRange(f, widths)
    requires SignsCovered(t, m) && Agree(Uses(t, m), e, f)
    ensures Same(m, Eval(t, e), Eval(t, f))
    decreases t
  {
    if m != Zero() {
      match t {
        case Const(_) =>
        case Arg(i, w, signed) =>
          assert Same(At(Uses(t, m), i), e(i), f(i));
          assert Fits(e(i), widths(i)) && Fits(f(i), widths(i));
          InputDemand(e(i), f(i), w, signed, m);
        case Un(op, a) =>
          if ValidUnary(op) {
            UsesSound(a, UnaryMask(op, m), widths, e, f);
            UnaryDemand(op, m, Eval(a, e), Eval(a, f));
          } else {
            EmptyTableValue(op, a, e);
            EmptyTableValue(op, a, f);
          }
        case Bin(op, a, b) =>
          var u, v := Uses(a, LeftMask(op, b, m)), Uses(b, RightMask(op, m));
          AgreeUnion(u, v, e, f);
          UsesSound(a, LeftMask(op, b, m), widths, e, f);
          UsesSound(b, RightMask(op, m), widths, e, f);
          BinaryDemandSound(op, a, b, m, widths, f, Eval(a, e), Eval(b, e));
        case IfZero(c, z, n) =>
          var u, v, w := Uses(c, Ones()), Uses(z, m), Uses(n, m);
          AgreeUnion(Union(u, v), w, e, f);
          AgreeUnion(u, v, e, f);
          UsesSound(c, Ones(), widths, e, f);
          UsesSound(z, m, widths, e, f);
          UsesSound(n, m, widths, e, f);
          SameOnes(Eval(c, e), Eval(c, f));
      }
    }
  }

  lemma InputDemand(x: Word, y: Word, w: nat, signed: bool, m: Word)
    requires 1 <= w <= 128 && Fits(x, w) && Fits(y, w)
    requires signed ==> Fits(m, w) || m[w - 1]
    requires Same(WAnd(m, Low(w)), x, y)
    ensures Same(m, EvalInput(x, w, signed), EvalInput(y, w, signed))
  {
    forall i | 0 <= i < 128 && m[i] ensures EvalInput(x, w, signed)[i] == EvalInput(y, w, signed)[i] {
      if i < w {
        assert WAnd(m, Low(w))[i];
      } else if signed {
        assert WAnd(m, Low(w))[w - 1];
      }
    }
  }

  /** The use mask of a signed input determines the demanded bits of what is read from it exactly when
      no bit above its width is demanded or its sign bit is. */
  lemma InputDemandExact(w: nat, m: Word)
    requires 1 <= w <= 128
    ensures (forall x: Word, y: Word :: Fits(x, w) && Fits(y, w) && Same(WAnd(m, Low(w)), x, y) ==>
               Same(m, EvalInput(x, w, true), EvalInput(y, w, true)))
        <==> Fits(m, w) || m[w - 1]
  {
    if Fits(m, w) || m[w - 1] {
      forall x: Word, y: Word | Fits(x, w) && Fits(y, w) && Same(WAnd(m, Low(w)), x, y)
        ensures Same(m, EvalInput(x, w, true), EvalInput(y, w, true))
      {
        InputDemand(x, y, w, true, m);
      }
    } else {
      var i :| w <= i < 128 && m[i];
      var x, y := Zero(), OneHot(w - 1);
      assert Fits(x, w) && Fits(y, w) && Same(WAnd(m, Low(w)), x, y);
      assert EvalInput(x, w, true)[i] != EvalInput(y, w, true)[i];
      assert !Same(m, EvalInput(x, w, true), EvalInput(y, w, true));
    }
  }

  /** Use masks stay within the declared width of their input. */
  lemma {:induction false} UsesWithinWidth(t: Node, m: Word, widths: nat -> nat, i: nat)
    requires Valid(t, widths)
    ensures Fits(At(Uses(t, m), i), widths(i))
    decreases t
  {
    if m != Zero() {
      match t {
        case Const(_) =>
        case Arg(_, w, _) =>
        case Un(op, a) => UsesWithinWidth(a, UnaryMask(op, m), widths, i);
        case Bin(op, a, b) =>
          UsesWithinWidth(a, LeftMask(op, b, m), widths, i);
          UsesWithinWidth(b, RightMask(op, m), widths, i);
        case IfZero(c, z, n) =>
          UsesWithinWidth(c, Ones(), widths, i);
          UsesWithinWidth(z, m, widths, i);
          UsesWithinWidth(n, m, widths, i);
      }
    }
  }

  // ------------------------------------------------------------ lookup tables

  function NumNodes(t: Node): nat
  {
    match t
    case Arg(_, _, _) => 1
    case Const(_) => 1
    case Un(_, a) => 1 + NumNodes(a)
    case Bin(_, a, b) => 1 + NumNodes(a) + NumNodes(b)
    case IfZero(c, z, n) => 1 + NumNodes(c) + NumNodes(z) + NumNodes(n)
  }

  /** `get_arg_num_bits`. */
  function ArgWidth(t: Node, i: nat): Option<nat>
  {
    match t
    case Arg(j, w, _) => if i == j then Some(w) else None
    case Const(_) => None
    case Un(_, a) => ArgWidth(a, i)
    case Bin(_, a, b) => Either(ArgWidth(a, i), ArgWidth(b, i))
    case IfZero(c, z, n) => Either(Either(ArgWidth(c, i), ArgWidth(z, i)), ArgWidth(n, i))
  }

  function Either(a: Option<nat>, b: Option<nat>): Option<nat> { if a.Some? then a else b }

  lemma {:induction false} ArgWidthDeclared(t: Node, i: nat, widths: nat -> nat)
    requires Valid(t, widths) && ArgWidth(t, i).Some?
    ensures ArgWidth(t, i).value == widths(i) && 1 <= widths(i) <= 128
    decreases t
  {
    match t
    case Arg(_, _, _) =>
    case Un(_, a) => ArgWidthDeclared(a, i, widths);
    case Bin(_, a, b) =>
      if ArgWidth(a, i).Some? { ArgWidthDeclared(a, i, widths); } else { ArgWidthDeclared(b, i, widths); }
    case IfZero(c, z, n) =>
      if ArgWidth(c, i).Some? { ArgWidthDeclared(c, i, widths); }
      else if ArgWidth(z, i).Some? { ArgWidthDeclared(z, i, widths); }
      else { ArgWidthDeclared(n, i, widths); }
  }

  /** Input `i` is read unsigned somewhere in the tree. */
  predicate UnsignedUse(t: Node, i: nat)
  {
    match t
    case Arg(j, _, signed) => i == j && !signed
    case Const(_) => false
    case Un(_, a) => UnsignedUse(a, i)
    case Bin(_, a, b) => UnsignedUse(a, i) || UnsignedUse(b, i)
    case IfZero(c, z, n) => UnsignedUse(c, i) || UnsignedUse(z, i) || UnsignedUse(n, i)
  }

  /** The tree mentions no input other than `i`. */
  predicate OnlyArg(t: Node, i: nat)
  {
    match t
    case Arg(j, _, _) => i == j
    case Const(_) => true
    case Un(_, a) => OnlyArg(a, i)
    case Bin(_, a, b) => OnlyArg(a, i) && OnlyArg(b, i)
    case IfZero(c, z, n) => OnlyArg(c, i) && OnlyArg(z, i) && OnlyArg(n, i)
  }

  /** The environment in which a table entry is computed. */
  function Probe(i: nat, v: Word): (e: Env)
    ensures forall j: nat :: e(j) == Choose(j == i, v)
  {
    (j: nat) => Choose(j == i, v)
  }

  /** Entry `127 - x` says whether the demanded bit is set when the used bits hold `x`. */
  function Table(t: Node, i: nat, bits: Word, m: Word): Word
  {
    seq(128, p requires 0 <= p < 128 => WAnd(Eval(t, Probe(i, WDeposit(OfInt(127 - p), bits))), m) != Zero())
  }

  predicate LookupFires(t: Node, m: Word, u: seq<Word>)
  {
    && CountOnes(m) == 1
    && SingleArg(u).Some? && CountOnes(SingleArg(u).value.1) < 8
    && NumNodes(t) > 7
  }

  /** The replacement tree: select the table entry addressed by the used bits of the input, and
      move it to the demanded place. */
  function Lookup(t: Node, m: Word, i: nat, bits: Word, width: nat): Node
  {
    var v := Table(t, i, bits, m);
    var address := Bin(ExtractBits, Arg(i, width, !UnsignedUse(t, i)), Const(bits));
    Bin(Shl,
        Un(Select(TableSkip(v), 1), Bin(Shl, Const(PackedTable(v)), address)),
        Const(OfInt(TrailingZeros(m))))
  }

  /** The source panics when the input is no longer in the tree or another one is, and its
      deposit loop does not end for the selector `1 << 127`. */
  predicate LookupHazard(t: Node, u: seq<Word>)
    requires SingleArg(u).Some?
  {
    var (i, bits) := SingleArg(u).value;
    ArgWidth(t, i).None? || !OnlyArg(t, i) || bits == OneHot(127)
  }

  /** `reduce_internal`. */
  function ReduceInternal(t: Node, m: Word, u: seq<Word>): Node
  {
    if LookupFires(t, m, u) && ArgWidth(t, SingleArg(u).value.0).Some? then
      var (i, bits) := SingleArg(u).value;
      Rewrite(Lookup(t, m, i, bits, ArgWidth(t, i).value), m)
    else Rewrite(t, m)
  }

  // ---------------------------------------------------------------- reduction

  /** `t` with its children reduced. */
  function ReducedArgs(t: Node, m: Word): Node
    decreases t, 0
  {
    match t
    case Const(_) => t
    case Arg(_, _, _) => t
    case Un(op, a) => Un(op, Reduced(a, UnaryMask(op, m)))
    case Bin(op, a, b) => Bin(op, Reduced(a, LeftMask(op, b, m)), Reduced(b, RightMask(op, m)))
    case IfZero(c, z, n) => IfZero(Reduced(c, Ones()), Reduced(z, m), Reduced(n, m))
  }

  function Reduced(t: Node, m: Word): Node
    decreases t, 1
  {
    if m == Zero() then Const(Zero())
    else
      match t
      case Const(c) => Const(WAnd(c, m))
      case Arg(_, _, _) => t
      case _ => ReduceInternal(ReducedArgs(t, m), m, Uses(t, m))
  }

  /** The recursion of `Node::reduce`, which returns the tree and its uses together. */
  method Reduce(t: Node, m: Word) returns (r: Node, u: seq<Word>)
    ensures r == Reduced(t, m) && u == Uses(t, m)
    decreases t
  {
    hide ReduceInternal, LeftMask, RightMask, UnaryMask, SingleUse, Low;
    if m == Zero() {
      return Const(Zero()), [];
    }
    match t {
      case Const(c) =>
        return Const(WAnd(c, m)), [];
      case Arg(i, w, _) =>
        return t, SingleUse(i, WAnd(m, Low(w)));
      case Un(op, a) =>
        r, u := Reduce(a, UnaryMask(op, m));
        r := ReduceInternal(Un(op, r), m, u);
      case Bin(op, a, b) =>
        var a', ua := Reduce(a, LeftMask(op, b, m));
        var b', ub := Reduce(b, RightMask(op, m));
        var uses := new ArgumentUse(ua);
        uses.UnionWith(ub);
        u := uses.masks;
        r := ReduceInternal(Bin(op, a', b'), m, u);
      case IfZero(c, z, n) =>
        var c', uc := Reduce(c, Ones());
        var z', uz := Reduce(z, m);
        var n', un := Reduce(n, m);
        var uses := new ArgumentUse(uc);
        uses.UnionWith(uz);
        uses.UnionWith(un);
        u := uses.masks;
        r := ReduceInternal(IfZero(c', z', n'), m, u);
    }
  }

  // ------------------------------------------------------- guarded reduction

  /** The demand on an operand, with the sign bit of a sign extension wherever a copy of it is
      demanded. */
  function GuardedMask(op: Unary, m: Word): Word
  {
    if op.SignExtend? && !DemandCovered(op, m) then WOr(UnaryMask(op, m), OneHot(op.bits - 1)) else UnaryMask(op, m)
  }

  function GuardedRewrite(t: Node, m: Word): Node { if Hazard(t, m) then t else Rewrite(t, m) }

  /** The lookup rule may be applied to `t`, whose children reduce to those of `t1`. */
  predicate MayLookUp(t: Node, t1: Node, m: Word)
  {
    LookupFires(t1, m, Uses(t, m)) && !LookupHazard(t1, Uses(t, m)) && SignsCovered(t, m)
  }

  /** The reduction of `reduce` with its rules guarded: a rule that meets a hazard is skipped. */
  function Guarded(t: Node, m: Word): Node
    decreases t, 1
  {
    if m == Zero() then Const(Zero())
    else
      match t
      case Const(c) => Const(WAnd(c, m))
      case Arg(_, _, _) => t
      case _ => GuardedStep(t, GuardedArgs(t, m), m)
  }

  function GuardedArgs(t: Node, m: Word): Node
    decreases t, 0
  {
    match t
    case Const(_) => t
    case Arg(_, _, _) => t
    case Un(op, a) => Un(op, Guarded(a, GuardedMask(op, m)))
    case Bin(op, a, b) => Bin(op, Guarded(a, LeftMask(op, b, m)), Guarded(b, RightMask(op, m)))
    case IfZero(c, z, n) => IfZero(Guarded(c, Ones()), Guarded(z, m), Guarded(n, m))
  }

  function GuardedStep(t: Node, t1: Node, m: Word): Node
  {
    if MayLookUp(t, t1, m) then
      var (i, bits) := SingleArg(Uses(t, m)).value;
      GuardedRewrite(Lookup(t1, m, i, bits, ArgWidth(t1, i).value), m)
    else GuardedRewrite(t1, m)
  }

  lemma GuardedDemand(op: Unary, m: Word, x: Word, y: Word)
    requires ValidUnary(op) && Same(GuardedMask(op, m), x, y)
    ensures Same(m, EvalUnary(op, x), EvalUnary(op, y))
  {
    if op.SignExtend? && !DemandCovered(op, m) {
      SignDemand(op.bits, m, x, y);
    } else {
      UnaryDemand(op, m, x, y);
    }
  }

  lemma SignDemand(n: nat, m: Word, x: Word, y: Word)
    requires 1 <= n <= 127 && Same(WOr(UnaryMask(SignExtend(n), m), OneHot(n - 1)), x, y)
    ensures Same(m, WSignExtend(x, n), WSignExtend(y, n))
  {
    var mask := WOr(UnaryMask(SignExtend(n), m), OneHot(n - 1));
    assert mask[n - 1];
    forall i | 0 <= i < 128 && m[i] ensures WSignExtend(x, n)[i] == WSignExtend(y, n)[i] {
      assert i < n ==> mask[i];
    }
  }

  lemma LeafSound(t: Node, m: Word, widths: nat -> nat, env: Env)
    requires Valid(t, widths) && (m == Zero() || t.Const? || t.Arg?)
    ensures Preserves(m, t, Guarded(t, m), widths, env)
  {
  }

  /** Reducing the children keeps the demanded bits of the node. */
  lemma {:induction false} GuardedArgsSound(t: Node, m: Word, widths: nat -> nat, env: Env)
    requires Valid(t, widths) && InRange(env, widths) && m != Zero()
    ensures Preserves(m, t, GuardedArgs(t, m), widths, env)
    decreases t, 0
  {
    match t
    case Const(_) =>
    case Arg(_, _, _) =>
    case Un(op, a) =>
      var mask := GuardedMask(op, m);
      GuardedSound(a, mask, widths, env);
      GuardedUnary(op, a, Guarded(a, mask), m, widths, env);
    case Bin(op, a, b) =>
      var a', b' := Guarded(a, LeftMask(op, b, m)), Guarded(b, RightMask(op, m));
      GuardedSound(a, LeftMask(op, b, m), widths, env);
      GuardedSound(b, RightMask(op, m), widths, env);
      BinaryDemandSound(op, a, b, m, widths, env, Eval(a', env), Eval(b', env));
    case IfZero(c, z, n) =>
      GuardedSound(c, Ones(), widths, env);
      GuardedSound(z, m, widths, env);
      GuardedSound(n, m, widths, env);
      SameOnes(Eval(Guarded(c, Ones()), env), Eval(c, env));
  }

  lemma GuardedUnary(op: Unary, a: Node, a': Node, m: Word, widths: nat -> nat, env: Env)
    requires Valid(Un(op, a), widths) && m != Zero()
    requires Preserves(GuardedMask(op, m), a, a', widths, env) && a' == Guarded(a, GuardedMask(op, m))
    ensures Preserves(m, Un(op, a), Un(op, a'), widths, env)
  {
    if ValidUnary(op) {
      GuardedDemand(op, m, Eval(a', env), Eval(a, env));
    } else {
      EmptyTableValue(op, a, env);
      assert GuardedMask(op, m) == Zero();
      assert a' == Const(Zero());
      EmptyTableValue(op, a', env);
    }
  }

  /** For every well-formed tree, every input in range and every demand mask, the guarded reduction
      agrees with the tree on the demanded bits. */
  lemma {:induction false} GuardedSound(t: Node, m: Word, widths: nat -> nat, env: Env)
    requires Valid(t, widths) && InRange(env, widths)
    ensures Preserves(m, t, Guarded(t, m), widths, env)
    decreases t, 1
  {
    if m == Zero() || t.Const? || t.Arg? {
      LeafSound(t, m, widths, env);
    } else {
      var t1 := GuardedArgs(t, m);
      forall e | InRange(e, widths) ensures Preserves(m, t, t1, widths, e) {
        GuardedArgsSound(t, m, widths, e);
      }
      GuardedStepSound(t, t1, m, widths, env);
      GuardedIsStep(t, m);
    }
  }

  lemma GuardedIsStep(t: Node, m: Word)
    requires m != Zero() && !t.Const? && !t.Arg?
    ensures Guarded(t, m) == GuardedStep(t, GuardedArgs(t, m), m)
  {
  }

  /** A node whose reduced children keep the demanded bits on every input keeps them in the step. */
  lemma GuardedStepSound(t: Node, t1: Node, m: Word, widths: nat -> nat, env: Env)
    requires Valid(t, widths) && InRange(env, widths) && m != Zero()
    requires forall e :: InRange(e, widths) ==> Preserves(m, t, t1, widths, e)
    ensures Preserves(m, t, GuardedStep(t, t1, m), widths, env)
  {
    if MayLookUp(t, t1, m) {
      var (i, bits) := SingleArg(Uses(t, m)).value;
      LookupSound(t, t1, m, widths, env, i, bits);
      GuardedRewritePreserves(t, Lookup(t1, m, i, bits, ArgWidth(t1, i).value), m, widths, env);
    } else {
      GuardedRewritePreserves(t, t1, m, widths, env);
    }
  }

  lemma GuardedRewritePreserves(t: Node, t': Node, m: Word, widths: nat -> nat, env: Env)
    requires InRange(env, widths) && m != Zero() && Preserves(m, t, t', widths, env)
    ensures Preserves(m, t, GuardedRewrite(t', m), widths, env)
  {
    if !Hazard(t', m) {
      RewriteSound(t', m, widths, env);
      SameTrans(m, Eval(Rewrite(t', m), env), Eval(t', env), Eval(t, env));
    }
  }

  lemma SameTrans(m: Word, a: Word, b: Word, c: Word)
    requires Same(m, a, b) && Same(m, b, c)
    ensures Same(m, a, c)
  {
  }

  // ------------------------------------------------- the reduction as it is written

  /** No step of the reduction meets a hazard. */
  predicate Safe(t: Node, m: Word)
    decreases t
  {
    m == Zero() ||
    match t
    case Const(_) => true
    case Arg(_, _, _) => true
    case Un(op, a) => DemandCovered(op, m) && Safe(a, UnaryMask(op, m)) && StepSafe(t, m)
    case Bin(op, a, b) => Safe(a, LeftMask(op, b, m)) && Safe(b, RightMask(op, m)) && StepSafe(t, m)
    case IfZero(c, z, n) => Safe(c, Ones()) && Safe(z, m) && Safe(n, m) && StepSafe(t, m)
  }

  predicate StepSafe(t: Node, m: Word)
  {
    var t1, u := ReducedArgs(t, m), Uses(t, m);
    if LookupFires(t1, m, u) then !LookupHazard(t1, u) && SignsCovered(t, m) else !Hazard(t1, m)
  }

  /** Where no step meets a hazard, the reduction is the guarded one. */
  lemma {:induction false} SafeIsGuarded(t: Node, m: Word)
    requires Safe(t, m)
    ensures Guarded(t, m) == Reduced(t, m)
    decreases t
  {
    if m != Zero() && !t.Const? && !t.Arg? {
      match t {
        case Un(op, a) =>
          SafeIsGuarded(a, UnaryMask(op, m));
        case Bin(op, a, b) =>
          SafeIsGuarded(a, LeftMask(op, b, m));
          SafeIsGuarded(b, RightMask(op, m));
        case IfZero(c, z, n) =>
          SafeIsGuarded(c, Ones());
          SafeIsGuarded(z, m);
          SafeIsGuarded(n, m);
      }
      assert GuardedArgs(t, m) == ReducedArgs(t, m);
      SafeStep(t, m);
    }
  }

  lemma SafeStep(t: Node, m: Word)
    requires m != Zero() && !t.Const? && !t.Arg? && Safe(t, m) && GuardedArgs(t, m) == ReducedArgs(t, m)
    ensures Guarded(t, m) == Reduced(t, m)
  {
    var t1, u := ReducedArgs(t, m), Uses(t, m);
    assert StepSafe(t, m);
    GuardedIsStep(t, m);
    if LookupFires(t1, m, u) {
      var (i, bits) := SingleArg(u).value;
      LookupSafe(t1, m, i, bits, ArgWidth(t1, i).value);
      ReducedByLookup(t, m, i, bits, Lookup(t1, m, i, bits, ArgWidth(t1, i).value));
    } else {
      ReducedByRule(t, m);
    }
  }

  /** A lookup tree is a shift, which no rule treats wrongly. */
  lemma LookupSafe(t: Node, m: Word, i: nat, bits: Word, width: nat)
    ensures !Hazard(Lookup(t, m, i, bits, width), m)
  {
    ShlSafe(Lookup(t, m, i, bits, width), m);
  }

  lemma ShlSafe(t: Node, m: Word)
    requires t.Bin? && t.bop.Shl?
    ensures !Hazard(t, m)
  {
  }

  lemma ReducedByLookup(t: Node, m: Word, i: nat, bits: Word, t': Node)
    requires m != Zero() && !t.Const? && !t.Arg? && LookupFires(ReducedArgs(t, m), m, Uses(t, m))
    requires SingleArg(Uses(t, m)).value == (i, bits) && ArgWidth(ReducedArgs(t, m), i).Some?
    requires t' == Lookup(ReducedArgs(t, m), m, i, bits, ArgWidth(ReducedArgs(t, m), i).value)
    ensures Reduced(t, m) == Rewrite(t', m)
  {
  }

  lemma ReducedByRule(t: Node, m: Word)
    requires m != Zero() && !t.Const? && !t.Arg? && !LookupFires(ReducedArgs(t, m), m, Uses(t, m))
    ensures Reduced(t, m) == Rewrite(ReducedArgs(t, m), m)
  {
  }

  /** The reduction as it is written keeps the demanded bits where no step meets a hazard. */
  lemma ReducedSound(t: Node, m: Word, widths: nat -> nat, env: Env)
    requires Valid(t, widths) && InRange(env, widths) && Safe(t, m)
    ensures Preserves(m, t, Reduced(t, m), widths, env)
  {
    SafeIsGuarded(t, m);
    GuardedSound(t, m, widths, env);
  }

  /** No sign is ever extended in the tree. */
  predicate SignFree(t: Node)
  {
    match t
    case Const(_) => true
    case Arg(_, _, signed) => !signed
    case Un(op, a) => !op.SignExtend? && SignFree(a)
    case Bin(_, a, b) => SignFree(a) && SignFree(b)
    case IfZero(c, z, n) => SignFree(c) && SignFree(z) && SignFree(n)
  }

  /** Such trees meet no hazard of demand, whatever is demanded of them. */
  lemma {:induction false} SignFreeCovered(t: Node, m: Word)
    requires SignFree(t)
    ensures SignsCovered(t, m) && (t.Un? ==> DemandCovered(t.op, m))
    decreases t
  {
    match t
    case Const(_) =>
    case Arg(_, _, _) =>
    case Un(op, a) => SignFreeCovered(a, UnaryMask(op, m));
    case Bin(op, a, b) =>
      SignFreeCovered(a, LeftMask(op, b, m));
      SignFreeCovered(b, RightMask(op, m));
    case IfZero(c, z, n) =>
      SignFreeCovered(c, Ones());
      SignFreeCovered(z, m);
      SignFreeCovered(n, m);
  }

  // ------------------------------------------------------- the lookup rule

  lemma {:induction false} CountOnesPositive(s: seq<bool>, i: nat)
    requires i < |s| && s[i]
    ensures CountOnes(s) >= 1
    decreases |s|
  {
    if i > 0 {
      CountOnesPositive(s[1..], i - 1);
    }
  }

  /** A mask with one set bit is that bit. */
  lemma {:induction false} SingleBit(s: seq<bool>, i: nat)
    requires CountOnes(s) == 1 && i < |s|
    ensures TrailingZeros(s) < |s|
    ensures s[i] == (i == TrailingZeros(s))
    decreases |s|
  {
    if s[0] {
      if i > 0 && s[i] {
        CountOnesPositive(s[1..], i - 1);
      }
    } else {
      SingleBit(s[1..], if i > 0 then i - 1 else 0);
    }
  }

  lemma OneHotMask(m: Word)
    requires CountOnes(m) == 1
    ensures TrailingZeros(m) < 128 && m == OneHot(TrailingZeros(m))
  {
    forall i | 0 <= i < 128 ensures TrailingZeros(m) < 128 && m[i] == (i == TrailingZeros(m)) {
      SingleBit(m, i);
    }
    SingleBit(m, 0);
  }

  /** Depositing the extracted address gives back the used bits of the input. */
  lemma AddressRoundTrip(v: Word, bits: Word, w: nat, signed: bool)
    requires 1 <= w <= 128 && Fits(bits, w) && CountOnes(bits) < 8
    ensures var s := Amount(WExtract(EvalInput(v, w, signed), bits));
            s < 128 && WDeposit(OfInt(s), bits) == WAnd(v, bits)
  {
    var x := WExtract(v, bits);
    GatherDepends(EvalInput(v, w, signed), v, bits);
    assert WExtract(EvalInput(v, w, signed), bits) == x;
    ExtractFitsCount(v, bits);
    AmountOfNarrow(x, CountOnes(bits));
    OfIntToNat(x);
    DepositExtract(v, bits);
  }

  lemma EmptyPacked(v: Word)
    requires v == Zero()
    ensures PackedTable(v) == v
  {
    hide TrailingZeros;
  }

  lemma EmptyRead(table: Word, s: nat, skip: nat)
    requires table == Zero()
    ensures WSelect(WShl(table, s), skip, 1) == Zero()
  {
  }

  /** The packed table read at distance `s`, also when the table is empty. */
  lemma TableReadAny(v: Word, s: nat)
    requires s < 128
    ensures WSelect(WShl(PackedTable(v), s), TableSkip(v), 1) == if v[127 - s] then One() else Zero()
  {
    hide PackedTable, TableSkip;
    if v == Zero() {
      EmptyPacked(v);
      EmptyRead(PackedTable(v), s, TableSkip(v));
    } else {
      TableRead(v, s);
    }
  }

  /** The value of a lookup tree: the demanded bit holds the table entry of the address. */
  lemma LookupValue(v: Word, input: Node, bits: Word, k: nat, widths: nat -> nat, env: Env)
    requires Valid(input, widths) && k < 128
    ensures var s := Amount(WExtract(Eval(input, env), bits));
            var t := Bin(Shl, Un(Select(TableSkip(v), 1),
                                 Bin(Shl, Const(PackedTable(v)), Bin(ExtractBits, input, Const(bits)))),
                         Const(OfInt(k)));
            Valid(t, widths) && Eval(t, env)[k] == v[127 - s]
  {
    hide PackedTable, WExtract, TrailingZeros, Amount, WSelect, SelectOp, OfInt;
    var address := Bin(ExtractBits, input, Const(bits));
    var s := Amount(WExtract(Eval(input, env), bits));
    assert Eval(Const(bits), env) == bits && Valid(Const(bits), widths);
    assert Valid(address, widths) && Eval(address, env) == WExtract(Eval(input, env), bits);
    var packed := Const(PackedTable(v));
    var shifted := Bin(Shl, packed, address);
    assert Eval(packed, env) == PackedTable(v) && Valid(packed, widths);
    assert Valid(shifted, widths) && Eval(shifted, env) == WShl(PackedTable(v), s);
    var entry := Un(Select(TableSkip(v), 1), shifted);
    TableReadAny(v, s);
    assert TableSkip(v) <= 127;
    assert Valid(entry, widths) && Eval(entry, env) == if v[127 - s] then One() else Zero();
    ShiftByConst(k);
    assert Eval(Const(OfInt(k)), env) == OfInt(k) && Valid(Const(OfInt(k)), widths);
    var t := Bin(Shl, entry, Const(OfInt(k)));
    assert Eval(t, env) == WShl(Eval(entry, env), k);
    assert Eval(t, env)[k] == Eval(entry, env)[0];
  }

  /** The lookup tree computes the demanded bit of the tree it replaces, for every input.  The table
      may be filled from any tree that keeps the demanded bits on every input. */
  lemma LookupSound(t: Node, t1: Node, m: Word, widths: nat -> nat, env: Env, i: nat, bits: Word)
    requires Valid(t, widths) && InRange(env, widths) && m != Zero()
    requires forall e :: InRange(e, widths) ==> Preserves(m, t, t1, widths, e)
    requires MayLookUp(t, t1, m) && SingleArg(Uses(t, m)) == Some((i, bits))
    ensures Preserves(m, t, Lookup(t1, m, i, bits, ArgWidth(t1, i).value), widths, env)
  {
    hide Lookup, Uses, Eval, Valid, CountOnes, TrailingZeros, SignsCovered;
    assert Preserves(m, t, t1, widths, env);
    ArgWidthDeclared(t1, i, widths);
    UsesWithinWidth(t, m, widths, i);
    OneHotMask(m);
    var k := TrailingZeros(m);
    LookupShows(t1, m, k, i, bits, widths, env);
    ProbeSound(t, t1, m, widths, env, Probe(i, WAnd(env(i), bits)), i, bits);
    assert m[k];
  }

  /** The replacement in the probe environment shows the original tree in the real one: the two
      environments agree on every used bit. */
  lemma ProbeSound(t: Node, t1: Node, m: Word, widths: nat -> nat, env: Env, probe: Env, i: nat, bits: Word)
    requires Valid(t, widths) && InRange(env, widths) && SignsCovered(t, m)
    requires forall e :: InRange(e, widths) ==> Preserves(m, t, t1, widths, e)
    requires SingleArg(Uses(t, m)) == Some((i, bits)) && Fits(bits, widths(i))
    requires probe(i) == WAnd(env(i), bits) && forall j: nat :: j != i ==> probe(j) == Zero()
    ensures Same(m, Eval(t1, probe), Eval(t, env))
  {
    ProbeInRange(env, widths, i, bits, probe);
    ProbeAgrees(env, Uses(t, m), i, bits, probe);
    UsesSound(t, m, widths, env, probe);
    assert Preserves(m, t, t1, widths, probe);
    SameTrans(m, Eval(t1, probe), Eval(t, probe), Eval(t, env));
  }

  /** The entry at an address is the demanded bit in the probe for that address. */
  lemma TableHolds(t: Node, i: nat, bits: Word, m: Word, k: nat, s: nat)
    requires s < 128 && k < 128 && m == OneHot(k)
    ensures Table(t, i, bits, m)[127 - s] == Eval(t, Probe(i, WDeposit(OfInt(s), bits)))[k]
  {
    hide Eval, WDeposit, OfInt;
    var x := Eval(t, Probe(i, WDeposit(OfInt(s), bits)));
    TableEntry(x, m, k);
    assert Table(t, i, bits, m)[127 - s] == (WAnd(x, m) != Zero());
  }

  /** On every input the lookup tree shows, in the demanded bit, the tree it was filled from on the
      used bits of the input alone. */
  lemma LookupShows(t: Node, m: Word, k: nat, i: nat, bits: Word, widths: nat -> nat, env: Env)
    requires k < 128 && m == OneHot(k) && k == TrailingZeros(m)
    requires 1 <= widths(i) <= 128 && Fits(bits, widths(i)) && CountOnes(bits) < 8
    ensures Valid(Lookup(t, m, i, bits, widths(i)), widths)
    ensures Eval(Lookup(t, m, i, bits, widths(i)), env)[k] == Eval(t, Probe(i, WAnd(env(i), bits)))[k]
  {
    var signed := !UnsignedUse(t, i);
    var input := Node.Arg(i, widths(i), signed);
    assert Valid(input, widths) && Eval(input, env) == EvalInput(env(i), widths(i), signed);
    AddressRoundTrip(env(i), bits, widths(i), signed);
    var s := Amount(WExtract(EvalInput(env(i), widths(i), signed), bits));
    TableHolds(t, i, bits, m, k, s);
    LookupValue(Table(t, i, bits, m), input, bits, k, widths, env);
  }

  lemma TableEntry(x: Word, m: Word, k: nat)
    requires k < 128 && m == OneHot(k)
    ensures WAnd(x, m) != Zero() <==> x[k]
  {
    ZeroIffNoBit(WAnd(x, m));
    assert WAnd(x, m)[k] == x[k];
  }

  lemma ProbeInRange(env: Env, widths: nat -> nat, i: nat, bits: Word, probe: Env)
    requires InRange(env, widths) && Fits(bits, widths(i))
    requires probe(i) == WAnd(env(i), bits) && forall j: nat :: j != i ==> probe(j) == Zero()
    ensures InRange(probe, widths)
  {
    forall j: nat ensures Fits(probe(j), widths(j)) {
    }
  }

  lemma ProbeAgrees(env: Env, u: seq<Word>, i: nat, bits: Word, probe: Env)
    requires SingleArg(u) == Some((i, bits)) && probe(i) == WAnd(env(i), bits)
    ensures Agree(u, env, probe)
  {
    forall j: nat ensures Same(At(u, j), env(j), probe(j)) {
      if j != i {
        OthersUnused(u, j);
      }
    }
  }

  // ------------------------------------------------------------- normalizing

  /** `propagate_constants`: evaluates every operator whose operands are all constants. */
  function PropagateConstants(t: Node): Node
  {
    match t
    case Arg(_, _, _) => t
    case Const(_) => t
    case Un(op, a) =>
      var a' := PropagateConstants(a);
      if a'.Const? then Const(EvalUnary(op, a'.value)) else Un(op, a')
    case Bin(op, a, b) =>
      var a', b' := PropagateConstants(a), PropagateConstants(b);
      if a'.Const? && b'.Const? then Const(EvalBinary(op, a'.value, b'.value)) else Bin(op, a', b')
    case IfZero(c, z, n) =>
      var c', z', n' := PropagateConstants(c), PropagateConstants(z), PropagateConstants(n);
      if c'.Const? && z'.Const? && n'.Const? then Const(EvalIfZero(c'.value, z'.value, n'.value))
      else IfZero(c', z', n')
  }

  lemma {:induction false} PropagateConstantsSound(t: Node, widths: nat -> nat, env: Env)
    requires Valid(t, widths)
    ensures Valid(PropagateConstants(t), widths)
    ensures Eval(PropagateConstants(t), env) == Eval(t, env)
    decreases t
  {
    match t
    case Arg(_, _, _) =>
    case Const(_) =>
    case Un(_, a) => PropagateConstantsSound(a, widths, env);
    case Bin(_, a, b) =>
      PropagateConstantsSound(a, widths, env);
      PropagateConstantsSound(b, widths, env);
    case IfZero(c, z, n) =>
      PropagateConstantsSound(c, widths, env);
      PropagateConstantsSound(z, widths, env);
      PropagateConstantsSound(n, widths, env);
  }

  /** `k` rounds of reduction under the same demand. */
  function Rounds(t: Node, m: Word, k: nat): Node
    decreases k
  {
    if k == 0 then t else Rounds(Reduced(t, m), m, k - 1)
  }

  lemma RoundsDone(t: Node, m: Word)
    ensures Rounds(t, m, 0) == t
  {
  }

  lemma RoundsNext(t: Node, m: Word, k: nat)
    requires k > 0
    ensures Rounds(t, m, k) == Rounds(Reduced(t, m), m, k - 1)
  {
  }

  /** `k` rounds of guarded reduction. */
  function GuardedRounds(t: Node, m: Word, k: nat): Node
    decreases k
  {
    if k == 0 then t else GuardedRounds(Guarded(t, m), m, k - 1)
  }

  lemma GuardedRoundsNext(t: Node, m: Word, k: nat)
    requires k > 0
    ensures GuardedRounds(t, m, k) == GuardedRounds(Guarded(t, m), m, k - 1)
  {
  }

  /** Any number of guarded rounds keeps the demanded bits. */
  lemma {:induction false} GuardedRoundsSound(t: Node, m: Word, k: nat, widths: nat -> nat, env: Env)
    requires Valid(t, widths) && InRange(env, widths)
    ensures Preserves(m, t, GuardedRounds(t, m, k), widths, env)
    decreases k
  {
    hide Guarded, Eval, Valid;
    if k > 0 {
      var t1 := Guarded(t, m);
      GuardedSound(t, m, widths, env);
      GuardedRoundsNext(t, m, k);
      GuardedRoundsSound(t1, m, k - 1, widths, env);
      SameTrans(m, Eval(GuardedRounds(t1, m, k - 1), env), Eval(t1, env), Eval(t, env));
    }
  }

  /** No step of any of the rounds meets a hazard. */
  predicate SafeRounds(t: Node, m: Word, k: nat)
    decreases k
  {
    k == 0 || (Safe(t, m) && SafeRounds(Reduced(t, m), m, k - 1))
  }

  lemma {:induction false} SafeRoundsAreGuarded(t: Node, m: Word, k: nat)
    requires SafeRounds(t, m, k)
    ensures GuardedRounds(t, m, k) == Rounds(t, m, k)
    decreases k
  {
    hide Guarded, Reduced, Safe;
    if k > 0 {
      SafeIsGuarded(t, m);
      GuardedRoundsNext(t, m, k);
      RoundsNext(t, m, k);
      SafeRoundsAreGuarded(Reduced(t, m), m, k - 1);
    }
  }

  const ROUNDS: nat := 10

  /** The normalized tree for an output of `bits` bits. */
  function NormalizedTree(t: Node, bits: nat): Node
  {
    Rounds(PropagateConstants(t), Low(bits), ROUNDS)
  }

  predicate SafeToNormalize(t: Node, bits: nat)
  {
    SafeRounds(PropagateConstants(t), Low(bits), ROUNDS)
  }

  method ReduceRounds(start: Node, m: Word, k: nat) returns (t: Node)
    ensures t == Rounds(start, m, k)
  {
    hide Rounds, Reduced;
    t := start;
    ghost var goal := Rounds(start, m, k);
    for i := 0 to k
      invariant goal == Rounds(t, m, k - i)
    {
      RoundsNext(t, m, k - i);
      t := ReduceOnce(t, m);
    }
    RoundsDone(t, m);
  }

  method ReduceOnce(t: Node, m: Word) returns (r: Node)
    ensures r == Reduced(t, m)
  {
    var u: seq<Word>;
    r, u := Reduce(t, m);
  }

  /** `normalize`: reads the tree, propagates constants, reduces ten times, and prints. */
  method Normalize(p: Program, bits: nat) returns (q: Option<Program>)
    ensures q == if Tree(p).None? then None else Some(Print(NormalizedTree(Tree(p).value, bits), Empty))
    ensures Tree(p).Some? ==>
              var t := Tree(p).value; NormalizedTree(t, bits) == Rounds(PropagateConstants(t), Low(bits), 10)
  {
    var tree := TreeFrom(p);
    if tree.None? {
      return None;
    }
    var t := ReduceRounds(PropagateConstants(tree.value), Low(bits), ROUNDS);
    var buffers := new TemplateBuffers();
    buffers.CreateTemplate(t);
    q := Some(buffers.Contents());
  }

  /** The tree normalized with guarded rules. */
  function GuardedTree(t: Node, bits: nat): Node
  {
    GuardedRounds(PropagateConstants(t), Low(bits), ROUNDS)
  }

  /** Normalizing a program with guarded rules keeps, on every input in range, the bits of its
      output. */
  lemma GuardedNormalizePreserves(p: Program, bits: nat, widths: nat -> nat, env: Env)
    requires Tree(p).Some? && Valid(Tree(p).value, widths) && InRange(env, widths)
    ensures var q := Print(GuardedTree(Tree(p).value, bits), Empty);
            && Run(p, env).Some? && Run(q, env).Some?
            && Same(Low(bits), Run(q, env).value, Run(p, env).value)
  {
    var t := Tree(p).value;
    TreeComputesProgram(p, env);
    PropagateConstantsSound(t, widths, env);
    GuardedRoundsSound(PropagateConstants(t), Low(bits), ROUNDS, widths, env);
    PrintedProgramComputes(GuardedTree(t, bits), env);
  }

  /** The normalizer as it is written does the same where no step meets a hazard. */
  lemma NormalizePreservesOutput(p: Program, bits: nat, widths: nat -> nat, env: Env)
    requires Tree(p).Some? && Valid(Tree(p).value, widths) && InRange(env, widths)
    requires SafeToNormalize(Tree(p).value, bits)
    ensures var q := Print(NormalizedTree(Tree(p).value, bits), Empty);
            && Run(p, env).Some? && Run(q, env).Some?
            && Same(Low(bits), Run(q, env).value, Run(p, env).value)
  {
    SafeRoundsAreGuarded(PropagateConstants(Tree(p).value), Low(bits), ROUNDS);
    GuardedNormalizePreserves(p, bits, widths, env);
  }
}
