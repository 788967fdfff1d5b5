/** Disjunctions of conjunctions of terms, their direct evaluation, and their folding
    into a single program.
 */
module Formulas {
  import opened Options
  import opened Words
  import opened WordArithmetic
  import opened Expressions
  import opened Predicates

  datatype Term =
    | Predicate(negate: bool, program: Program)
    | CaseMatch(negate: bool, inputs: seq<(nat, IoType)>, cases: seq<seq<Value>>)

  datatype Conjunction = Conjunction(terms: seq<Term>)

  // --------------------------------------------------------------- evaluation

  predicate CaseHolds(inputs: seq<(nat, IoType)>, values: seq<Value>, actual: seq<Value>)
  {
    forall k :: 0 <= k < |inputs| && k < |values| ==> inputs[k].0 < |actual| && actual[inputs[k].0] == values[k]
  }

  ghost predicate Evaluate(t: Term, actual: seq<Value>)
  {
    match t
    case Predicate(negate, program) => True(program, Inputs(actual)) != negate
    case CaseMatch(negate, inputs, cases) =>
      (exists c :: 0 <= c < |cases| && CaseHolds(inputs, cases[c], actual)) != negate
  }

  ghost predicate EvaluateAll(terms: seq<Term>, actual: seq<Value>)
  {
    forall i :: 0 <= i < |terms| ==> Evaluate(terms[i], actual)
  }

  ghost predicate EvaluateAny(cs: seq<Conjunction>, actual: seq<Value>)
  {
    exists i :: 0 <= i < |cs| && EvaluateAll(cs[i].terms, actual)
  }

  /** A term whose program leaves one value, or whose cases list a value of the right type for
      each of at least one input. */
  predicate ValidTerm(t: Term, actual: seq<Value>)
  {
    match t
    case Predicate(_, program) => Single(program)
    case CaseMatch(_, inputs, cases) =>
      && (|cases| > 0 ==> |inputs| > 0)
      && (forall k :: 0 <= k < |inputs| ==> inputs[k].0 < |actual| && HasType(actual[inputs[k].0], inputs[k].1))
      && (forall c :: 0 <= c < |cases| ==> ValidCase(inputs, cases[c]))
  }

  predicate ValidCase(inputs: seq<(nat, IoType)>, values: seq<Value>)
  {
    |values| == |inputs| && forall k :: 0 <= k < |inputs| ==> HasType(values[k], inputs[k].1)
  }

  predicate ValidTerms(terms: seq<Term>, actual: seq<Value>)
  {
    forall i :: 0 <= i < |terms| ==> ValidTerm(terms[i], actual)
  }

  // ------------------------------------------------------------ case programs

  function Repeat(op: Op, k: nat): seq<Op>
  {
    if k == 0 then [] else Repeat(op, k - 1) + [op]
  }

  /** Compares inputs `0 .. k` with the constants in holes `base ..`. */
  function CompareOps(base: nat, k: nat): seq<Op>
  {
    if k == 0 then []
    else CompareOps(base, k - 1) + [Hole(k - 1), Hole(base + (k - 1)), Apply2(Sub), Apply1(IsZero)]
  }

  /** One case: all comparisons, then their conjunction. */
  function CaseOps(n: nat, index: nat): seq<Op>
    requires n > 0
  {
    CompareOps(n + index * n, n) + Repeat(Apply2(And), n - 1)
  }

  function CasesOps(n: nat, count: nat): seq<Op>
    requires n > 0
  {
    if count == 0 then [] else CasesOps(n, count - 1) + CaseOps(n, count - 1)
  }

  /** The constants of all cases, case by case. */
  function Flatten(cases: seq<seq<Value>>, n: nat): (r: seq<Word>)
    requires forall c :: 0 <= c < |cases| ==> |cases[c]| == n
    ensures |r| == |cases| * n
  {
    if |cases| == 0 then []
    else
      var last := |cases| - 1;
      Flatten(cases[..last], n) + seq(n, k requires 0 <= k < n => Number(cases[last][k]))
  }

  /** The holes: one per input, then one per constant. */
  function CaseArgs(inputs: seq<(nat, IoType)>, constants: nat): (r: seq<ArgSpec>)
    ensures |r| == |inputs| + constants
    ensures forall k :: 0 <= k < |inputs| ==> r[k] == Input(inputs[k].0, NumBits(inputs[k].1), false)
    ensures forall k :: 0 <= k < constants ==> r[|inputs| + k] == Pooled(k)
  {
    seq(|inputs|, k requires 0 <= k < |inputs| => Input(inputs[k].0, NumBits(inputs[k].1), false))
    + seq(constants, k requires 0 <= k => Pooled(k))
  }

  predicate RectangularCases(inputs: seq<(nat, IoType)>, cases: seq<seq<Value>>)
  {
    forall c :: 0 <= c < |cases| ==> |cases[c]| == |inputs|
  }

  function CaseProgram(inputs: seq<(nat, IoType)>, cases: seq<seq<Value>>): Program
    requires |inputs| > 0 && |cases| > 0 && RectangularCases(inputs, cases)
  {
    var n := |inputs|;
    Program(CasesOps(n, |cases|) + Repeat(Apply2(Or), |cases| - 1),
            CaseArgs(inputs, |cases| * n),
            Flatten(cases, n))
  }

  /** The two inner loops for one case, whose values start at hole `base`. */
  method EmitCase(before: seq<Op>, n: nat, base: nat) returns (ops: seq<Op>)
    requires n > 0
    ensures ops == before + (CompareOps(base, n) + Repeat(Apply2(And), n - 1))
  {
    ops := before;
    for k := 0 to n
      invariant ops == before + CompareOps(base, k)
    {
      ops := ops + [Hole(k), Hole(base + k), Apply2(Sub), Apply1(IsZero)];
    }
    for k := 0 to n - 1
      invariant ops == before + (CompareOps(base, n) + Repeat(Apply2(And), k))
    {
      ops := ops + [Apply2(And)];
    }
  }

  /** The nested loops that emit the operators of a case match. */
  method EmitCases(n: nat, count: nat) returns (ops: seq<Op>)
    requires n > 0 && count > 0
    ensures ops == CasesOps(n, count) + Repeat(Apply2(Or), count - 1)
  {
    ops := [];
    for index := 0 to count
      invariant ops == CasesOps(n, index)
    {
      ghost var before := ops;
      ops := EmitCase(ops, n, n + index * n);
      assert ops == before + CaseOps(n, index);
    }
    for k := 0 to count - 1
      invariant ops == CasesOps(n, count) + Repeat(Apply2(Or), k)
    {
      ops := ops + [Apply2(Or)];
    }
  }

  // -------------------------------------------------- the trees of case programs

  /** `ts[0] op (ts[1] op (...))`. */
  function FoldRight(op: Binary, ts: seq<Node>): Node
    requires |ts| > 0
  {
    if |ts| == 1 then ts[0] else Bin(op, ts[0], FoldRight(op, ts[1..]))
  }

  lemma {:induction false} FoldRightLast(op: Binary, ts: seq<Node>)
    requires |ts| >= 2
    ensures FoldRight(op, ts[..|ts| - 2] + [Bin(op, ts[|ts| - 2], ts[|ts| - 1])]) == FoldRight(op, ts)
    decreases |ts|
  {
    var n := |ts|;
    var folded := ts[..n - 2] + [Bin(op, ts[n - 2], ts[n - 1])];
    if n == 2 {
      assert folded == [Bin(op, ts[0], ts[1])] && ts[1..] == [ts[1]];
    } else {
      FoldRightLast(op, ts[1..]);
      assert folded[1..] == ts[1..][..n - 3] + [Bin(op, ts[1..][n - 3], ts[1..][n - 2])];
    }
  }

  /** A run of one operator folds the values on top of the stack. */
  lemma {:induction false} BuildRepeat(op: Binary, k: nat, p: Program, base: seq<Node>, ts: seq<Node>)
    requires |ts| == k + 1
    ensures BuildFrom(Repeat(Apply2(op), k), p, base + ts) == Some(base + [FoldRight(op, ts)])
    decreases k
  {
    if k == 0 {
      assert ts == [ts[0]];
    } else {
      var stack := base + ts;
      var folded := ts[..k - 1] + [Bin(op, ts[k - 1], ts[k])];
      RepeatFront(Apply2(op), k);
      BuildAppend([Apply2(op)], Repeat(Apply2(op), k - 1), p, stack);
      BuildOne(Apply2(op), [Apply2(op)], p, stack);
      assert stack[..|stack| - 2] + [Bin(op, ts[k - 1], ts[k])] == base + folded;
      BuildRepeat(op, k - 1, p, base, folded);
      FoldRightLast(op, ts);
    }
  }

  lemma {:induction false} RepeatFront(op: Op, k: nat)
    requires k > 0
    ensures Repeat(op, k) == [op] + Repeat(op, k - 1)
    decreases k
  {
    if k > 1 {
      RepeatFront(op, k - 1);
    }
  }

  /** The comparison of the leaf of one hole with the leaf of another. */
  function CompareNode(a: Node, b: Node): Node { Un(IsZero, Bin(Sub, a, b)) }

  lemma BuildCompare(h: nat, g: nat, p: Program, stack: seq<Node>)
    requires HoleNode(p, h).Some? && HoleNode(p, g).Some?
    ensures BuildFrom([Hole(h), Hole(g), Apply2(Sub), Apply1(IsZero)], p, stack)
         == Some(stack + [CompareNode(HoleNode(p, h).value, HoleNode(p, g).value)])
  {
    var a, b := HoleNode(p, h).value, HoleNode(p, g).value;
    var s1, s2, s3 := stack + [a], stack + [a] + [b], stack + [Bin(Sub, a, b)];
    assert s2[..|stack|] == stack && s3[..|stack|] == stack;
    BuildCons(Hole(h), [Hole(g), Apply2(Sub), Apply1(IsZero)], p, stack);
    BuildCons(Hole(g), [Apply2(Sub), Apply1(IsZero)], p, s1);
    BuildCons(Apply2(Sub), [Apply1(IsZero)], p, s2);
    BuildOne(Apply1(IsZero), [Apply1(IsZero)], p, s3);
    assert [Hole(h)] + [Hole(g), Apply2(Sub), Apply1(IsZero)] == [Hole(h), Hole(g), Apply2(Sub), Apply1(IsZero)];
    assert [Hole(g)] + [Apply2(Sub), Apply1(IsZero)] == [Hole(g), Apply2(Sub), Apply1(IsZero)];
    assert [Apply2(Sub)] + [Apply1(IsZero)] == [Apply2(Sub), Apply1(IsZero)];
  }

  lemma BuildNothing(p: Program, stack: seq<Node>)
    ensures BuildFrom([], p, stack) == Some(stack)
  {
  }

  lemma BuildCons(op: Op, rest: seq<Op>, p: Program, stack: seq<Node>)
    requires BuildStep(op, p, stack).Some?
    ensures BuildFrom([op] + rest, p, stack) == BuildFrom(rest, p, BuildStep(op, p, stack).value)
  {
    assert ([op] + rest)[1..] == rest;
  }

  function CompareNodes(inputs: seq<(nat, IoType)>, values: seq<Value>): (r: seq<Node>)
    requires |values| == |inputs|
    ensures |r| == |inputs|
    ensures forall k :: 0 <= k < |inputs| ==> r[k] == CompareNode(InputNode(inputs[k]), Const(Number(values[k])))
  {
    seq(|inputs|, k requires 0 <= k < |inputs| => CompareNode(InputNode(inputs[k]), Const(Number(values[k]))))
  }

  function InputNode(input: (nat, IoType)): Node { Node.Arg(input.0, NumBits(input.1), false) }

  function CaseNode(inputs: seq<(nat, IoType)>, values: seq<Value>): Node
    requires |values| == |inputs| > 0
  {
    FoldRight(And, CompareNodes(inputs, values))
  }

  /** The leaves of the holes that case `index` compares. */
  ghost predicate CaseLeaves(p: Program, inputs: seq<(nat, IoType)>, values: seq<Value>, base: nat)
    requires |values| == |inputs|
  {
    forall k :: 0 <= k < |inputs| ==>
      HoleNode(p, k) == Some(InputNode(inputs[k])) && HoleNode(p, base + k) == Some(Const(Number(values[k])))
  }

  lemma {:induction false} BuildCompares(p: Program, inputs: seq<(nat, IoType)>, values: seq<Value>,
                                        base: nat, k: nat, stack: seq<Node>)
    requires |values| == |inputs| && k <= |inputs| && CaseLeaves(p, inputs, values, base)
    ensures BuildFrom(CompareOps(base, k), p, stack) == Some(stack + CompareNodes(inputs, values)[..k])
    decreases k
  {
    hide BuildFrom, CompareNodes;
    var nodes := CompareNodes(inputs, values);
    if k == 0 {
      BuildNothing(p, stack);
      assert stack + nodes[..0] == stack;
    } else {
      var step := [Hole(k - 1), Hole(base + (k - 1)), Apply2(Sub), Apply1(IsZero)];
      BuildCompares(p, inputs, values, base, k - 1, stack);
      BuildAppend(CompareOps(base, k - 1), step, p, stack);
      BuildCompare(k - 1, base + (k - 1), p, stack + nodes[..k - 1]);
      assert stack + nodes[..k - 1] + [nodes[k - 1]] == stack + nodes[..k];
    }
  }

  lemma BuildCase(p: Program, inputs: seq<(nat, IoType)>, values: seq<Value>, index: nat, stack: seq<Node>)
    requires |values| == |inputs| > 0 && CaseLeaves(p, inputs, values, |inputs| + index * |inputs|)
    ensures BuildFrom(CaseOps(|inputs|, index), p, stack) == Some(stack + [CaseNode(inputs, values)])
  {
    hide BuildFrom, CompareOps, FoldRight;
    var n := |inputs|;
    var nodes := CompareNodes(inputs, values);
    var base := n + index * n;
    BuildCompares(p, inputs, values, base, n, stack);
    assert nodes[..n] == nodes;
    BuildAppend(CompareOps(base, n), Repeat(Apply2(And), n - 1), p, stack);
    BuildRepeat(And, n - 1, p, stack, nodes);
  }

  lemma {:induction false} FlattenAt(cases: seq<seq<Value>>, n: nat, c: nat, k: nat)
    requires forall c :: 0 <= c < |cases| ==> |cases[c]| == n
    requires c < |cases| && k < n
    ensures 0 <= c * n + k < |Flatten(cases, n)|
    ensures Flatten(cases, n)[c * n + k] == Number(cases[c][k])
    decreases |cases|
  {
    var last := |cases| - 1;
    var front := Flatten(cases[..last], n);
    if c == last {
      assert |front| == last * n;
      assert Flatten(cases, n)[last * n + k] == Number(cases[last][k]);
    } else {
      FlattenAt(cases[..last], n, c, k);
      assert Flatten(cases, n)[c * n + k] == front[c * n + k];
    }
  }

  lemma CaseProgramLeaves(inputs: seq<(nat, IoType)>, cases: seq<seq<Value>>, c: nat)
    requires |inputs| > 0 && c < |cases| && RectangularCases(inputs, cases)
    ensures CaseLeaves(CaseProgram(inputs, cases), inputs, cases[c], |inputs| + c * |inputs|)
  {
    var p := CaseProgram(inputs, cases);
    var n := |inputs|;
    forall k | 0 <= k < n
      ensures HoleNode(p, k) == Some(InputNode(inputs[k]))
      ensures HoleNode(p, n + c * n + k) == Some(Const(Number(cases[c][k])))
    {
      FlattenAt(cases, n, c, k);
      assert p.args[n + (c * n + k)] == Pooled(c * n + k);
    }
  }

  function CaseNodes(inputs: seq<(nat, IoType)>, cases: seq<seq<Value>>): (r: seq<Node>)
    requires |inputs| > 0 && RectangularCases(inputs, cases)
    ensures |r| == |cases|
    ensures forall c :: 0 <= c < |cases| ==> r[c] == CaseNode(inputs, cases[c])
  {
    seq(|cases|, c requires 0 <= c < |cases| => CaseNode(inputs, cases[c]))
  }

  lemma {:induction false} BuildCases(inputs: seq<(nat, IoType)>, cases: seq<seq<Value>>, count: nat)
    requires |inputs| > 0 && |cases| > 0 && count <= |cases| && RectangularCases(inputs, cases)
    ensures BuildFrom(CasesOps(|inputs|, count), CaseProgram(inputs, cases), [])
            == Some(CaseNodes(inputs, cases)[..count])
    decreases count
  {
    hide CaseProgram, CaseNode, CaseOps, BuildFrom;
    if count == 0 {
      BuildNothing(CaseProgram(inputs, cases), []);
    } else {
      var c := count - 1;
      BuildCases(inputs, cases, c);
      BuildThisCase(inputs, cases, c);
      BuildNextCase(CaseProgram(inputs, cases), |inputs|, c, CaseNodes(inputs, cases)[..c],
                    CaseNodes(inputs, cases)[c]);
    }
  }

  lemma BuildThisCase(inputs: seq<(nat, IoType)>, cases: seq<seq<Value>>, c: nat)
    requires |inputs| > 0 && c < |cases| && RectangularCases(inputs, cases)
    ensures BuildFrom(CaseOps(|inputs|, c), CaseProgram(inputs, cases), CaseNodes(inputs, cases)[..c])
         == Some(CaseNodes(inputs, cases)[..c] + [CaseNodes(inputs, cases)[c]])
    ensures CaseNodes(inputs, cases)[..c] + [CaseNodes(inputs, cases)[c]] == CaseNodes(inputs, cases)[..c + 1]
  {
    CaseProgramLeaves(inputs, cases, c);
    BuildCase(CaseProgram(inputs, cases), inputs, cases[c], c, CaseNodes(inputs, cases)[..c]);
  }

  lemma BuildNextCase(p: Program, n: nat, c: nat, stack: seq<Node>, node: Node)
    requires n > 0 && BuildFrom(CasesOps(n, c), p, []) == Some(stack)
    requires BuildFrom(CaseOps(n, c), p, stack) == Some(stack + [node])
    ensures BuildFrom(CasesOps(n, c + 1), p, []) == Some(stack + [node])
  {
    var before, next := CasesOps(n, c), CaseOps(n, c);
    assert CasesOps(n, c + 1) == before + next;
    BuildAppend(before, next, p, []);
  }

  lemma CaseProgramTree(inputs: seq<(nat, IoType)>, cases: seq<seq<Value>>)
    requires |inputs| > 0 && |cases| > 0 && RectangularCases(inputs, cases)
    ensures Single(CaseProgram(inputs, cases))
    ensures TreeOf(CaseProgram(inputs, cases)) == FoldRight(Or, CaseNodes(inputs, cases))
  {
    var p, nodes := CaseProgram(inputs, cases), CaseNodes(inputs, cases);
    var m := |cases|;
    BuildCases(inputs, cases, m);
    assert nodes[..m] == nodes;
    FoldedCases(p, CasesOps(|inputs|, m), m, nodes);
  }

  lemma FoldedCases(p: Program, ops: seq<Op>, m: nat, nodes: seq<Node>)
    requires m > 0 && |nodes| == m && BuildFrom(ops, p, []) == Some(nodes)
    requires p.ops == ops + Repeat(Apply2(Or), m - 1)
    ensures Single(p) && TreeOf(p) == FoldRight(Or, nodes)
  {
    BuildAppend(ops, Repeat(Apply2(Or), m - 1), p, []);
    BuildRepeat(Or, m - 1, p, [], nodes);
    assert [] + nodes == nodes && [] + [FoldRight(Or, nodes)] == [FoldRight(Or, nodes)];
  }

  lemma {:induction false} FoldRightAnd(ts: seq<Node>, env: Env)
    requires |ts| > 0
    ensures Eval(FoldRight(And, ts), env)[0] <==> forall i :: 0 <= i < |ts| ==> Eval(ts[i], env)[0]
    decreases |ts|
  {
    if |ts| > 1 {
      FoldRightAnd(ts[1..], env);
      assert Eval(FoldRight(And, ts), env) == WAnd(Eval(ts[0], env), Eval(FoldRight(And, ts[1..]), env));
      assert forall i :: 0 < i < |ts| ==> ts[i] == ts[1..][i - 1];
    }
  }

  lemma {:induction false} FoldRightOr(ts: seq<Node>, env: Env)
    requires |ts| > 0
    ensures Eval(FoldRight(Or, ts), env)[0] <==> exists i :: 0 <= i < |ts| && Eval(ts[i], env)[0]
    decreases |ts|
  {
    if |ts| > 1 {
      FoldRightOr(ts[1..], env);
      assert Eval(FoldRight(Or, ts), env) == WOr(Eval(ts[0], env), Eval(FoldRight(Or, ts[1..]), env));
      if i :| 0 <= i < |ts| && Eval(ts[i], env)[0] {
        if i > 0 {
          assert ts[i] == ts[1..][i - 1];
        }
      }
      if Eval(FoldRight(Or, ts[1..]), env)[0] {
        var i :| 0 <= i < |ts| - 1 && Eval(ts[1..][i], env)[0];
        assert ts[1..][i] == ts[i + 1];
      }
    }
  }

  lemma CompareNodeHolds(a: Node, b: Node, env: Env)
    ensures Eval(CompareNode(a, b), env)[0] <==> Eval(a, env) == Eval(b, env)
  {
    SubIsZero(Eval(a, env), Eval(b, env));
    assert Eval(Bin(Sub, a, b), env) == WSub(Eval(a, env), Eval(b, env));
  }

  lemma CaseNodeHolds(inputs: seq<(nat, IoType)>, values: seq<Value>, actual: seq<Value>)
    requires |inputs| > 0 && ValidCase(inputs, values)
    requires forall k :: 0 <= k < |inputs| ==> inputs[k].0 < |actual| && HasType(actual[inputs[k].0], inputs[k].1)
    ensures Eval(CaseNode(inputs, values), Inputs(actual))[0] <==> CaseHolds(inputs, values, actual)
  {
    var env, nodes := Inputs(actual), CompareNodes(inputs, values);
    FoldRightAnd(nodes, env);
    forall k | 0 <= k < |inputs|
      ensures Eval(nodes[k], env)[0] <==> actual[inputs[k].0] == values[k]
    {
      var a, b := InputNode(inputs[k]), Const(Number(values[k]));
      CompareNodeHolds(a, b, env);
      assert Eval(a, env) == Number(actual[inputs[k].0]) && Eval(b, env) == Number(values[k]);
      NumberInjective(actual[inputs[k].0], values[k], inputs[k].1);
    }
  }

  // ------------------------------------------------------------------ folding

  function Always(value: bool): Program { Program([Literal(if value then 1 else 0)], [], []) }

  lemma AlwaysTree(value: bool, env: Env)
    ensures Single(Always(value)) && (True(Always(value), env) <==> value)
  {
    var c := if value then 1 else 0;
    BuildOne(Literal(c), [Literal(c)], Always(value), []);
    assert [] + [Const(OfInt(c))] == [Const(OfInt(c))];
    TrueOfTree(Always(value), env);
    OfIntBit0(c);
  }

  function FoldTerm(t: Term): Program
    requires t.CaseMatch? && |t.cases| > 0 ==> |t.inputs| > 0 && RectangularCases(t.inputs, t.cases)
  {
    match t
    case Predicate(negate, program) => if negate then NotProgram(program) else program
    case CaseMatch(negate, inputs, cases) =>
      if |cases| == 0 then Always(negate)
      else if negate then NotProgram(CaseProgram(inputs, cases))
      else CaseProgram(inputs, cases)
  }

  predicate Foldable(t: Term)
  {
    match t
    case Predicate(_, program) => Single(program)
    case CaseMatch(_, inputs, cases) => |cases| > 0 ==> |inputs| > 0 && RectangularCases(inputs, cases)
  }

  lemma FoldTermSingle(t: Term)
    requires Foldable(t)
    ensures Single(FoldTerm(t))
  {
    match t
    case Predicate(negate, program) =>
      if negate { NotProgramTree(program); }
    case CaseMatch(negate, inputs, cases) =>
      if |cases| == 0 {
        AlwaysTree(negate, Inputs([]));
      } else {
        CaseProgramTree(inputs, cases);
        NotProgramTree(CaseProgram(inputs, cases));
      }
  }

  lemma NotTrue(p: Program, env: Env)
    requires Single(p)
    ensures Single(NotProgram(p)) && (True(NotProgram(p), env) <==> !True(p, env))
  {
    NotProgramTree(p);
    TrueOfTree(p, env);
    TrueOfTree(NotProgram(p), env);
  }

  /** The folded term runs without panicking and holds exactly when the term evaluates to true. */
  lemma FoldTermCorrect(t: Term, actual: seq<Value>)
    requires ValidTerm(t, actual)
    ensures Foldable(t) && Single(FoldTerm(t))
    ensures True(FoldTerm(t), Inputs(actual)) <==> Evaluate(t, actual)
  {
    hide BuildFrom, CaseProgram, CaseNodes, CaseHolds, NotProgram, RunFrom, Eval;
    var env := Inputs(actual);
    match t
    case Predicate(negate, program) =>
      if negate { NotTrue(program, env); }
    case CaseMatch(negate, inputs, cases) =>
      assert RectangularCases(inputs, cases);
      if |cases| == 0 {
        AlwaysTree(negate, env);
      } else {
        CaseProgramTree(inputs, cases);
        var p, nodes := CaseProgram(inputs, cases), CaseNodes(inputs, cases);
        TrueOfTree(p, env);
        FoldRightOr(nodes, env);
        forall c | 0 <= c < |cases|
          ensures Eval(nodes[c], env)[0] <==> CaseHolds(inputs, cases[c], actual)
        {
          CaseNodeHolds(inputs, cases[c], actual);
        }
        assert True(p, env) <==> exists c :: 0 <= c < |cases| && CaseHolds(inputs, cases[c], actual);
        NotTrue(p, env);
      }
  }

  predicate AllFoldable(terms: seq<Term>) { forall i :: 0 <= i < |terms| ==> Foldable(terms[i]) }

  /** The left fold over the distinct terms in some order. */
  function FoldTerms(terms: seq<Term>): (p: Program)
    requires |terms| > 0 && AllFoldable(terms)
    ensures Single(p)
  {
    var last := |terms| - 1;
    FoldTermSingle(terms[last]);
    if last == 0 then FoldTerm(terms[0])
    else
      var acc, next := FoldTerms(terms[..last]), FoldTerm(terms[last]);
      CombineTree(And, acc, next);
      Combine(And, acc, next)
  }

  lemma EvaluateAllLast(terms: seq<Term>, actual: seq<Value>)
    requires |terms| > 0
    ensures EvaluateAll(terms, actual)
       <==> EvaluateAll(terms[..|terms| - 1], actual) && Evaluate(terms[|terms| - 1], actual)
  {
  }

  lemma FoldTermsLast(terms: seq<Term>, env: Env)
    requires |terms| > 1 && AllFoldable(terms)
    ensures Single(FoldTerm(terms[|terms| - 1]))
    ensures True(FoldTerms(terms), env)
       <==> True(FoldTerms(terms[..|terms| - 1]), env) && True(FoldTerm(terms[|terms| - 1]), env)
  {
    hide FoldTerm, BuildFrom, RunFrom;
    var last := |terms| - 1;
    FoldTermSingle(terms[last]);
    CombineTrue(And, FoldTerms(terms[..last]), FoldTerm(terms[last]), env);
  }

  lemma {:induction false} FoldTermsCorrect(terms: seq<Term>, actual: seq<Value>)
    requires |terms| > 0 && ValidTerms(terms, actual)
    ensures AllFoldable(terms)
    ensures True(FoldTerms(terms), Inputs(actual)) <==> EvaluateAll(terms, actual)
    decreases |terms|
  {
    hide True, FoldTerm, Evaluate, ValidTerm, Foldable;
    forall i | 0 <= i < |terms| ensures Foldable(terms[i]) {
      FoldTermCorrect(terms[i], actual);
    }
    var last := |terms| - 1;
    EvaluateAllLast(terms, actual);
    FoldTermCorrect(terms[last], actual);
    if last > 0 {
      FoldTermsCorrect(terms[..last], actual);
      FoldTermsLast(terms, Inputs(actual));
    }
  }

  /** `items` lists the distinct terms of `terms` in some order, as iterating over a hash set does. */
  ghost predicate Enumerates(items: seq<Term>, terms: seq<Term>)
  {
    (forall t :: t in items <==> t in terms) && forall i, j :: 0 <= i < j < |items| ==> items[i] != items[j]
  }

  /** The fold of a conjunction whose distinct terms are visited in the order `items`. */
  function FoldConjunction(items: seq<Term>): (p: Program)
    requires AllFoldable(items)
    ensures Single(p)
  {
    AlwaysTree(true, Inputs([]));
    if |items| == 0 then Always(true) else FoldTerms(items)
  }

  /** In whatever order the distinct terms are visited, the folded conjunction holds exactly when
      every term evaluates to true. */
  lemma FoldConjunctionCorrect(c: Conjunction, items: seq<Term>, actual: seq<Value>)
    requires ValidTerms(c.terms, actual) && Enumerates(items, c.terms)
    ensures AllFoldable(items)
    ensures True(FoldConjunction(items), Inputs(actual)) <==> EvaluateAll(c.terms, actual)
  {
    forall i | 0 <= i < |items| ensures ValidTerm(items[i], actual) {
      assert items[i] in c.terms;
    }
    assert EvaluateAll(items, actual) <==> EvaluateAll(c.terms, actual) by {
      forall i | 0 <= i < |items| ensures items[i] in c.terms { assert items[i] in items; }
      forall i | 0 <= i < |c.terms| ensures c.terms[i] in items { assert c.terms[i] in c.terms; }
    }
    AlwaysTree(true, Inputs(actual));
    if |items| > 0 {
      FoldTermsCorrect(items, actual);
    }
  }

  predicate AllConjunctionsFoldable(orders: seq<seq<Term>>) { forall i :: 0 <= i < |orders| ==> AllFoldable(orders[i]) }

  function FoldDisjunction(orders: seq<seq<Term>>): (p: Program)
    requires AllConjunctionsFoldable(orders)
    ensures Single(p)
  {
    AlwaysTree(false, Inputs([]));
    if |orders| == 0 then Always(false)
    else if |orders| == 1 then FoldConjunction(orders[0])
    else
      var last := |orders| - 1;
      var acc, next := FoldDisjunction(orders[..last]), FoldConjunction(orders[last]);
      CombineTree(Or, acc, next);
      Combine(Or, acc, next)
  }

  lemma FoldDisjunctionLast(orders: seq<seq<Term>>, env: Env)
    requires |orders| > 1 && AllConjunctionsFoldable(orders)
    ensures True(FoldDisjunction(orders), env)
       <==> True(FoldDisjunction(orders[..|orders| - 1]), env) || True(FoldConjunction(orders[|orders| - 1]), env)
  {
    var last := |orders| - 1;
    CombineTrue(Or, FoldDisjunction(orders[..last]), FoldConjunction(orders[last]), env);
  }

  /** Each list enumerates the distinct terms of its conjunction, which fit the inputs. */
  ghost predicate AllEnumerated(cs: seq<Conjunction>, orders: seq<seq<Term>>, actual: seq<Value>)
  {
    |orders| == |cs| && forall i :: 0 <= i < |cs| ==>
      ValidTerms(cs[i].terms, actual) && Enumerates(orders[i], cs[i].terms)
  }

  /** Folding a disjunction of conjunctions, in any enumeration order of each conjunction's
      distinct terms, yields a program that runs to a single value whose output bit is set
      exactly when the formula evaluates to true. */
  lemma {:induction false} FoldDisjunctionCorrect(cs: seq<Conjunction>, orders: seq<seq<Term>>, actual: seq<Value>)
    requires AllEnumerated(cs, orders, actual)
    ensures AllConjunctionsFoldable(orders)
    ensures True(FoldDisjunction(orders), Inputs(actual)) <==> EvaluateAny(cs, actual)
    decreases |cs|
  {
    hide True, FoldConjunction, Enumerates, ValidTerms;
    OrdersFoldable(cs, orders, actual);
    var last := |cs| - 1;
    if |cs| == 0 {
      AlwaysTree(false, Inputs(actual));
    } else {
      FoldConjunctionCorrect(cs[last], orders[last], actual);
      EvaluateAnyLast(cs, actual);
      if last > 0 {
        EnumeratedPrefix(cs, orders, actual, last);
        FoldDisjunctionCorrect(cs[..last], orders[..last], actual);
        FoldDisjunctionLast(orders, Inputs(actual));
      } else {
        FoldDisjunctionOne(orders);
      }
    }
  }

  lemma EnumeratedPrefix(cs: seq<Conjunction>, orders: seq<seq<Term>>, actual: seq<Value>, n: nat)
    requires AllEnumerated(cs, orders, actual) && n <= |cs|
    ensures AllEnumerated(cs[..n], orders[..n], actual)
  {
  }

  lemma FoldDisjunctionOne(orders: seq<seq<Term>>)
    requires |orders| == 1 && AllConjunctionsFoldable(orders)
    ensures FoldDisjunction(orders) == FoldConjunction(orders[0])
  {
  }

  lemma OrdersFoldable(cs: seq<Conjunction>, orders: seq<seq<Term>>, actual: seq<Value>)
    requires AllEnumerated(cs, orders, actual)
    ensures AllConjunctionsFoldable(orders)
  {
    forall i | 0 <= i < |orders| ensures AllFoldable(orders[i]) {
      FoldConjunctionCorrect(cs[i], orders[i], actual);
    }
  }

  lemma EvaluateAnyLast(cs: seq<Conjunction>, actual: seq<Value>)
    requires |cs| > 0
    ensures EvaluateAny(cs, actual) <==> EvaluateAny(cs[..|cs| - 1], actual) || EvaluateAll(cs[|cs| - 1].terms, actual)
  {
    var last := |cs| - 1;
    EvaluateAnyOne(cs[last], actual);
    assert cs[..last] + [cs[last]] == cs;
    EvaluateAnyAppend(cs[..last], [cs[last]], actual);
  }

  // ------------------------------------------------- negation and conjunction

  function Negate(t: Term): Term { t.(negate := !t.negate) }

  lemma NegateComplements(t: Term, actual: seq<Value>)
    ensures Evaluate(Negate(t), actual) <==> !Evaluate(t, actual)
  {
  }

  /** `Conjunction::negate`: one single-term conjunction per term. */
  function NegateConjunction(c: Conjunction): (d: seq<Conjunction>)
    ensures |d| == |c.terms|
    ensures forall i :: 0 <= i < |d| ==> d[i] == Conjunction([Negate(c.terms[i])])
  {
    seq(|c.terms|, i requires 0 <= i < |c.terms| => Conjunction([Negate(c.terms[i])]))
  }

  lemma NegateConjunctionComplements(c: Conjunction, actual: seq<Value>)
    ensures EvaluateAny(NegateConjunction(c), actual) <==> !EvaluateAll(c.terms, actual)
  {
    var d := NegateConjunction(c);
    forall i | 0 <= i < |d| ensures EvaluateAll(d[i].terms, actual) <==> !Evaluate(c.terms[i], actual) {
      NegateComplements(c.terms[i], actual);
      assert d[i].terms[0] == Negate(c.terms[i]);
    }
  }

  /** Every pairing of a conjunction of `cs` with one of `ds`, in order. */
  function Pairings(cs: seq<Conjunction>, ds: seq<Conjunction>): seq<Conjunction>
  {
    if |cs| == 0 then [] else Pairings(cs[..|cs| - 1], ds) + Joined(cs[|cs| - 1], ds)
  }

  function Joined(c: Conjunction, ds: seq<Conjunction>): seq<Conjunction>
  {
    if |ds| == 0 then [] else Joined(c, ds[..|ds| - 1]) + [Conjunction(c.terms + ds[|ds| - 1].terms)]
  }

  class Disjunction {
    var conjunctions: seq<Conjunction>

    constructor (cs: seq<Conjunction>)
      ensures conjunctions == cs
    {
      conjunctions := cs;
    }

    ghost predicate Holds(actual: seq<Value>)
      reads this
    {
      EvaluateAny(conjunctions, actual)
    }

    method PushJoined(c: Conjunction, ds: seq<Conjunction>)
      modifies this
      ensures conjunctions == old(conjunctions) + Joined(c, ds)
    {
      for j := 0 to |ds|
        invariant conjunctions == old(conjunctions) + Joined(c, ds[..j])
      {
        assert ds[..j + 1][..j] == ds[..j];
        conjunctions := conjunctions + [Conjunction(c.terms + ds[j].terms)];
      }
      assert ds[..|ds|] == ds;
    }

    /** Distributes the other disjunction over this one, in place. */
    method AndAlso(ds: seq<Conjunction>)
      modifies this
      ensures conjunctions == Pairings(old(conjunctions), ds)
      ensures forall actual :: Holds(actual) <==> old(Holds(actual)) && EvaluateAny(ds, actual)
    {
      var previous := conjunctions;
      conjunctions := [];
      for i := 0 to |previous|
        invariant conjunctions == Pairings(previous[..i], ds)
      {
        assert previous[..i + 1][..i] == previous[..i];
        PushJoined(previous[i], ds);
      }
      assert previous[..|previous|] == previous;
      PairingsAlwaysCorrect(previous, ds);
    }
  }

  lemma PairingsAlwaysCorrect(cs: seq<Conjunction>, ds: seq<Conjunction>)
    ensures forall actual :: EvaluateAny(Pairings(cs, ds), actual) <==>
              EvaluateAny(cs, actual) && EvaluateAny(ds, actual)
  {
    forall actual
      ensures EvaluateAny(Pairings(cs, ds), actual) <==> EvaluateAny(cs, actual) && EvaluateAny(ds, actual)
    {
      PairingsCorrect(cs, ds, actual);
    }
  }

  lemma EvaluateAllAppend(a: seq<Term>, b: seq<Term>, actual: seq<Value>)
    ensures EvaluateAll(a + b, actual) <==> EvaluateAll(a, actual) && EvaluateAll(b, actual)
  {
    if EvaluateAll(a + b, actual) {
      forall i | 0 <= i < |a| ensures Evaluate(a[i], actual) { assert a[i] == (a + b)[i]; }
      forall i | 0 <= i < |b| ensures Evaluate(b[i], actual) { assert b[i] == (a + b)[|a| + i]; }
    }
  }

  lemma EvaluateAnyAppend(cs: seq<Conjunction>, ds: seq<Conjunction>, actual: seq<Value>)
    ensures EvaluateAny(cs + ds, actual) <==> EvaluateAny(cs, actual) || EvaluateAny(ds, actual)
  {
    if i :| 0 <= i < |cs| && EvaluateAll(cs[i].terms, actual) {
      assert (cs + ds)[i] == cs[i];
    }
    if i :| 0 <= i < |ds| && EvaluateAll(ds[i].terms, actual) {
      assert (cs + ds)[|cs| + i] == ds[i];
    }
  }

  lemma EvaluateAnyOne(c: Conjunction, actual: seq<Value>)
    ensures EvaluateAny([c], actual) <==> EvaluateAll(c.terms, actual)
  {
    assert [c][0] == c;
  }

  lemma {:induction false} JoinedCorrect(c: Conjunction, ds: seq<Conjunction>, actual: seq<Value>)
    ensures EvaluateAny(Joined(c, ds), actual) <==> EvaluateAll(c.terms, actual) && EvaluateAny(ds, actual)
    decreases |ds|
  {
    if |ds| > 0 {
      var front, d := ds[..|ds| - 1], ds[|ds| - 1];
      JoinedCorrect(c, front, actual);
      EvaluateAllAppend(c.terms, d.terms, actual);
      var joined := Conjunction(c.terms + d.terms);
      EvaluateAnyOne(joined, actual);
      EvaluateAnyAppend(Joined(c, front), [joined], actual);
      EvaluateAnyOne(d, actual);
      EvaluateAnyAppend(front, [d], actual);
      assert front + [d] == ds;
    }
  }

  lemma {:induction false} PairingsCorrect(cs: seq<Conjunction>, ds: seq<Conjunction>, actual: seq<Value>)
    ensures EvaluateAny(Pairings(cs, ds), actual) <==> EvaluateAny(cs, actual) && EvaluateAny(ds, actual)
    decreases |cs|
  {
    if |cs| > 0 {
      var front, c := cs[..|cs| - 1], cs[|cs| - 1];
      PairingsCorrect(front, ds, actual);
      JoinedCorrect(c, ds, actual);
      EvaluateAnyAppend(Pairings(front, ds), Joined(c, ds), actual);
      EvaluateAnyOne(c, actual);
      EvaluateAnyAppend(front, [c], actual);
      assert front + [c] == cs;
    }
  }

  // --------------------------------------------------------- renumbering inputs

  /** Every input that a term mentions is kept by the renumbering. */
  predicate Keeps(t: Term, renumber: seq<Option<nat>>)
  {
    match t
    case Predicate(_, p) =>
      forall k :: 0 <= k < |p.args| && p.args[k].Input? ==>
        p.args[k].index < |renumber| && renumber[p.args[k].index].Some?
    case CaseMatch(_, inputs, _) =>
      forall k :: 0 <= k < |inputs| ==> inputs[k].0 < |renumber| && renumber[inputs[k].0].Some?
  }

  function RemapArgs(args: seq<ArgSpec>, renumber: seq<Option<nat>>): (r: seq<ArgSpec>)
    requires forall k :: 0 <= k < |args| && args[k].Input? ==>
               args[k].index < |renumber| && renumber[args[k].index].Some?
    ensures |r| == |args|
    ensures forall k :: 0 <= k < |args| ==>
              r[k] == if args[k].Input? then args[k].(index := renumber[args[k].index].value) else args[k]
  {
    seq(|args|, k requires 0 <= k < |args| =>
      if args[k].Input? then args[k].(index := renumber[args[k].index].value) else args[k])
  }

  function Remap(t: Term, renumber: seq<Option<nat>>): Term
    requires Keeps(t, renumber)
  {
    match t
    case Predicate(_, p) => t.(program := p.(args := RemapArgs(p.args, renumber)))
    case CaseMatch(_, inputs, _) =>
      t.(inputs := seq(|inputs|, k requires 0 <= k < |inputs| => (renumber[inputs[k].0].value, inputs[k].1)))
  }

  /** `after` holds every kept input at its new place. */
  predicate Moved(renumber: seq<Option<nat>>, before: seq<Value>, after: seq<Value>)
  {
    && |renumber| == |before|
    && forall i :: 0 <= i < |renumber| && renumber[i].Some? ==>
         renumber[i].value < |after| && after[renumber[i].value] == before[i]
  }

  lemma {:induction false} RemapRun(ops: seq<Op>, p: Program, q: Program, e: Env, f: Env, m: Machine)
    requires forall n: nat :: Interpret(p, n, e) == Interpret(q, n, f)
    ensures RunFrom(ops, p, e, m) == RunFrom(ops, q, f, m)
    decreases |ops|
  {
    if |ops| > 0 {
      var next := Step(ops[0], p, e, m);
      assert next == Step(ops[0], q, f, m);
      if next.Some? {
        RemapRun(ops[1..], p, q, e, f, next.value);
      }
    }
  }

  /** Renumbering a term and its inputs together does not change its value. */
  lemma RemapPreserves(t: Term, renumber: seq<Option<nat>>, before: seq<Value>, after: seq<Value>)
    requires Keeps(t, renumber) && Moved(renumber, before, after)
    ensures Evaluate(Remap(t, renumber), after) <==> Evaluate(t, before)
  {
    match t
    case Predicate(_, p) =>
      var q, e, f := Remap(t, renumber).program, Inputs(before), Inputs(after);
      forall n: nat ensures Interpret(p, n, e) == Interpret(q, n, f) {
        if n < |p.args| && p.args[n].Input? {
          assert f(renumber[p.args[n].index].value) == e(p.args[n].index);
        }
      }
      RemapRun(p.ops, p, q, e, f, Machine([], Zero()));
    case CaseMatch(_, inputs, cases) =>
      var inputs' := Remap(t, renumber).inputs;
      forall c | 0 <= c < |cases| ensures CaseHolds(inputs', cases[c], after) <==> CaseHolds(inputs, cases[c], before) {
        assert forall k :: 0 <= k < |inputs| ==> after[inputs'[k].0] == before[inputs[k].0];
      }
  }
}
