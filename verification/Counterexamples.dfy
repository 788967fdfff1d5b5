/** Concrete trees on which one call of `reduce` changes a demanded bit. */
module Counterexamples {
  import opened Words
  import opened Options
  import opened WordArithmetic
  import opened BitFields
  import opened Expressions
  import opened Demand
  import opened Rewrites
  import opened RewriteSoundness
  import opened Normalizer

  /** The reduction of `t` under `m` gives a different demanded bit on the inputs `env`. */
  ghost predicate Broken(t: Node, m: Word, env: Env)
  {
    !Same(m, Eval(Reduced(t, m), env), Eval(t, env))
  }

  function Eight(): nat -> nat { (_: nat) => 8 }

  function AllInputs(v: Word): (e: Env)
    ensures forall i: nat :: e(i) == v
  {
    (_: nat) => v
  }

  /** Small trees are not replaced by lookup tables. */
  lemma SmallTree(t: Node, m: Word)
    requires m != Zero() && !t.Const? && !t.Arg?
    requires NumNodes(ReducedArgs(t, m)) <= 7
    ensures Reduced(t, m) == Rewrite(ReducedArgs(t, m), m)
  {
  }

  /** A small node whose operands are left alone is reduced by its own rule. */
  lemma ReducedBinary(op: Binary, a: Node, b: Node, m: Word, left: Word, right: Word)
    requires m != Zero() && left == LeftMask(op, b, m) && right == RightMask(op, m)
    requires Reduced(a, left) == a && Reduced(b, right) == b
    requires NumNodes(a) + NumNodes(b) <= 6
    ensures Reduced(Bin(op, a, b), m) == Rewrite(Bin(op, a, b), m)
  {
    assert ReducedArgs(Bin(op, a, b), m) == Bin(op, a, b);
    SmallTree(Bin(op, a, b), m);
  }

  /** A small node is reduced by its own rule, applied to its reduced operands. */
  lemma ReducedOperands(op: Binary, a: Node, b: Node, a': Node, b': Node, m: Word, left: Word, right: Word)
    requires m != Zero() && left == LeftMask(op, b, m) && right == RightMask(op, m)
    requires Reduced(a, left) == a' && Reduced(b, right) == b' && NumNodes(a') + NumNodes(b') <= 6
    ensures Reduced(Bin(op, a, b), m) == Rewrite(Bin(op, a', b'), m)
  {
    assert ReducedArgs(Bin(op, a, b), m) == Bin(op, a', b');
    SmallTree(Bin(op, a, b), m);
  }

  lemma ReducedUnary(op: Unary, a: Node, a': Node, m: Word, mask: Word)
    requires m != Zero() && mask == UnaryMask(op, m) && Reduced(a, mask) == a' && NumNodes(a') <= 6
    ensures Reduced(Un(op, a), m) == Rewrite(Un(op, a'), m)
  {
    assert ReducedArgs(Un(op, a), m) == Un(op, a');
    SmallTree(Un(op, a), m);
  }

  /** `0xff | a` with sixteen demanded bits becomes all ones. */
  lemma OrBroken()
    ensures var t := Bin(Or, Const(Low(8)), Arg(0, 8, false));
            Valid(t, Eight()) && InRange(AllInputs(Zero()), Eight()) && Broken(t, Low(16), AllInputs(Zero()))
  {
    hide Reduced, ReducedArgs;
    var a := Node.Arg(0, 8, false);
    var t, m, env := Bin(Or, Const(Low(8)), a), Low(16), AllInputs(Zero());
    assert m[0] && !Zero()[0];
    ReducedConst(Low(8), m);
    ReducedArg(a, m);
    assert NumNodes(a) == 1 && NumNodes(Const(Low(8))) == 1;
    ReducedBinary(Or, Const(Low(8)), a, m, m, m);
    SaturatedExample(a);
    assert Reduced(t, m) == Const(Ones());
    assert Eval(a, env) == Zero();
    assert m[8] && Ones()[8] && !WOr(Low(8), Zero())[8];
  }

  lemma SaturatedExample(a: Node)
    requires a == Arg(0, 8, false)
    ensures RewriteOr(Const(Low(8)), a) == Const(Ones())
  {
    LengthOf(Low(8), 8);
    assert CombinedMask(Const(Low(8)), a) == Low(8);
    assert WAnd(Low(8), Low(8)) == Low(8);
    assert Low(8)[0] && !Zero()[0];
  }

  /** `1 - (a + 2)` becomes `a + (2 - 1)`. */
  lemma SubBroken()
    ensures var t := Bin(Sub, Const(One()), Bin(Add, Arg(0, 8, false), Const(OneHot(1))));
            Valid(t, Eight()) && InRange(AllInputs(Zero()), Eight()) && Broken(t, Low(8), AllInputs(Zero()))
  {
    hide Reduced, ReducedArgs;
    var a, two := Node.Arg(0, 8, false), OneHot(1);
    var sum := Bin(Add, a, Const(two));
    var t, m, env := Bin(Sub, Const(One()), sum), Low(8), AllInputs(Zero());
    assert Valid(sum, Eight()) && Valid(t, Eight());
    ReducedSum(a, two);
    TwoIsTwo();
    assert m[1];
    DifferenceBroken(a, One(), two, m, env);
  }

  /** Two constants one apart, in either order, show the negation in bit 1. */
  lemma DifferenceBroken(a: Node, c: Word, d: Word, m: Word, env: Env)
    requires a.Arg? && Eval(a, env) == Zero() && d == WAdd(c, One()) && m[1]
    requires Reduced(Bin(Add, a, Const(d)), Ones()) == Bin(Add, a, Const(d))
    ensures Broken(Bin(Sub, Const(c), Bin(Add, a, Const(d))), m, env)
  {
    hide Reduced, ReducedArgs;
    var sum := Bin(Add, a, Const(d));
    assert NumNodes(a) == 1 && NumNodes(Const(d)) == 1;
    ReducedDifference(c, sum, m);
    SubValues(a, c, d, env);
    OneMinus(c);
    assert !One()[1] && Ones()[1];
  }

  /** With a zero input, the difference and its rewritten form are each other's negation. */
  lemma SubValues(a: Node, c: Word, d: Word, env: Env)
    requires Eval(a, env) == Zero()
    ensures Eval(Bin(Sub, Const(c), Bin(Add, a, Const(d))), env) == WSub(c, d)
    ensures Eval(Bin(Add, a, Const(WSub(d, c))), env) == WSub(d, c)
  {
    SumValue(a, d, env);
    SumValue(a, WSub(d, c), env);
    assert Eval(Const(c), env) == c;
  }

  lemma SumValue(a: Node, d: Word, env: Env)
    requires Eval(a, env) == Zero()
    ensures Eval(Bin(Add, a, Const(d)), env) == d
  {
    AddZero(d);
    assert Eval(Const(d), env) == d;
  }

  lemma TwoIsTwo()
    ensures WAdd(One(), One()) == OneHot(1)
  {
    ToNatOneHot(0);
    ToNatOneHot(1);
    OfIntToNat(OneHot(1));
    assert Pow2(0) == 1 && Pow2(1) == 2;
  }

  lemma ReducedConst(c: Word, m: Word)
    requires Under(c, m) && m != Zero()
    ensures Reduced(Const(c), m) == Const(c)
  {
    assert WAnd(c, m) == c;
  }

  lemma ReducedMasked(c: Word, m: Word)
    requires m != Zero()
    ensures Reduced(Const(c), m) == Const(WAnd(c, m))
  {
  }

  lemma ReducedArg(a: Node, m: Word)
    requires a.Arg? && m != Zero()
    ensures Reduced(a, m) == a
  {
  }

  /** A sum of an input and an even constant is left alone. */
  lemma ReducedSum(a: Node, two: Word)
    requires a == Arg(0, 8, false) && two == OneHot(1)
    ensures Reduced(Bin(Add, a, Const(two)), Ones()) == Bin(Add, a, Const(two))
  {
    hide Reduced, ReducedArgs;
    var m := Ones();
    assert m[0] && m[1];
    LengthOf(m, 128);
    assert Low(128) == Ones();
    ReducedConst(two, m);
    ReducedArg(a, m);
    assert NumNodes(a) == 1 && NumNodes(Const(two)) == 1;
    ReducedBinary(Add, a, Const(two), m, m, m);
    SumRule(a, two, m);
  }

  lemma SumRule(a: Node, two: Word, m: Word)
    requires a == Arg(0, 8, false) && two == OneHot(1) && Length(m) == 128
    ensures RewriteAdd(a, Const(two), m) == Bin(Add, a, Const(two))
  {
    assert two[1] && !two[127] && !Zero()[1] && !One()[1];
  }

  lemma ReducedDifference(c: Word, sum: Node, m: Word)
    requires HasConst(sum) && Reduced(sum, Ones()) == sum && NumNodes(sum) <= 5 && m != Zero()
    ensures Reduced(Bin(Sub, Const(c), sum), m) == SubFromSum(sum, c)
  {
    hide Reduced, ReducedArgs;
    assert Ones()[0] && !Zero()[0];
    ReducedConst(c, Ones());
    assert NumNodes(Const(c)) == 1;
    ReducedBinary(Sub, Const(c), sum, m, Ones(), Ones());
    RewrittenDifference(c, sum, m);
  }

  lemma RewrittenDifference(c: Word, sum: Node, m: Word)
    requires HasConst(sum)
    ensures Rewrite(Bin(Sub, Const(c), sum), m) == SubFromSum(sum, c)
  {
    assert sum.Bin?;
  }

  /** The field `[1 .. 9)` of `a << 2` becomes the field `[0 .. 8)` of it. */
  lemma ConstShiftBroken()
    ensures var t := Un(Select(1, 8), Bin(Shl, Arg(0, 8, false), Const(OneHot(1))));
            Valid(t, Eight()) && InRange(AllInputs(One()), Eight()) && Broken(t, Low(8), AllInputs(One()))
  {
    hide Reduced, ReducedArgs;
    var a, two := Node.Arg(0, 8, false), OneHot(1);
    var shift := Bin(Shl, a, Const(two));
    var m, env := Low(8), AllInputs(One());
    var t := Un(Select(1, 8), shift);
    assert Valid(shift, Eight()) && Valid(t, Eight());
    ReducedField(a, two, 1, 8, m);
    FieldValues(a, two, 1, 8, env);
    assert m[1];
  }

  lemma FieldValues(a: Node, two: Word, skip: nat, take: nat, env: Env)
    requires a == Arg(0, 8, false) && two == OneHot(1) && env(0) == One() && skip == 1 && 2 <= take <= 127
    ensures Eval(Un(Select(skip, take), Bin(Shl, a, Const(two))), env)[1]
    ensures !Eval(Un(Select(0, take), Bin(Shl, a, Const(two))), env)[1]
  {
    var shift := Bin(Shl, a, Const(two));
    TwoAmount(two);
    assert Eval(a, env) == One();
    assert Eval(Const(two), env) == two && Eval(shift, env) == WShl(One(), 2);
    assert WSelect(WShl(One(), 2), skip, take)[1] && !WSelect(WShl(One(), 2), 0, take)[1];
  }

  lemma TwoAmount(two: Word)
    requires two == OneHot(1)
    ensures ToInt(two) == 2 && Amount(two) == 2
  {
    ToNatOneHot(1);
    SignOfInt(two);
    assert Pow2(1) == 2;
    AmountOfSmall(two);
  }

  lemma ReducedField(a: Node, two: Word, skip: nat, take: nat, m: Word)
    requires a == Arg(0, 8, false) && two == OneHot(1) && skip == 1 && take == 8 && m == Low(8)
    ensures Reduced(Un(Select(skip, take), Bin(Shl, a, Const(two))), m) == Un(Select(0, take), Bin(Shl, a, Const(two)))
  {
    hide Reduced, ReducedArgs;
    var shift := Bin(Shl, a, Const(two));
    var mask := UnaryMask(Select(skip, take), m);
    assert m[0] && mask[1] && !Zero()[0];
    TwoAmount(two);
    ReducedShift(a, two, mask);
    assert NumNodes(a) == 1 && NumNodes(Const(two)) == 1 && NumNodes(shift) == 3;
    ReducedUnary(Select(skip, take), shift, shift, m, mask);
    assert ReadsConstShift(shift);
    assert RewriteSelect(skip, take, shift) == RewriteConstShift(skip, take, a, two);
  }

  lemma ReducedShift(a: Node, two: Word, mask: Word)
    requires a == Arg(0, 8, false) && two == OneHot(1) && mask[1]
    ensures Reduced(Bin(Shl, a, Const(two)), mask) == Bin(Shl, a, Const(two))
  {
    hide Reduced, ReducedArgs;
    var left := LeftMask(Shl, Const(two), mask);
    ShiftMaskKeeps(mask, Min(NumBits(Const(two)), 7), 1);
    assert left[1] && !Zero()[1] && Low(7)[0] && !Zero()[0];
    ReducedShiftUnder(a, two, mask, left);
  }

  lemma ReducedShiftUnder(a: Node, two: Word, mask: Word, left: Word)
    requires a == Arg(0, 8, false) && two == OneHot(1) && mask != Zero() && left != Zero() && Low(7) != Zero()
    requires left == LeftMask(Shl, Const(two), mask)
    ensures Reduced(Bin(Shl, a, Const(two)), mask) == Bin(Shl, a, Const(two))
  {
    hide Reduced, ReducedArgs;
    ReducedArg(a, left);
    ReducedConst(two, Low(7));
    assert NumNodes(a) == 1 && NumNodes(Const(two)) == 1;
    ReducedBinary(Shl, a, Const(two), mask, left, Low(7));
    ShlRule(a, two);
  }

  lemma ShlRule(a: Node, two: Word)
    requires two == OneHot(1)
    ensures RewriteShl(a, Const(two)) == Bin(Shl, a, Const(two))
  {
    assert two[1] && !Zero()[1];
  }

  /** A demanded bit of a shift is demanded of its operand: the distance may be zero. */
  lemma ShiftMaskKeeps(m: Word, k: nat, j: nat)
    requires j < 128 && m[j]
    ensures ShiftMask(true, m, k)[j]
  {
    assert m[j] && j - j < Pow2(k);
  }

  /** Bit 64 of a sign extension from eight bits becomes zero. */
  lemma SignExtendBroken()
    ensures var t := Un(Select(64, 1), Un(SignExtend(8), Arg(0, 8, false)));
            Valid(t, Eight()) && InRange(AllInputs(OneHot(7)), Eight()) && Broken(t, One(), AllInputs(OneHot(7)))
  {
    hide Reduced, ReducedArgs;
    var a := Node.Arg(0, 8, false);
    var env := AllInputs(OneHot(7));
    var ext := Un(SignExtend(8), a);
    var t := Un(Select(64, 1), ext);
    assert Valid(ext, Eight()) && Valid(t, Eight());
    ReducedSignBit(a, 8, 64);
    SignBitValue(a, env);
    assert Eval(Const(Zero()), env) == Zero() && One()[0] && !Zero()[0];
  }

  lemma SignBitValue(a: Node, env: Env)
    requires Eval(a, env) == OneHot(7)
    ensures Eval(Un(Select(64, 1), Un(SignExtend(8), a)), env)[0]
  {
    assert WSignExtend(OneHot(7), 8)[64];
  }

  /** Any single bit above the field of a sign extension is reduced to zero. */
  lemma ReducedSignBit(a: Node, n: nat, k: nat)
    requires 1 <= n <= k < 128
    ensures Reduced(Un(Select(k, 1), Un(SignExtend(n), a)), One()) == Const(Zero())
  {
    hide Reduced, ReducedArgs;
    var mask := UnaryMask(Select(k, 1), One());
    assert One()[0] && mask[k] && !Zero()[k] && !Zero()[0];
    assert UnaryMask(SignExtend(n), mask) == Zero();
    ReducedExtension(a, n, mask);
    ReducedEmptyField(Un(SignExtend(n), a), k, mask);
  }

  lemma ReducedExtension(a: Node, n: nat, mask: Word)
    requires n > 0 && mask != Zero() && UnaryMask(SignExtend(n), mask) == Zero()
    ensures Reduced(Un(SignExtend(n), a), mask) == Const(Zero())
  {
    hide Reduced, ReducedArgs;
    var zero := Const(Zero());
    ReducedNothing(a);
    assert NumNodes(zero) == 1;
    ReducedUnary(SignExtend(n), a, zero, mask, Zero());
    ExtensionRule(n);
  }

  lemma ReducedNothing(a: Node)
    ensures Reduced(a, Zero()) == Const(Zero())
  {
  }

  lemma ExtensionRule(n: nat)
    requires n > 0
    ensures RewriteSignExtend(n, Const(Zero())) == Const(Zero())
  {
    LengthOf(Zero(), 0);
    assert NumBits(Const(Zero())) == 0;
  }

  lemma ReducedEmptyField(x: Node, k: nat, mask: Word)
    requires 0 < k && One() != Zero() && mask == UnaryMask(Select(k, 1), One()) && Reduced(x, mask) == Const(Zero())
    ensures Reduced(Un(Select(k, 1), x), One()) == Const(Zero())
  {
    hide Reduced, ReducedArgs;
    LengthOf(Zero(), 0);
    assert NumBits(Const(Zero())) == 0 && NumNodes(Const(Zero())) == 1;
    ReducedUnary(Select(k, 1), x, Const(Zero()), One(), mask);
    assert RewriteSelect(k, 1, Const(Zero())) == Const(Zero());
  }

  /** `!a / 2` with all bits demanded becomes an arithmetic shift. */
  lemma UnsignedDivBroken()
    ensures var t := Bin(UnsignedDiv, Un(Not, Arg(0, 8, false)), Const(OneHot(1)));
            Valid(t, Eight()) && InRange(AllInputs(Zero()), Eight()) && Broken(t, Ones(), AllInputs(Zero()))
  {
    hide Reduced, ReducedArgs;
    var a, two := Node.Arg(0, 8, false), OneHot(1);
    var not, env := Un(Not, a), AllInputs(Zero());
    var t := Bin(UnsignedDiv, not, Const(two));
    assert Valid(not, Eight()) && Valid(t, Eight());
    TwoTrailing(two);
    ReducedQuotient(a, two, 1);
    assert Eval(not, env) == WNot(Zero());
    QuotientValues(not, two, 1, env);
    assert WNot(Zero())[127] && Ones()[127];
  }

  lemma QuotientValues(x: Node, c: Word, n: nat, env: Env)
    requires 0 < n < 127 && c == OneHot(n) && Eval(x, env)[127]
    ensures !Eval(Bin(UnsignedDiv, x, Const(c)), env)[127]
    ensures Eval(Bin(Shr, x, Const(OfInt(n))), env)[127]
  {
    ShiftByConst(n);
    assert Eval(Const(OfInt(n)), env) == OfInt(n) && Eval(Const(c), env) == c;
    UnsignedDivOneHot(Eval(x, env), n, 127);
  }

  lemma ReducedQuotient(a: Node, c: Word, n: nat)
    requires a.Arg? && 0 < n < 127 && c == OneHot(n) && TrailingZeros(c) == n
    ensures Reduced(Bin(UnsignedDiv, Un(Not, a), Const(c)), Ones()) == Bin(Shr, Un(Not, a), Const(OfInt(n)))
  {
    hide Reduced, ReducedArgs;
    var not := Un(Not, a);
    assert Ones()[0] && !Zero()[0];
    ReducedNot(a, Ones());
    assert NumNodes(a) == 1 && NumNodes(not) == 2;
    QuotientReduces(not, c, Ones());
    QuotientRule(not, c, n);
  }

  lemma QuotientReduces(x: Node, c: Word, m: Word)
    requires Reduced(x, m) == x && NumNodes(x) == 2 && m == Ones() && m != Zero()
    ensures Reduced(Bin(UnsignedDiv, x, Const(c)), m) == RewriteUnsignedDiv(x, Const(c))
  {
    hide Reduced, ReducedArgs;
    ReducedConst(c, m);
    assert NumNodes(Const(c)) == 1;
    ReducedBinary(UnsignedDiv, x, Const(c), m, m, m);
  }

  lemma ReducedNot(a: Node, m: Word)
    requires a.Arg? && m != Zero()
    ensures Reduced(Un(Not, a), m) == Un(Not, a)
  {
    hide Reduced, ReducedArgs;
    ReducedArg(a, m);
    assert NumNodes(a) == 1;
    ReducedUnary(Not, a, a, m, m);
    assert RewriteNot(a) == Un(Not, a);
  }

  lemma QuotientRule(x: Node, c: Word, n: nat)
    requires 0 < n < 127 && c == OneHot(n) && TrailingZeros(c) == n
    ensures RewriteUnsignedDiv(x, Const(c)) == Bin(Shr, x, Const(OfInt(n)))
  {
    assert !One()[n] && c[n];
  }

  lemma TwoTrailing(two: Word)
    requires two == OneHot(1)
    ensures TrailingZeros(two) == 1
  {
    var k := TrailingZeros(two);
    assert forall i :: 0 <= i < k ==> !two[i];
    assert two[1];
  }

  // ------------------------------------------------ extraction by a negative run

  /** Extracting under a selector of all ones becomes a field of 128 bits, which is read as empty. */
  lemma ExtractBroken()
    ensures var t := Bin(ExtractBits, Arg(0, 8, false), Const(Ones()));
            Valid(t, Eight()) && InRange(AllInputs(One()), Eight()) && Broken(t, One(), AllInputs(One()))
  {
    hide Reduced, ReducedArgs, RewriteExtractBits, WExtract, ExtractHazard;
    var a, env := Node.Arg(0, 8, false), AllInputs(One());
    var c := Const(Ones());
    ExtractReduces(a, c);
    AllOnesRun(a);
    NegativeRunIsZero(a, c, env);
    ExtractedOne(a, env);
  }

  lemma ExtractReduces(a: Node, c: Node)
    requires a == Arg(0, 8, false) && c == Const(Ones())
    ensures Reduced(Bin(ExtractBits, a, c), One()) == RewriteExtractBits(a, c)
  {
    hide Reduced, ReducedArgs, RewriteExtractBits;
    assert One()[0] && Ones()[0] && !Zero()[0];
    ReducedArg(a, Ones());
    ReducedConst(Ones(), Ones());
    assert NumNodes(a) == 1 && NumNodes(c) == 1;
    ReducedBinary(ExtractBits, a, c, One(), Ones(), Ones());
  }

  lemma ExtractedOne(a: Node, env: Env)
    requires Eval(a, env) == One()
    ensures Eval(Bin(ExtractBits, a, Const(Ones())), env)[0] && One()[0] && !Zero()[0]
  {
    hide WExtract;
    ExtractRun(One(), Ones(), 0, 128);
    assert Eval(Const(Ones()), env) == Ones();
    assert One()[0] && WSelect(One(), 0, 128)[0];
  }

  lemma AllOnesRun(a: Node)
    ensures ExtractHazard(a, Const(Ones()))
  {
    var c := Ones();
    assert c[0] && c[127] && !Zero()[0];
    assert TrailingZeros(c) == 0;
    assert WShr(c, 0) == c;
    assert TrailingOnes(c) == 128;
    assert WShl(Low(128), 0) == c;
  }

  // ------------------------------------------------- a table that is read past its end

  /** The field `[1 .. 2)` of `(1 << (a & 256)) >> a`, always zero, becomes a table read that is one
      at the distance 127. */
  lemma TableBroken()
    ensures var a := Node.Arg(0, 8, false);
            var t := Un(Select(1, 1), Bin(Shr, Bin(Shl, Const(One()), Bin(And, Const(OneHot(8)), a)), a));
            Valid(t, Eight()) && InRange(AllInputs(Low(7)), Eight()) && Broken(t, One(), AllInputs(Low(7)))
  {
    hide Reduced, ReducedArgs;
    var a, env := Node.Arg(0, 8, false), AllInputs(Low(7));
    var distance := Bin(And, Const(OneHot(8)), a);
    var value := Bin(Shl, Const(One()), distance);
    assert Valid(distance, Eight()) && Valid(value, Eight()) && Valid(Bin(Shr, value, a), Eight());
    TableReduces(a);
    DistanceValue(a, distance, value, env);
    TableDiffers(a, value, env);
  }

  /** The two values differ in bit 0 at the distance 127. */
  lemma TableDiffers(a: Node, value: Node, env: Env)
    requires a == Arg(0, 8, false) && Eval(value, env) == One() && Eval(a, env) == Low(7)
    ensures !Same(One(), Eval(RewriteShiftedConst(1, One(), a), env), Eval(Un(Select(1, 1), Bin(Shr, value, a)), env))
  {
    hide RewriteShiftedConst, WSelect, SelectOp, Amount, Low;
    var shifted := Bin(Shr, value, a);
    assert Valid(a, Eight());
    LowAmount();
    assert Eval(shifted, env) == WShr(One(), 127);
    TableTree(1, One(), a, Eight(), env);
    WrappedEntry();
  }

  lemma WrappedEntry()
    ensures TableField(1, One(), 127)[0] && !WSelect(WShr(One(), 127), 1, 1)[0] && One()[0]
  {
    assert One()[0] && !Zero()[0] && !One()[127];
    TableFieldValue(1, One(), 127);
    ShiftedConstTable(1, One(), 127);
    ShiftedConstBefore(1, One(), 127);
  }

  lemma LowAmount()
    ensures Amount(Low(7)) == 127
  {
    var a := Low(7);
    assert Pow2(7) == 128;
    AllSet(a[..7]);
  }

  lemma {:induction false} AllSet(s: seq<bool>)
    requires forall i :: 0 <= i < |s| ==> s[i]
    ensures ToNat(s) == Pow2(|s|) - 1
    decreases |s|
  {
    if |s| > 0 {
      AllSet(s[1..]);
    }
  }

  /** The distance is always zero. */
  lemma DistanceValue(a: Node, distance: Node, value: Node, env: Env)
    requires distance == Bin(And, Const(OneHot(8)), a) && value == Bin(Shl, Const(One()), distance)
    requires Fits(Eval(a, env), 8)
    ensures Eval(value, env) == One()
  {
    assert Eval(Const(OneHot(8)), env) == OneHot(8) && Eval(Const(One()), env) == One();
    assert Eval(distance, env) == Zero();
    AmountZero();
    assert WShl(One(), 0) == One();
  }

  /** The reduction reaches the table rule with the constant one. */
  lemma TableReduces(a: Node)
    requires a == Arg(0, 8, false)
    ensures Reduced(Un(Select(1, 1), Bin(Shr, Bin(Shl, Const(One()), Bin(And, Const(OneHot(8)), a)), a)), One())
         == RewriteShiftedConst(1, One(), a)
  {
    hide Reduced, ReducedArgs;
    var distance := Bin(And, Const(OneHot(8)), a);
    var value := Bin(Shl, Const(One()), distance);
    var mask := UnaryMask(Select(1, 1), One());
    assert mask[1];
    var left := LeftMask(Shr, a, mask);
    RightShiftKeeps(mask, Min(NumBits(a), 7), 1);
    DistanceReduces(a);
    DistanceReach(a, left);
    ValueReduces(distance, left, LeftMask(Shl, distance, left));
    ShiftedReduces(value, a, mask, left);
    FieldReduces(Bin(Shr, value, a), a, mask);
  }

  lemma FieldReduces(shifted: Node, a: Node, mask: Word)
    requires a == Arg(0, 8, false) && mask == UnaryMask(Select(1, 1), One())
    requires Reduced(shifted, mask) == Bin(Shr, Const(One()), a)
    ensures Reduced(Un(Select(1, 1), shifted), One()) == RewriteShiftedConst(1, One(), a)
  {
    hide Reduced, ReducedArgs;
    assert One()[0] && !Zero()[0] && !One()[127];
    assert NumNodes(a) == 1 && NumNodes(Const(One())) == 1 && NumNodes(Bin(Shr, Const(One()), a)) == 3;
    ReducedUnary(Select(1, 1), shifted, Bin(Shr, Const(One()), a), One(), mask);
    assert ReadsShiftedConst(1, 1, Bin(Shr, Const(One()), a));
  }

  lemma ShiftedReduces(value: Node, a: Node, mask: Word, left: Word)
    requires a == Arg(0, 8, false) && mask[1] && left == LeftMask(Shr, a, mask)
    requires Reduced(value, left) == Const(One())
    ensures Reduced(Bin(Shr, value, a), mask) == Bin(Shr, Const(One()), a)
  {
    hide Reduced, ReducedArgs;
    assert !Zero()[1];
    LowNonzero();
    ReducedArg(a, Low(7));
    assert NumNodes(a) == 1 && NumNodes(Const(One())) == 1;
    ReducedOperands(Shr, value, a, Const(One()), a, mask, left, Low(7));
    ShrRule(Const(One()), a, mask);
  }

  lemma LowNonzero()
    ensures Low(7) != Zero()
  {
    assert Low(7)[0] && !Zero()[0];
  }

  lemma ShrRule(x: Node, a: Node, m: Word)
    requires !a.Const?
    ensures Rewrite(Bin(Shr, x, a), m) == Bin(Shr, x, a)
  {
  }

  lemma RightShiftKeeps(m: Word, k: nat, j: nat)
    requires j < 128 && m[j]
    ensures ShiftMask(false, m, k)[j]
  {
    assert m[j] && j - j < Pow2(k);
  }

  lemma ValueReduces(distance: Node, m: Word, left: Word)
    requires m[1] && left == LeftMask(Shl, distance, m) && left[0] && Reduced(distance, Low(7)) == Const(Zero())
    ensures Reduced(Bin(Shl, Const(One()), distance), m) == Const(One())
  {
    hide Reduced, ReducedArgs;
    assert !Zero()[1] && !Zero()[0];
    ReducedConst(One(), left);
    assert NumNodes(Const(One())) == 1 && NumNodes(Const(Zero())) == 1;
    ReducedOperands(Shl, Const(One()), distance, Const(One()), Const(Zero()), m, left, Low(7));
  }

  /** The distance may be anything below 128 by its width. */
  lemma DistanceReach(a: Node, m: Word)
    requires a == Arg(0, 8, false) && m[1]
    ensures LeftMask(Shl, Bin(And, Const(OneHot(8)), a), m)[0]
  {
    LengthOf(OneHot(8), 9);
    assert NumBits(Const(OneHot(8))) == 9 && NumBits(a) == 8;
    assert Pow2(7) == 128;
    LeftShiftReaches(m, 7);
  }

  lemma LeftShiftReaches(m: Word, k: nat)
    requires m[1] && Pow2(k) > 1
    ensures ShiftMask(true, m, k)[0]
  {
    assert m[1] && 1 - 0 < Pow2(k);
  }

  lemma DistanceReduces(a: Node)
    requires a == Arg(0, 8, false)
    ensures Reduced(Bin(And, Const(OneHot(8)), a), Low(7)) == Const(Zero())
  {
    hide Reduced, ReducedArgs;
    assert Low(7)[0] && !Zero()[0];
    assert WAnd(OneHot(8), Low(7)) == Zero();
    ReducedMasked(OneHot(8), Low(7));
    ReducedArg(a, Low(7));
    assert NumNodes(a) == 1 && NumNodes(Const(Zero())) == 1;
    ReducedOperands(And, Const(OneHot(8)), a, Const(Zero()), a, Low(7), Low(7), Low(7));
    assert WAnd(Zero(), Low(NumBits(a))) == Zero();
  }

  // ------------------------------------------------ a lookup over a signed input

  /** `field ^ (a ^ (a ^ a))`, where `field` is bit 64 of the signed input `a`: the sign of `a` is
      read, but only bit 0 of `a` is counted as used. */
  function SignTest(a: Node): Node { Bin(Xor, Un(Select(64, 1), a), Bin(Xor, a, Bin(Xor, a, a))) }

  /** The lookup table for it has no entry for a set sign. */
  lemma SignedLookupBroken()
    ensures var t := SignTest(Arg(0, 8, true));
            Valid(t, Eight()) && InRange(AllInputs(OneHot(7)), Eight()) && Broken(t, One(), AllInputs(OneHot(7)))
  {
    hide Reduced, ReducedArgs, WSignExtend;
    var a, env := Node.Arg(0, 8, true), AllInputs(OneHot(7));
    var t := SignTest(a);
    assert One()[0] && !Zero()[0];
    SignTestValid(a);
    SignTestLookup(a, t);
    SignLookupValue(a, t, env);
    SignTestValue(a, env, WSignExtend(OneHot(7), 8));
    SignCopied();
  }

  lemma SignCopied()
    ensures WSignExtend(OneHot(7), 8)[64] && !WSignExtend(OneHot(7), 8)[0]
  {
  }

  lemma SignTestValid(a: Node)
    requires a == Arg(0, 8, true)
    ensures Valid(SignTest(a), Eight())
  {
    var pair := Bin(Xor, a, a);
    assert Valid(a, Eight()) && Valid(Un(Select(64, 1), a), Eight());
    assert Valid(pair, Eight()) && Valid(Bin(Xor, a, pair), Eight());
  }

  lemma SignTestValue(a: Node, env: Env, x: Word)
    requires Eval(a, env) == x
    ensures Eval(SignTest(a), env)[0] == (x[64] != x[0])
  {
    var pair := Bin(Xor, a, a);
    assert Eval(pair, env) == WXor(x, x);
    assert Eval(Bin(Xor, a, pair), env) == WXor(x, WXor(x, x));
    assert Eval(Un(Select(64, 1), a), env) == WSelect(x, 64, 1);
  }

  lemma SignTestUses(a: Node)
    requires a == Arg(0, 8, true)
    ensures Uses(SignTest(a), One()) == [One()]
  {
    var one, field := One(), Un(Select(64, 1), a);
    var mask := UnaryMask(Select(64, 1), one);
    assert one[0] && mask[64] && !Zero()[64] && !Zero()[0];
    assert WAnd(mask, Low(8)) == Zero() && WAnd(one, Low(8)) == one;
    assert Uses(a, mask) == SingleUse(0, Zero()) == [Zero()];
    assert Uses(field, one) == [Zero()];
    assert Uses(a, one) == SingleUse(0, one) == [one];
    UnionOfOne(one, one);
    UnionOfOne(Zero(), one);
    assert Uses(Bin(Xor, a, a), one) == [one];
    assert Uses(Bin(Xor, a, Bin(Xor, a, a)), one) == [one];
  }

  lemma UnionOfOne(x: Word, y: Word)
    requires x == y || x == Zero()
    ensures Union([x], [y]) == [y]
  {
    var u := Union([x], [y]);
    assert At(u, 0) == WOr(At([x], 0), At([y], 0));
    assert WOr(x, y) == y;
  }

  lemma SignTestReduces(a: Node)
    requires a == Arg(0, 8, true)
    ensures ReducedArgs(SignTest(a), One()) == SignTest(a)
  {
    hide Reduced;
    var one, field := One(), Un(Select(64, 1), a);
    var mask := UnaryMask(Select(64, 1), one);
    assert one[0] && mask[64] && !Zero()[64] && !Zero()[0];
    ReducedArg(a, mask);
    ReducedArg(a, one);
    assert NumNodes(a) == 1;
    ReducedUnary(Select(64, 1), a, a, one, mask);
    assert RewriteSelect(64, 1, a) == field;
    var pair := Bin(Xor, a, a);
    XorReduces(a, a, one);
    assert NumNodes(pair) == 3;
    XorReduces(a, pair, one);
  }

  lemma XorReduces(a: Node, b: Node, m: Word)
    requires m != Zero() && !a.Const? && !b.Const? && Reduced(a, m) == a && Reduced(b, m) == b
    requires NumNodes(a) + NumNodes(b) <= 6
    ensures Reduced(Bin(Xor, a, b), m) == Bin(Xor, a, b)
  {
    hide Reduced, ReducedArgs;
    ReducedBinary(Xor, a, b, m, m, m);
  }

  /** The lookup rule replaces the tree. */
  lemma SignTestLookup(a: Node, t: Node)
    requires a == Arg(0, 8, true) && t == SignTest(a)
    ensures Reduced(t, One()) == Rewrite(Lookup(t, One(), 0, One(), 8), One())
  {
    hide Reduced, ReducedArgs;
    SignTestUses(a);
    SignTestReduces(a);
    SignTestSize(a);
    LookupReached(t);
  }

  lemma SignTestSize(a: Node)
    requires a == Arg(0, 8, true)
    ensures NumNodes(SignTest(a)) == 8 && ArgWidth(SignTest(a), 0) == Some(8)
  {
    assert NumNodes(a) == 1 && NumNodes(Bin(Xor, a, a)) == 3;
    assert NumNodes(Un(Select(64, 1), a)) == 2 && NumNodes(Bin(Xor, a, Bin(Xor, a, a))) == 5;
    assert ArgWidth(a, 0) == Some(8) && ArgWidth(Un(Select(64, 1), a), 0) == Some(8);
  }

  lemma LookupReached(t: Node)
    requires !t.Const? && !t.Arg? && ReducedArgs(t, One()) == t && Uses(t, One()) == [One()]
    requires NumNodes(t) > 7 && ArgWidth(t, 0) == Some(8)
    ensures Reduced(t, One()) == Rewrite(Lookup(t, One(), 0, One(), 8), One())
  {
    hide Reduced, ReducedArgs;
    OneIsSingle();
    ReducedByLookup(t, One(), 0, One(), Lookup(t, One(), 0, One(), 8));
  }

  lemma OneIsSingle()
    ensures CountOnes(One()) == 1 && SingleArg([One()]) == Some((0, One())) && One() != Zero()
  {
    assert One()[0] && !Zero()[0];
    NoneSet(One()[1..]);
    assert [One()][1..] == [];
  }

  lemma {:induction false} NoneSet(s: seq<bool>)
    requires forall i :: 0 <= i < |s| ==> !s[i]
    ensures CountOnes(s) == 0
    decreases |s|
  {
    if |s| > 0 {
      NoneSet(s[1..]);
    }
  }

  /** At an input whose bit 0 is clear, the replacement has the entry of the input zero. */
  lemma SignLookupValue(a: Node, t: Node, env: Env)
    requires a == Arg(0, 8, true) && t == SignTest(a) && env == AllInputs(OneHot(7))
    ensures !Eval(Rewrite(Lookup(t, One(), 0, One(), 8), One()), env)[0]
  {
    var probe := Probe(0, Zero());
    assert Eval(a, probe) == WSignExtend(Zero(), 8);
    SignTestValue(a, probe, WSignExtend(Zero(), 8));
    LookupAtClear(t, OneHot(7), env);
  }

  lemma LookupAtClear(t: Node, v: Word, env: Env)
    requires env == AllInputs(v) && Fits(v, 8) && !v[0] && !Eval(t, Probe(0, Zero()))[0]
    ensures !Eval(Rewrite(Lookup(t, One(), 0, One(), 8), One()), env)[0]
  {
    var one := One();
    OneIsSingle();
    assert one[0] && TrailingZeros(one) == 0;
    assert WAnd(v, one) == Zero();
    LookupShows(t, one, 0, 0, one, Eight(), env);
    LookupSafe(t, one, 0, one, 8);
    RewriteSound(Lookup(t, one, 0, one, 8), one, Eight(), env);
  }
}
