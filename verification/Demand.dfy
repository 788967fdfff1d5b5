/** The two static analyses that the normalizer relies on: an upper bound on the
    number of significant bits of a subtree, and the bits of its operands that an
    operator needs in order to produce the bits demanded of it.
 */
module Demand {
  import opened Words
  import opened WordArithmetic
  import opened BitFields
  import opened Expressions

  // ------------------------------------------------------ significant bits

  function Min(a: nat, b: nat): nat { if a < b then a else b }
  function Max(a: nat, b: nat): nat { if a < b then b else a }

  /** The bound for an operator whose operands are bounded by `m` and `n`. */
  function BinaryBits(op: Binary, m: nat, n: nat): nat
  {
    match op
    case Add => Max(m, n) + 1
    case Sub => 128
    case Mul => Min(m + n, 128)
    case UnsignedDiv => Max(m, n)
    case Div => Max(m, n)
    case Shl => 128
    case Shr => m
    case And => Min(Min(m, n), 128)
    case Or => Max(m, n)
    case Xor => Max(m, n)
    case CmpLt => 1
    case DepositBits => n
    case ExtractBits => Min(m, n)
  }

  /** `Node::num_bits`. */
  function NumBits(t: Node): nat
  {
    match t
    case Arg(_, w, signed) => if signed then 128 else w
    case Const(c) => Length(c)
    case Un(op, a) =>
      (match op
       case Not => 128
       case IsZero => 1
       case Parity => 1
       case Crop(n) => n
       case SignExtend(_) => 128
       case Select(_, take) => take)
    case Bin(op, a, b) => BinaryBits(op, NumBits(a), NumBits(b))
    case IfZero(_, z, n) => Max(NumBits(z), NumBits(n))
  }

  /** `NumBits` bounds every value a well-formed tree can take on inputs of their declared width. */
  lemma {:induction false} NumBitsSound(t: Node, widths: nat -> nat, env: Env)
    requires Valid(t, widths) && InRange(env, widths)
    ensures Fits(Eval(t, env), NumBits(t))
    decreases t
  {
    match t
    case Arg(i, w, signed) =>
      assert Fits(env(i), widths(i));
    case Const(c) =>
    case Un(op, a) =>
    case Bin(op, a, b) =>
      NumBitsSound(a, widths, env);
      NumBitsSound(b, widths, env);
      NumBitsBinary(op, Eval(a, env), Eval(b, env), NumBits(a), NumBits(b));
    case IfZero(c, z, n) =>
      NumBitsSound(z, widths, env);
      NumBitsSound(n, widths, env);
  }

  lemma NumBitsBinary(op: Binary, x: Word, y: Word, m: nat, n: nat)
    requires Fits(x, m) && Fits(y, n)
    ensures Fits(EvalBinary(op, x, y), BinaryBits(op, m, n))
  {
    match op
    case Add => AddFits(x, y, Max(m, n));
    case Mul => MulFits(x, y, m, n);
    case UnsignedDiv => UnsignedDivFits(x, y, Max(m, n));
    case Div => DivFits(x, y, Max(m, n));
    case DepositBits => DepositUnder(x, y);
    case ExtractBits => ExtractFits(x, y, m, n);
    case _ =>
  }

  // ------------------------------------------------------- bounds that are reached

  /** Widths for which the bound on an operator can be reached: a product needs two bits in each factor,
      a quotient a divisor no wider than the dividend, and a left shift a distance of seven bits. */
  predicate CanReach(op: Binary, m: nat, n: nat)
  {
    && 1 <= m <= 128 && 1 <= n <= 128 && (op == Add ==> m < 128 && n < 128)
    && (op == Mul ==> 2 <= m && 2 <= n && m + n <= 128) && (op == UnsignedDiv || op == Div ==> n <= m)
    && (op == Shl ==> n >= 7)
  }

  /** The wider operand full of ones, the other one zero. */
  lemma WidestOf(m: nat, n: nat) returns (x: Word, y: Word)
    requires 1 <= m <= 128 && 1 <= n <= 128
    ensures Fits(x, m) && Fits(y, n) && WOr(x, y)[Max(m, n) - 1] && WXor(x, y)[Max(m, n) - 1]
  {
    if m >= n {
      x, y := Low(m), Zero();
    } else {
      x, y := Zero(), Low(n);
    }
  }

  /** No smaller bound would do for an operator with two operands. */
  lemma BinaryBitsTight(op: Binary, m: nat, n: nat) returns (x: Word, y: Word)
    requires CanReach(op, m, n)
    ensures 1 <= BinaryBits(op, m, n) <= 128
    ensures Fits(x, m) && Fits(y, n) && EvalBinary(op, x, y)[BinaryBits(op, m, n) - 1]
  {
    hide WAdd, WSub, WMul, WUnsignedDiv, WDiv, WCmpLt, WDeposit, WExtract, Amount, OfInt;
    x, y := Low(m), OneHot(0);
    match op
    case Add => x, y := AddReaches(m, n);
    case Sub =>
      x := Zero();
      MinusOne();
    case Mul => x, y := MulReaches(m, n);
    case UnsignedDiv => DivOne(x);
    case Div => DivOne(x);
    case Shl =>
      x, y := OneHot(0), OfInt(127);
      SevenBits();
    case Shr =>
      y := Zero();
      ToNatZero(y);
      AmountOfSmall(y);
    case And => y := Low(n);
    case Or => x, y := WidestOf(m, n);
    case Xor => x, y := WidestOf(m, n);
    case CmpLt =>
      x := Zero();
      ComparedByBits(x, y, 0);
    case DepositBits =>
      x, y := OneHot(0), OneHot(n - 1);
      DepositsOne(n - 1);
    case ExtractBits =>
      y := Low(n);
      ExtractRun(x, y, 0, n);
  }

  lemma NumberFits(x: nat, n: nat)
    requires x < Pow2(n)
    ensures Fits(OfInt(x), n)
  {
    forall i | n <= i < 128 ensures !OfInt(x)[i] {
      BoundClearsBit(x, n, i);
    }
  }

  lemma AddReaches(m: nat, n: nat) returns (x: Word, y: Word)
    requires 1 <= m < 128 && 1 <= n < 128
    ensures Fits(x, m) && Fits(y, n) && WAdd(x, y)[Max(m, n)]
  {
    var k := Max(m, n);
    var most: int := Pow2(k) - 1;
    AddOfInt(most, 1);
    AddOfInt(1, most);
    PowerIsOneHot(k);
    NumberFits(most, k);
    Pow2Mono(1, m);
    Pow2Mono(1, n);
    NumberFits(1, m);
    NumberFits(1, n);
    x, y := if m >= n then OfInt(most) else OfInt(1), if m >= n then OfInt(1) else OfInt(most);
  }

  lemma {:induction false} BitOfMinusOne(i: nat)
    ensures Bit(-1, i)
    decreases i
  {
    if i > 0 {
      BitOfMinusOne(i - 1);
    }
  }

  lemma MinusOne()
    ensures WSub(Zero(), OneHot(0))[127]
  {
    OfIntZero(Zero());
    PowerIsOneHot(0);
    AddOfInt(0, 1);
    BitOfMinusOne(127);
  }

  /** Three quarters of the range of each factor: nine sixteenths of that of the product. */
  lemma MulReaches(m: nat, n: nat) returns (x: Word, y: Word)
    requires 2 <= m && 2 <= n && m + n <= 128
    ensures Fits(x, m) && Fits(y, n) && WMul(x, y)[m + n - 1]
  {
    var a, b := Pow2(m - 2), Pow2(n - 2);
    ThreeQuarters(m);
    ThreeQuarters(n);
    x, y := OfInt(3 * a), OfInt(3 * b);
    Pow2Mono(m, 128);
    Pow2Mono(n, 128);
    NatOfInt(3 * a);
    NatOfInt(3 * b);
    NumberFits(3 * a, m);
    NumberFits(3 * b, n);
    Pow2Add(m - 2, n - 2);
    NineTimes(a, b);
    BitOfScaled(9, m + n - 4, m + n - 1);
    assert Bit(9, 3);
  }

  lemma ThreeQuarters(m: nat)
    requires m >= 2
    ensures 3 * Pow2(m - 2) < Pow2(m)
  {
    assert Pow2(m) == 2 * Pow2(m - 1);
  }

  lemma NineTimes(a: int, b: int)
    ensures (3 * a) * (3 * b) == 9 * (a * b)
  {
  }

  lemma SevenBits()
    ensures Amount(OfInt(127)) == 127 && forall n :: 7 <= n ==> Fits(OfInt(127), n)
  {
    assert Pow2(7) == 128;
    Pow2Mono(7, 128);
    NatOfInt(127);
    AmountOfSmall(OfInt(127));
    NumberFits(127, 7);
  }

  lemma DepositsOne(k: nat)
    requires k < 128
    ensures WDeposit(OneHot(0), OneHot(k))[k]
  {
    ScatterAt(OneHot(0), OneHot(k), k);
    NoOnes(OneHot(k)[..k]);
  }

  /** The same for a single operand: on some value of any width the bound is reached. */
  lemma UnaryBitsTight(op: Unary) returns (x: Word)
    requires ValidUnary(op) && NumBits(Un(op, Const(Zero()))) > 0
    ensures NumBits(Un(op, Const(Zero()))) <= 128
    ensures EvalUnary(op, x)[NumBits(Un(op, Const(Zero()))) - 1]
  {
    x := if op.Not? || op.IsZero? || op.Parity? then Zero() else Ones();
    if op.Parity? {
      ParityFlips(Zero(), 0);
    }
  }

  /** And for inputs and constants. */
  lemma LeafBitsTight(w: nat, c: Word) returns (x: Word)
    requires 1 <= w <= 128
    ensures Fits(x, w) && 1 <= NumBits(Arg(0, w, false)) <= 128 && 1 <= NumBits(Arg(0, w, true)) <= 128
    ensures EvalInput(x, w, false)[NumBits(Arg(0, w, false)) - 1] && EvalInput(x, w, true)[NumBits(Arg(0, w, true)) - 1]
    ensures c != Zero() ==> 1 <= NumBits(Const(c)) <= 128 && c[NumBits(Const(c)) - 1]
  {
    x := OneHot(w - 1);
    ZeroIffNoBit(c);
  }

  // --------------------------------------------------------- demanded bits

  /** `child_bits_needed` for operators with one operand. */
  function UnaryMask(op: Unary, m: Word): Word
  {
    match op
    case Not => m
    case IsZero => Ones()
    case Parity => Ones()
    case Crop(n) => WAnd(m, Low(n))
    case SignExtend(n) => WAnd(m, Low(n))
    case Select(skip, take) => if skip >= 128 then Zero() else WShl(WAnd(m, Low(take)), skip)
  }

  /** `child_bits_needed` for operators with two operands other than the shifts. */
  function BinaryMask(op: Binary, m: Word): Word
  {
    match op
    case And => m
    case Or => m
    case Xor => m
    case Add => Low(Length(m))
    case _ => Ones()
  }

  /** The bits a shift may move into a demanded place when its distance is below `2^k`. */
  function ShiftMask(left: bool, m: Word, k: nat): Word
  {
    if left then
      seq(128, i requires 0 <= i < 128 => exists j | i <= j < 128 :: m[j] && j - i < Pow2(k))
    else
      seq(128, i requires 0 <= i < 128 => exists j | 0 <= j <= i :: m[j] && i - j < Pow2(k))
  }

  /** The demand of a sign extension leaves out its sign bit unless that bit is demanded itself. */
  predicate DemandCovered(op: Unary, m: Word)
  {
    op.SignExtend? && 1 <= op.bits <= 128 ==> Fits(m, op.bits) || m[op.bits - 1]
  }

  /** Operands that agree on the demanded bits give results that agree on the demanded bits. */
  lemma UnaryDemand(op: Unary, m: Word, x: Word, y: Word)
    requires ValidUnary(op) && DemandCovered(op, m)
    requires Same(UnaryMask(op, m), x, y)
    ensures Same(m, EvalUnary(op, x), EvalUnary(op, y))
  {
    match op
    case Not =>
    case IsZero => SameOnes(x, y);
    case Parity => SameOnes(x, y);
    case Crop(n) =>
    case SignExtend(n) =>
    case Select(skip, take) =>
      if take > 0 {
        var mask := UnaryMask(op, m);
        forall i | 0 <= i < 128 && m[i] ensures WSelect(x, skip, take)[i] == WSelect(y, skip, take)[i] {
          if i < take && i + skip < 128 {
            assert mask[i + skip];
          }
        }
      }
  }

  lemma BinaryDemand(op: Binary, m: Word, x: Word, x': Word, y: Word, y': Word)
    requires op != Shl && op != Shr
    requires Same(BinaryMask(op, m), x, x') && Same(BinaryMask(op, m), y, y')
    ensures Same(m, EvalBinary(op, x, y), EvalBinary(op, x', y'))
  {
    match op
    case And =>
    case Or =>
    case Xor =>
    case Add =>
      var k := Length(m);
      assert forall i :: 0 <= i < k ==> Low(k)[i];
      AddLowBits(k, x, x', y, y');
    case _ =>
      SameOnes(x, x');
      SameOnes(y, y');
  }

  /** A shift whose distance fits in `k` bits. */
  lemma ShiftDemand(left: bool, m: Word, k: nat, x: Word, x': Word, s: nat)
    requires s < 128 && s < Pow2(k)
    requires Same(ShiftMask(left, m, k), x, x')
    ensures left ==> Same(m, WShl(x, s), WShl(x', s))
    ensures !left ==> Same(m, WShr(x, s), WShr(x', s))
  {
    var mask := ShiftMask(left, m, k);
    forall i | 0 <= i < 128 && m[i]
      ensures left ==> WShl(x, s)[i] == WShl(x', s)[i]
      ensures !left ==> WShr(x, s)[i] == WShr(x', s)[i]
    {
      if left {
        if s <= i {
          assert mask[i - s];
        }
      } else {
        // A distance that runs past the top reads bit 127, which a shorter distance demands.
        var d := if i + s < 128 then s else 127 - i;
        assert mask[i + d];
      }
    }
  }

  // ------------------------------------------------------ no bit too many

  /** Every bit demanded of the operand matters: turning it on in an operand of zeros changes a bit
      demanded of the result.  Of a test for zero and a parity one bit can be demanded, and a parity
      looks at eight bits only. */
  lemma UnaryMaskTight(op: Unary, m: Word, i: nat)
    requires ValidUnary(op) && i < 128 && UnaryMask(op, m)[i] && (op.IsZero? || op.Parity? ==> m[0])
    requires op.Parity? ==> i < 8
    ensures !Same(m, EvalUnary(op, Zero()), EvalUnary(op, OneHot(i)))
  {
    var r, r' := EvalUnary(op, Zero()), EvalUnary(op, OneHot(i));
    match op
    case Not => assert m[i] && r[i] != r'[i];
    case IsZero =>
      assert OneHot(i)[i] && !Zero()[i];
      assert r[0] != r'[0];
    case Parity =>
      ParityFlips(Zero(), i);
      assert Zero()[i := true] == OneHot(i);
      assert r[0] != r'[0];
    case Crop(n) => assert m[i] && r[i] != r'[i];
    case SignExtend(n) => assert m[i] && r[i] != r'[i];
    case Select(skip, take) => assert m[i - skip] && r[i - skip] != r'[i - skip];
  }

  /** The same for operators with two operands of which single bits are demanded. */
  lemma BitwiseMaskTight(op: Binary, m: Word, i: nat)
    requires (op == And || op == Or || op == Xor) && i < 128 && BinaryMask(op, m)[i]
    ensures var y := if op == And then Ones() else Zero();
            && !Same(m, EvalBinary(op, Zero(), y), EvalBinary(op, OneHot(i), y))
            && !Same(m, EvalBinary(op, y, Zero()), EvalBinary(op, y, OneHot(i)))
  {
    var y := if op == And then Ones() else Zero();
    assert m[i];
    assert !EvalBinary(op, Zero(), y)[i] && EvalBinary(op, OneHot(i), y)[i];
    assert !EvalBinary(op, y, Zero())[i] && EvalBinary(op, y, OneHot(i))[i];
  }

  /** And for a sum: a low bit can carry into the highest bit demanded. */
  lemma AddMaskTight(m: Word, i: nat) returns (y: Word)
    requires i < 128 && BinaryMask(Add, m)[i]
    ensures !Same(m, WAdd(Zero(), y), WAdd(OneHot(i), y)) && !Same(m, WAdd(y, Zero()), WAdd(y, OneHot(i)))
  {
    var top := Length(m) - 1;
    assert m[top] && i <= top;
    Pow2Mono(i, top);
    y := OfInt(Pow2(top) - Pow2(i));
    AddZero(y);
    CarriesTo(i, top);
  }

  lemma CarriesTo(i: nat, top: nat)
    requires i <= top < 128 && Pow2(i) <= Pow2(top)
    ensures var y := OfInt(Pow2(top) - Pow2(i));
            !y[top] && WAdd(OneHot(i), y)[top] && WAdd(y, OneHot(i))[top]
  {
    var n := Pow2(top) - Pow2(i);
    PowerIsOneHot(i);
    PowerIsOneHot(top);
    AddOfInt(Pow2(i), n);
    AddOfInt(n, Pow2(i));
    assert Pow2(i) > 0;
    BoundClearsBit(n, top, top);
  }

  lemma PowerIsOneHot(n: nat)
    requires n < 128
    ensures OfInt(Pow2(n)) == OneHot(n)
  {
    ToNatOneHot(n);
    OfIntToNat(OneHot(n));
  }

  /** And for shifts: some distance in range moves the bit into a demanded place. */
  lemma ShiftMaskTight(left: bool, m: Word, k: nat, i: nat) returns (s: nat)
    requires i < 128 && ShiftMask(left, m, k)[i]
    ensures s < 128 && s < Pow2(k)
    ensures left ==> !Same(m, WShl(Zero(), s), WShl(OneHot(i), s))
    ensures !left ==> !Same(m, WShr(Zero(), s), WShr(OneHot(i), s))
  {
    if left {
      var j :| i <= j < 128 && m[j] && j - i < Pow2(k);
      s := j - i;
      assert WShl(OneHot(i), s)[j] && !WShl(Zero(), s)[j];
    } else {
      var j :| 0 <= j <= i && m[j] && i - j < Pow2(k);
      s := i - j;
      assert WShr(OneHot(i), s)[j] && !WShr(Zero(), s)[j];
    }
  }

  /** A distance that fits in `k < 7` bits is below `2^k`, and no distance exceeds 127. */
  lemma DistanceBound(b: Node, widths: nat -> nat, env: Env)
    requires Valid(b, widths) && InRange(env, widths)
    ensures Amount(Eval(b, env)) < Pow2(Min(NumBits(b), 7)) <= 128
  {
    var k := Min(NumBits(b), 7);
    assert Pow2(7) == 128;
    Pow2Mono(k, 7);
    if k < 7 {
      NumBitsSound(b, widths, env);
      AmountOfNarrow(Eval(b, env), k);
    }
  }

  /** The demand that `child_bits_needed` computes for a sign extension determines the demanded
      bits of its result exactly when no bit above the field is demanded or the sign bit is. */
  lemma SignExtendDemandExact(n: nat, m: Word)
    requires 1 <= n <= 127
    ensures (forall x: Word, y: Word ::
               Same(UnaryMask(SignExtend(n), m), x, y) ==> Same(m, WSignExtend(x, n), WSignExtend(y, n)))
        <==> DemandCovered(SignExtend(n), m)
  {
    var op := SignExtend(n);
    if DemandCovered(op, m) {
      forall x: Word, y: Word | Same(UnaryMask(op, m), x, y)
        ensures Same(m, WSignExtend(x, n), WSignExtend(y, n))
      {
        UnaryDemand(op, m, x, y);
      }
    } else {
      var i :| n <= i < 128 && m[i];
      var x, y := Zero(), OneHot(n - 1);
      assert Same(UnaryMask(op, m), x, y);
      assert WSignExtend(x, n)[i] != WSignExtend(y, n)[i];
      assert !Same(m, WSignExtend(x, n), WSignExtend(y, n));
    }
  }
}
