/** Every rewrite rule preserves the demanded bits, outside the hazards; and, for the rules that
    have one, exactly when a rule keeps the demanded bits of every operand.
 */
module RewriteSoundness {
  import opened Words
  import opened WordArithmetic
  import opened BitFields
  import opened Expressions
  import opened Demand
  import opened Rewrites

  /** `t'` is well formed and agrees with `t` on the demanded bits. */
  ghost predicate Preserves(m: Word, t: Node, t': Node, widths: nat -> nat, env: Env)
  {
    Valid(t', widths) && Same(m, Eval(t', env), Eval(t, env))
  }

  ghost predicate Sound(m: Word, t: Node, widths: nat -> nat, env: Env)
  {
    Preserves(m, t, Rewrite(t, m), widths, env)
  }

  lemma Keep(m: Word, t: Node, t': Node, widths: nat -> nat, env: Env)
    requires Valid(t', widths) && Eval(t', env) == Eval(t, env)
    ensures Preserves(m, t, t', widths, env)
  {
  }

  lemma UnaryBool(x: Word)
    requires Fits(x, 1)
    ensures x == Zero() || x == One()
    ensures x[0] <==> x == One()
    ensures One() != Zero()
  {
    assert One()[0] && !Zero()[0];
    if x[0] {
      assert x == One();
    } else {
      assert x == Zero();
    }
  }

  // ----------------------------------------------------------------- shifts

  lemma ShlSound(a: Node, b: Node, m: Word, widths: nat -> nat, env: Env)
    requires Valid(Bin(Shl, a, b), widths)
    ensures Preserves(m, Bin(Shl, a, b), RewriteShl(a, b), widths, env)
  {
    AmountZero();
    assert WShl(Eval(a, env), 0) == Eval(a, env);
  }

  lemma AmountZero()
    ensures Amount(Zero()) == 0
  {
    ToNatZero(Zero());
    AmountOfSmall(Zero());
  }

  lemma ShiftByNone(x: Word)
    ensures WShr(x, 0) == x
  {
  }

  lemma FieldOfShift(x: Word, n: nat, m: Word)
    requires Length(m) + n <= 128
    ensures Same(m, WSelect(x, n, Length(m)), WShr(x, n))
  {
    forall i | 0 <= i < 128 && m[i] ensures WSelect(x, n, Length(m))[i] == WShr(x, n)[i] {
      assert i < Length(m);
    }
  }

  lemma ShrField(a: Node, b: Node, m: Word, widths: nat -> nat, env: Env)
    requires Valid(a, widths) && m != Zero() && b.Const? && b.value != Zero()
    requires 0 <= ToInt(b.value) <= 128 && Length(m) <= 128 - ToInt(b.value)
    ensures Preserves(m, Bin(Shr, a, b), Un(Select(ToInt(b.value), Length(m)), a), widths, env)
  {
    hide ToInt, Amount, WShr, WSelect, Length;
    var c := b.value;
    LengthPositive(m);
    PositiveConst(c);
    AmountOfSmall(c);
    assert Eval(Bin(Shr, a, b), env) == WShr(Eval(a, env), ToInt(c));
    SelectNode(ToInt(c), Length(m), a, widths, env);
    FieldOfShift(Eval(a, env), ToInt(c), m);
  }

  lemma LengthPositive(m: Word)
    requires m != Zero()
    ensures Length(m) > 0
  {
    ZeroIffNoBit(m);
  }

  lemma ShrSound(a: Node, b: Node, m: Word, widths: nat -> nat, env: Env)
    requires Valid(Bin(Shr, a, b), widths) && m != Zero()
    ensures Preserves(m, Bin(Shr, a, b), RewriteShr(a, b, m), widths, env)
  {
    hide ToInt, Length, Amount, WShr;
    var t, t' := Bin(Shr, a, b), RewriteShr(a, b, m);
    if IsConst(b, Zero()) {
      AmountZero();
      ShiftByNone(Eval(a, env));
      Keep(m, t, t', widths, env);
    } else if t'.Un? {
      ShrField(a, b, m, widths, env);
    } else {
      Keep(m, t, t', widths, env);
    }
  }

  lemma PositiveConst(c: Word)
    requires c != Zero() && 0 <= ToInt(c) < 128
    ensures 0 < ToInt(c) == ToNat(c)
  {
    SignOfInt(c);
    OfIntToNat(c);
    if ToNat(c) == 0 {
      ToNatZero(Zero());
      OfIntToNat(Zero());
    }
  }

  // ---------------------------------------------------------------- bitwise

  lemma AndSound(a: Node, b: Node, m: Word, widths: nat -> nat, env: Env)
    requires Valid(Bin(And, a, b), widths) && InRange(env, widths)
    ensures Preserves(m, Bin(And, a, b), RewriteAnd(a, b), widths, env)
  {
    var t, t' := Bin(And, a, b), RewriteAnd(a, b);
    if a.Const? || b.Const? {
      NumBitsSound(a, widths, env);
      NumBitsSound(b, widths, env);
      AndConstSound(a, b, widths, env);
    } else {
      AndCropSound(a, b, widths, env);
    }
    Keep(m, t, t', widths, env);
  }

  lemma AndConstSound(a: Node, b: Node, widths: nat -> nat, env: Env)
    requires Valid(a, widths) && Valid(b, widths) && (a.Const? || b.Const?)
    requires Fits(Eval(a, env), NumBits(a)) && Fits(Eval(b, env), NumBits(b))
    ensures Valid(RewriteAnd(a, b), widths)
    ensures Eval(RewriteAnd(a, b), env) == WAnd(Eval(a, env), Eval(b, env))
  {
    hide NumBits, Low, TrailingOnes, IsLowRun, WAnd, WCrop, CropOp;
    if a.Const? {
      MaskedNode(a.value, b, widths, env);
    }
    if b.Const? {
      MaskedNode(b.value, a, widths, env);
    }
    AndCropSound(a, b, widths, env);
  }

  lemma MaskedNode(c: Word, b: Node, widths: nat -> nat, env: Env)
    requires Valid(b, widths) && Fits(Eval(b, env), NumBits(b))
    ensures var y, mask := Eval(b, env), Low(NumBits(b));
            && (WAnd(c, mask) == Zero() ==> WAnd(c, y) == Zero() && WAnd(y, c) == Zero())
            && (WAnd(c, mask) == mask ==> WAnd(c, y) == y && WAnd(y, c) == y)
    ensures WAnd(c, Low(NumBits(b))) != Low(NumBits(b)) && IsLowRun(c) ==>
              var t := Un(Crop(TrailingOnes(c)), b);
              Valid(t, widths) && Eval(t, env) == WAnd(c, Eval(b, env)) == WAnd(Eval(b, env), c)
  {
    AndConst(c, Eval(b, env), NumBits(b));
    if TrailingOnes(c) < 128 {
      CropNode(TrailingOnes(c), b, widths, env);
    }
  }

  lemma CropNode(n: nat, a: Node, widths: nat -> nat, env: Env)
    requires n <= 127 && Valid(a, widths)
    ensures Valid(Un(Crop(n), a), widths) && Eval(Un(Crop(n), a), env) == WCrop(Eval(a, env), n)
  {
  }

  lemma AndCropSound(a: Node, b: Node, widths: nat -> nat, env: Env)
    requires Valid(a, widths) && Valid(b, widths)
    ensures a.Un? && a.op.Crop? ==> SameValue(Un(a.op, Bin(And, a.arg, b)), Bin(And, a, b), widths, env)
    ensures b.Un? && b.op.Crop? ==> SameValue(Un(b.op, Bin(And, a, b.arg)), Bin(And, a, b), widths, env)
  {
    hide SameValue, Eval, Valid;
    if a.Un? && a.op.Crop? {
      AndCropNode(a, b, widths, env);
    }
    if b.Un? && b.op.Crop? {
      AndCropNode(b, a, widths, env);
    }
  }

  ghost predicate SameValue(t': Node, t: Node, widths: nat -> nat, env: Env)
  {
    Valid(t', widths) && Eval(t', env) == Eval(t, env)
  }

  lemma AndCropNode(a: Node, b: Node, widths: nat -> nat, env: Env)
    requires Valid(a, widths) && Valid(b, widths) && a.Un? && a.op.Crop?
    ensures SameValue(Un(a.op, Bin(And, a.arg, b)), Bin(And, a, b), widths, env)
    ensures SameValue(Un(a.op, Bin(And, b, a.arg)), Bin(And, b, a), widths, env)
  {
    hide Eval, Valid, WAnd, WCrop;
    var x := a.arg;
    ValidParts(a, widths);
    CropNode(a.op.bits, x, widths, env);
    AndNode(x, b, widths, env);
    AndNode(a, b, widths, env);
    CropNode(a.op.bits, Bin(And, x, b), widths, env);
    CropNode(a.op.bits, Bin(And, b, x), widths, env);
    AndCrop(Eval(x, env), Eval(b, env), a.op.bits);
  }

  lemma AndNode(a: Node, b: Node, widths: nat -> nat, env: Env)
    requires Valid(a, widths) && Valid(b, widths)
    ensures Valid(Bin(And, a, b), widths) && Eval(Bin(And, a, b), env) == WAnd(Eval(a, env), Eval(b, env))
    ensures Valid(Bin(And, b, a), widths) && Eval(Bin(And, b, a), env) == WAnd(Eval(b, env), Eval(a, env))
  {
  }

  lemma AndCrop(x: Word, y: Word, n: nat)
    ensures WAnd(WCrop(x, n), y) == WCrop(WAnd(x, y), n)
    ensures WAnd(y, WCrop(x, n)) == WCrop(WAnd(y, x), n)
  {
  }

  lemma AndConst(c: Word, y: Word, n: nat)
    requires Fits(y, n)
    ensures WAnd(c, Low(n)) == Zero() ==> WAnd(c, y) == Zero() && WAnd(y, c) == Zero()
    ensures WAnd(c, Low(n)) == Low(n) ==> WAnd(c, y) == y && WAnd(y, c) == y
    ensures IsLowRun(c) ==> WAnd(c, y) == WCrop(y, TrailingOnes(c)) && WAnd(y, c) == WCrop(y, TrailingOnes(c))
    ensures TrailingOnes(c) == 128 ==> WAnd(c, Low(n)) == Low(n)
  {
    if WAnd(c, Low(n)) == Zero() {
      forall i | 0 <= i < 128 ensures !(c[i] && y[i]) {
        assert !WAnd(c, Low(n))[i];
      }
    }
    if WAnd(c, Low(n)) == Low(n) {
      forall i | 0 <= i < 128 && i < n ensures c[i] {
        assert WAnd(c, Low(n))[i] == Low(n)[i];
      }
    }
    if IsLowRun(c) {
      assert forall i :: 0 <= i < 128 ==> c[i] == (i < TrailingOnes(c));
    }
  }

  lemma OrSound(a: Node, b: Node, m: Word, widths: nat -> nat, env: Env)
    requires Valid(Bin(Or, a, b), widths) && InRange(env, widths)
    requires !OrHazard(a, b, m)
    ensures Preserves(m, Bin(Or, a, b), RewriteOr(a, b), widths, env)
  {
    var x, y := Eval(a, env), Eval(b, env);
    var combined := CombinedMask(a, b);
    NumBitsSound(a, widths, env);
    NumBitsSound(b, widths, env);
    if a.Const? && WAnd(a.value, combined) == Zero() {
      ConstOutsideMask(a.value, combined);
    } else if b.Const? && WAnd(b.value, combined) == Zero() {
      ConstOutsideMask(b.value, combined);
    } else if OrSaturates(a, b) {
      SaturatedValue(a, b, widths, env);
    }
  }

  lemma ConstOutsideMask(c: Word, mask: Word)
    requires WAnd(c, mask) == Zero() && Under(c, mask)
    ensures c == Zero()
  {
    forall i | 0 <= i < 128 ensures !c[i] {
      assert !WAnd(c, mask)[i];
    }
    ZeroIffNoBit(c);
  }

  /** Where the saturating rule fires, the disjunction has the value of the combined mask. */
  lemma SaturatedValue(a: Node, b: Node, widths: nat -> nat, env: Env)
    requires Valid(Bin(Or, a, b), widths) && InRange(env, widths)
    requires OrSaturates(a, b)
    ensures WOr(Eval(a, env), Eval(b, env)) == CombinedMask(a, b)
  {
    var combined := CombinedMask(a, b);
    NumBitsSound(a, widths, env);
    NumBitsSound(b, widths, env);
    forall i | 0 <= i < 128 ensures WOr(Eval(a, env), Eval(b, env))[i] == combined[i] {
      if a.Const? && WAnd(a.value, combined) == combined {
        assert WAnd(a.value, combined)[i] == combined[i];
      } else {
        assert WAnd(b.value, combined)[i] == combined[i];
      }
    }
  }

  /** On every input, replacing the disjunction by all ones keeps the demanded bits exactly when
      they all lie under the combined mask. */
  lemma OrSaturationExact(a: Node, b: Node, m: Word, widths: nat -> nat, env: Env)
    requires Valid(Bin(Or, a, b), widths) && InRange(env, widths)
    requires OrSaturates(a, b)
    ensures Same(m, Eval(RewriteOr(a, b), env), Eval(Bin(Or, a, b), env)) <==> !OrHazard(a, b, m)
  {
    SaturatedValue(a, b, widths, env);
    var combined := CombinedMask(a, b);
    if !Under(m, combined) {
      var i :| 0 <= i < 128 && m[i] && !combined[i];
      assert Ones()[i];
    }
  }

  lemma XorOutside(c: Word, y: Word, m: Word)
    requires WAnd(c, m) == Zero()
    ensures Same(m, y, WXor(c, y)) && Same(m, y, WXor(y, c))
  {
    forall i | 0 <= i < 128 && m[i] ensures !c[i] {
      assert !WAnd(c, m)[i];
    }
  }

  lemma XorSound(a: Node, b: Node, m: Word, widths: nat -> nat, env: Env)
    requires Valid(Bin(Xor, a, b), widths)
    ensures Preserves(m, Bin(Xor, a, b), RewriteXor(a, b, m), widths, env)
  {
    if a.Const? && WAnd(a.value, m) == Zero() {
      XorOutside(a.value, Eval(b, env), m);
    } else if b.Const? && WAnd(b.value, m) == Zero() {
      XorOutside(b.value, Eval(a, env), m);
    }
  }

  lemma DeMorgan(x: Word, y: Word)
    ensures WNot(WNot(x)) == x
    ensures WOr(WNot(x), WNot(y)) == WNot(WAnd(x, y))
    ensures WAnd(WNot(x), WNot(y)) == WNot(WOr(x, y))
  {
  }

  lemma NotSound(a: Node, m: Word, widths: nat -> nat, env: Env)
    requires Valid(Un(Not, a), widths)
    ensures Preserves(m, Un(Not, a), RewriteNot(a), widths, env)
  {
    var t, t' := Un(Not, a), RewriteNot(a);
    if a.Un? && a.op.Not? {
      DeMorgan(Eval(a.arg, env), Zero());
    } else if t' != t {
      NegatedOperands(a, widths, env);
    }
    Keep(m, t, t', widths, env);
  }

  lemma NegatedOperands(a: Node, widths: nat -> nat, env: Env)
    requires a.Bin? && (a.bop.And? || a.bop.Or?) && Valid(a, widths)
    ensures var t := Bin(if a.bop.And? then Or else And, Un(Not, a.left), Un(Not, a.right));
            Valid(t, widths) && Eval(t, env) == WNot(Eval(a, env))
  {
    var x, y := Eval(a.left, env), Eval(a.right, env);
    DeMorgan(x, y);
    assert Valid(Un(Not, a.left), widths) && Eval(Un(Not, a.left), env) == WNot(x);
    assert Valid(Un(Not, a.right), widths) && Eval(Un(Not, a.right), env) == WNot(y);
  }

  // ------------------------------------------------------------ bit fields

  lemma CropSound(n: nat, a: Node, m: Word, widths: nat -> nat, env: Env)
    requires Valid(Un(Crop(n), a), widths) && InRange(env, widths)
    ensures Preserves(m, Un(Crop(n), a), RewriteCrop(n, a, m), widths, env)
  {
    NumBitsSound(a, widths, env);
    assert forall i :: 0 <= i < 128 && m[i] ==> i < Length(m);
  }

  lemma SignExtendSound(n: nat, a: Node, m: Word, widths: nat -> nat, env: Env)
    requires Valid(Un(SignExtend(n), a), widths) && InRange(env, widths)
    ensures Preserves(m, Un(SignExtend(n), a), RewriteSignExtend(n, a), widths, env)
  {
    NumBitsSound(a, widths, env);
  }

  /** Reading a packed table with a left shift by `s` yields entry `127 - s`. */
  lemma TableRead(v: Word, s: nat)
    requires v != Zero() && s < 128
    ensures TrailingZeros(v) < 128
    ensures WSelect(WShl(PackedTable(v), s), TableSkip(v), 1) == if v[127 - s] then One() else Zero()
  {
    ZeroIffNoBit(v);
    var tz := TrailingZeros(v);
    var packed := PackedTable(v);
    var r := WSelect(WShl(packed, s), 127 - tz, 1);
    assert r[0] == WShl(packed, s)[127 - tz];
    if s <= 127 - tz {
      assert r[0] == packed[127 - tz - s];
      assert packed[127 - tz - s] == v[127 - s];
    } else {
      assert 127 - s < tz;
    }
    assert forall i :: 0 < i < 128 ==> !r[i];
  }

  /** The table read off a constant: entry `127 - s` is bit `skip + s`, wrapped around. */
  lemma ShiftedConstTable(skip: nat, c: Word, s: nat)
    requires skip < 128 && s < 128
    ensures RotateLeft(Reverse(c), skip)[127 - s] == if skip + s < 128 then c[skip + s] else c[skip + s - 128]
  {
  }

  /** The value before the table rule. */
  lemma ShiftedConstBefore(skip: nat, c: Word, s: nat)
    requires skip < 128 && s < 128 && !c[127]
    ensures WSelect(WShr(c, s), skip, 1) == if skip + s < 128 && c[skip + s] then One() else Zero()
  {
    var r := WSelect(WShr(c, s), skip, 1);
    assert r[0] == WShr(c, s)[skip];
    assert forall i :: 0 < i < 128 ==> !r[i];
  }

  /** The value after the table rule. */
  function TableField(skip: nat, c: Word, s: nat): Word
    requires skip < 128
  {
    var v := RotateLeft(Reverse(c), skip);
    SelectOp(WShl(PackedTable(v), s), if v == Zero() then 255 else TableSkip(v), 1)
  }

  lemma TableFieldValue(skip: nat, c: Word, s: nat)
    requires skip < 128 && s < 128
    ensures TableField(skip, c, s) == if RotateLeft(Reverse(c), skip)[127 - s] then One() else Zero()
  {
    var v := RotateLeft(Reverse(c), skip);
    if v == Zero() {
      PackedEmpty(v);
      EmptyTableField(PackedTable(v), s, 255, 1);
    } else {
      TableRead(v, s);
    }
  }

  lemma EmptyTableField(p: Word, s: nat, skip: nat, take: nat)
    requires p == Zero()
    ensures SelectOp(WShl(p, s), skip, take) == Zero()
  {
    assert WShl(p, s) == Zero();
    SelectZero(skip, take);
  }

  lemma PackedEmpty(v: Word)
    requires v == Zero()
    ensures PackedTable(v) == Zero()
  {
    ZeroTrailing(v);
    assert RotateLeft(v, 0) == v;
  }

  lemma SelectZero(skip: nat, take: nat)
    ensures SelectOp(Zero(), skip, take) == Zero()
  {
    var s := skip % 128;
    assert WShr(Zero(), s) == Zero();
  }

  /** The table rule is right at one distance exactly when it does not wrap around to a set bit. */
  lemma TableFieldRight(skip: nat, c: Word, s: nat)
    requires 0 < skip < 128 && s < 128 && !c[127]
    ensures TableField(skip, c, s) == WSelect(WShr(c, s), skip, 1) <==> (skip + s < 128 || !c[skip + s - 128])
  {
    assert One()[0] && !Zero()[0];
    TableFieldValue(skip, c, s);
    ShiftedConstTable(skip, c, s);
    ShiftedConstBefore(skip, c, s);
  }

  /** The table rule is right for every distance below a limit exactly when no such distance wraps
      around to a set bit. */
  lemma ShiftedConstExact(skip: nat, c: Word, limit: nat)
    requires 0 < skip < 128 && !c[127] && limit <= 128
    ensures (forall s :: 0 <= s < limit ==> TableField(skip, c, s) == WSelect(WShr(c, s), skip, 1))
        <==> !TableWraps(skip, c, limit)
  {
    forall s | 0 <= s < limit
      ensures TableField(skip, c, s) == WSelect(WShr(c, s), skip, 1) <==> (skip + s < 128 || !c[skip + s - 128])
    {
      TableFieldRight(skip, c, s);
    }
    if TableWraps(skip, c, limit) {
      var s := 128 - skip + TrailingZeros(c);
      assert c[skip + s - 128];
      assert TableField(skip, c, s) != WSelect(WShr(c, s), skip, 1);
    }
  }

  lemma EvenConst(skip: nat, c: Word, s: nat, remove: nat)
    requires skip < 128 && !c[127] && remove == Min(TrailingZeros(c), skip)
    ensures WSelect(WShl(WShr(c, remove), s), skip - remove, 1) == WSelect(WShl(c, s), skip, 1)
  {
    var l, r := WSelect(WShl(WShr(c, remove), s), skip - remove, 1), WSelect(WShl(c, s), skip, 1);
    assert l[0] == WShl(WShr(c, remove), s)[skip - remove];
    assert r[0] == WShl(c, s)[skip];
    assert l == r;
  }

  /** The value after the constant-shift rule. */
  function MovedField(skip: nat, take: nat, x: Word, c: Word): Word
  {
    if ToInt(c) > skip then SelectOp(WShl(x, Amount(c)), 0, take)
    else SelectOp(WShl(x, 0), (skip - ToInt(c)) % 256, take)
  }

  /** The skip of the moved field, as the evaluator takes it. */
  lemma MovedSkip(skip: nat, c: Word)
    requires skip < 128 && ToInt(c) <= skip
    ensures var d := Amount(c);
            (skip - ToInt(c)) % 256 % 128 == if d <= skip then skip - d else skip - d + 128
    ensures ToInt(c) >= 0 ==> Amount(c) == ToInt(c) && (skip - ToInt(c)) % 256 == skip - ToInt(c)
  {
    hide Amount, ToInt;
    AmountModulo(c);
    SkipModulo(skip, ToInt(c));
  }

  lemma SkipModulo(skip: nat, c: int)
    requires skip < 128 && c <= skip
    ensures (skip - c) % 256 % 128 == if c % 128 <= skip then skip - c % 128 else skip - c % 128 + 128
    ensures c >= 0 ==> c % 128 == c && (skip - c) % 256 == skip - c
  {
    var q, r := c / 128, c % 128;
    if r <= skip {
      ModuloOf(skip - r, -q);
    } else {
      ModuloOf(skip - r + 128, -q - 1);
    }
  }

  lemma ModuloOf(v: nat, k: int)
    requires v < 128
    ensures (v + 128 * k) % 256 % 128 == v
  {
    var j := (v + 128 * k) / 256;
    assert k == 2 * j || k == 2 * j + 1;
  }

  /** The field before the rule, bit by bit. */
  lemma FieldBit(skip: nat, take: nat, x: Word, d: nat, i: nat)
    requires i < take && skip + take <= 128
    ensures WSelect(WShl(x, d), skip, take)[i] == (i + skip >= d && x[i + skip - d])
  {
  }

  /** The field after the rule, bit by bit, when the distance exceeds the skip. */
  lemma MovedBitAbove(skip: nat, take: nat, x: Word, c: Word, i: nat)
    requires i < take <= 127 && ToInt(c) > skip
    ensures MovedField(skip, take, x, c)[i] == (i >= Amount(c) && x[i - Amount(c)])
  {
  }

  /** The field after the rule, bit by bit, when it does not; `e` is the skip that the evaluator
      takes. */
  lemma MovedBitBelow(skip: nat, take: nat, x: Word, c: Word, i: nat, e: nat)
    requires i < take <= 127 && ToInt(c) <= skip && e == (skip - ToInt(c)) % 256 % 128
    ensures MovedField(skip, take, x, c)[i] == x[if i + e < 128 then i + e else 127]
  {
    assert WShl(x, 0) == x;
    assert take % 128 == take;
    assert SelectOp(x, (skip - ToInt(c)) % 256, take) == WCrop(WShr(x, e), take);
  }

  /** The rule keeps the demanded bits of one operand. */
  lemma MovedFieldSame(skip: nat, take: nat, x: Word, c: Word, m: Word)
    requires 0 < skip && ValidUnary(Select(skip, take)) && ConstShiftKeeps(skip, take, c, m)
    ensures Same(m, MovedField(skip, take, x, c), WSelect(WShl(x, Amount(c)), skip, take))
  {
    var d := Amount(c);
    var l, r := MovedField(skip, take, x, c), WSelect(WShl(x, d), skip, take);
    MovedFieldFits(skip, take, x, c);
    forall i | 0 <= i < 128 && m[i] ensures l[i] == r[i] {
      if i < take {
        FieldBit(skip, take, x, d, i);
        if ToInt(c) > skip {
          MovedBitAbove(skip, take, x, c, i);
        } else {
          MovedSkip(skip, c);
          MovedBitBelow(skip, take, x, c, i, (skip - ToInt(c)) % 256 % 128);
        }
      }
    }
  }

  lemma MovedFieldFits(skip: nat, take: nat, x: Word, c: Word)
    requires take <= 127
    ensures Fits(MovedField(skip, take, x, c), take)
  {
    assert take % 128 == take;
  }

  /** The rule keeps the demanded bits of every operand exactly under `ConstShiftKeeps`. */
  lemma ConstShiftExact(skip: nat, take: nat, c: Word, m: Word)
    requires 0 < skip && ValidUnary(Select(skip, take))
    ensures (forall x: Word :: Same(m, MovedField(skip, take, x, c), WSelect(WShl(x, Amount(c)), skip, take)))
        <==> ConstShiftKeeps(skip, take, c, m)
  {
    if ConstShiftKeeps(skip, take, c, m) {
      forall x: Word ensures Same(m, MovedField(skip, take, x, c), WSelect(WShl(x, Amount(c)), skip, take)) {
        MovedFieldSame(skip, take, x, c, m);
      }
    } else {
      var x := MovedFieldDiffers(skip, take, c, m);
    }
  }

  /** An operand on which the rule changes a demanded bit. */
  lemma MovedFieldDiffers(skip: nat, take: nat, c: Word, m: Word) returns (x: Word)
    requires 0 < skip && ValidUnary(Select(skip, take)) && !ConstShiftKeeps(skip, take, c, m)
    ensures !Same(m, MovedField(skip, take, x, c), WSelect(WShl(x, Amount(c)), skip, take))
  {
    var d := Amount(c);
    if ToInt(c) > skip {
      var i :| 0 <= i < 128 && m[i] && i < take && d - skip <= i;
      x := OneHot(i + skip - d);
      FieldBit(skip, take, x, d, i);
      MovedBitAbove(skip, take, x, c, i);
    } else {
      var i :| 0 <= i < 128 && m[i] && i < take;
      var e := skip - d + 128;
      MovedSkip(skip, c);
      x := OneHot(if i + e < 128 then i + e else 127);
      FieldBit(skip, take, x, d, i);
      MovedBitBelow(skip, take, x, c, i, e);
    }
  }

  /** A field of a left shift by a constant, as a tree. */
  lemma ShlNode(x: Node, c: Word, skip: nat, take: nat, widths: nat -> nat, env: Env)
    requires Valid(x, widths) && ValidUnary(Select(skip, take))
    ensures var t := Un(Select(skip, take), Bin(Shl, x, Const(c)));
            Valid(t, widths) && Eval(t, env) == WSelect(WShl(Eval(x, env), Amount(c)), skip, take)
  {
    var inner := Bin(Shl, x, Const(c));
    assert Eval(Const(c), env) == c;
    assert Valid(Const(c), widths);
    assert Valid(inner, widths) && Eval(inner, env) == WShl(Eval(x, env), Amount(c));
  }

  lemma ConstShiftSound(skip: nat, take: nat, x: Node, c: Word, m: Word, widths: nat -> nat, env: Env)
    requires Valid(x, widths) && ValidUnary(Select(skip, take)) && skip > 0
    requires ConstShiftKeeps(skip, take, c, m)
    requires ToInt(c) < 0 ==> ValidUnary(Select((skip - ToInt(c)) % 256, take))
    ensures Preserves(m, Un(Select(skip, take), Bin(Shl, x, Const(c))), RewriteConstShift(skip, take, x, c),
                      widths, env)
  {
    var t, t' := Un(Select(skip, take), Bin(Shl, x, Const(c))), RewriteConstShift(skip, take, x, c);
    ShlNode(x, c, skip, take, widths, env);
    MovedFieldSame(skip, take, Eval(x, env), c, m);
    if ToInt(c) > skip {
      ShlNode(x, c, 0, take, widths, env);
    } else {
      var skip' := (skip - ToInt(c)) % 256;
      if take > 0 {
        MovedSkip(skip, c);
      }
      AmountZero();
      ShlNode(x, Zero(), skip', take, widths, env);
    }
  }

  lemma EmptyField(x: Word, skip: nat)
    ensures WSelect(x, skip, 0) == Zero()
  {
  }

  lemma ShiftedConstSound(skip: nat, c: Word, shift: Node, m: Word, widths: nat -> nat, env: Env)
    requires Valid(shift, widths) && InRange(env, widths) && 0 < skip < 128 && !c[127]
    requires !(m[0] && TableWraps(skip, c, Distances(shift)))
    ensures Preserves(m, Un(Select(skip, 1), Bin(Shr, Const(c), shift)), RewriteShiftedConst(skip, c, shift),
                      widths, env)
  {
    var t, t' := Un(Select(skip, 1), Bin(Shr, Const(c), shift)), RewriteShiftedConst(skip, c, shift);
    var s := Amount(Eval(shift, env));
    DistanceBound(shift, widths, env);
    TableTree(skip, c, shift, widths, env);
    ConstField(false, c, shift, skip, widths, env);
    if m[0] {
      ShiftedConstExact(skip, c, Distances(shift));
      Keep(m, t, t', widths, env);
    } else {
      TableFieldValue(skip, c, s);
      ShiftedConstBefore(skip, c, s);
      OneBitApart(m, Eval(t', env), Eval(t, env));
    }
  }

  lemma OneBitApart(m: Word, x: Word, y: Word)
    requires !m[0] && Fits(x, 1) && Fits(y, 1)
    ensures Same(m, x, y)
  {
  }

  /** The tree that the table rule yields, well formed also when the table is empty. */
  lemma TableTree(skip: nat, c: Word, shift: Node, widths: nat -> nat, env: Env)
    requires Valid(shift, widths) && 0 < skip < 128
    ensures Valid(RewriteShiftedConst(skip, c, shift), widths)
    ensures Eval(RewriteShiftedConst(skip, c, shift), env) == TableField(skip, c, Amount(Eval(shift, env)))
  {
    var v := RotateLeft(Reverse(c), skip);
    assert skip % 128 == skip;
    if v == Zero() {
      PackedEmpty(v);
      var t := Un(Select(255, 1), Bin(Shl, Const(PackedTable(v)), shift));
      assert RewriteShiftedConst(skip, c, shift) == t;
      assert Valid(Const(PackedTable(v)), widths) && Valid(t.arg, widths);
      EmptyTableValue(t.op, t.arg, env);
      EmptyTableField(PackedTable(v), Amount(Eval(shift, env)), 255, 1);
    } else {
      ShiftedConstForm(skip, c, shift, v);
      ZeroIffNoBit(v);
      ConstField(true, PackedTable(v), shift, TableSkip(v), widths, env);
    }
  }

  lemma ShiftedConstForm(skip: nat, c: Word, shift: Node, v: Word)
    requires 0 < skip < 128 && v == RotateLeft(Reverse(c), skip) && v != Zero()
    ensures RewriteShiftedConst(skip, c, shift) == Un(Select(TableSkip(v), 1), Bin(Shl, Const(PackedTable(v)), shift))
  {
    assert skip % 128 == skip;
  }

  /** One bit of a shifted constant. */
  lemma ConstField(left: bool, c: Word, shift: Node, skip: nat, widths: nat -> nat, env: Env)
    requires Valid(shift, widths) && skip < 128
    ensures var t := Un(Select(skip, 1), Bin(if left then Shl else Shr, Const(c), shift));
            var s := Amount(Eval(shift, env));
            Valid(t, widths) && Eval(t, env) == WSelect(if left then WShl(c, s) else WShr(c, s), skip, 1)
  {
    var s := Amount(Eval(shift, env));
    assert Valid(Const(c), widths) && Eval(Const(c), env) == c;
    if left {
      assert Valid(Bin(Shl, Const(c), shift), widths) && Eval(Bin(Shl, Const(c), shift), env) == WShl(c, s);
    } else {
      assert Valid(Bin(Shr, Const(c), shift), widths) && Eval(Bin(Shr, Const(c), shift), env) == WShr(c, s);
    }
  }

  lemma EvenConstSound(skip: nat, c: Word, shift: Node, m: Word, widths: nat -> nat, env: Env)
    requires Valid(shift, widths) && skip < 128 && !c[127]
    ensures var remove := Min(TrailingZeros(c), skip);
            Preserves(m, Un(Select(skip, 1), Bin(Shl, Const(c), shift)),
                      Un(Select(skip - remove, 1), Bin(Shl, Const(WShr(c, remove)), shift)), widths, env)
  {
    var remove := Min(TrailingZeros(c), skip);
    var s := Amount(Eval(shift, env));
    EvenConst(skip, c, s, remove);
    ConstField(true, c, shift, skip, widths, env);
    ConstField(true, WShr(c, remove), shift, skip - remove, widths, env);
    Keep(m, Un(Select(skip, 1), Bin(Shl, Const(c), shift)),
         Un(Select(skip - remove, 1), Bin(Shl, Const(WShr(c, remove)), shift)), widths, env);
  }

  lemma SelectSound(skip: nat, take: nat, a: Node, m: Word, widths: nat -> nat, env: Env)
    requires Valid(Un(Select(skip, take), a), widths) && InRange(env, widths)
    requires !SelectHazard(skip, take, a, m)
    ensures Preserves(m, Un(Select(skip, take), a), RewriteSelect(skip, take, a), widths, env)
  {
    hide NumBits, WSelect, WCrop, SelectOp, CropOp, TrailingZeros, Distances,
         RewriteShiftedConst, RewriteConstShift, TableWraps, ConstShiftKeeps;
    var x := Eval(a, env);
    var t, t' := Un(Select(skip, take), a), RewriteSelect(skip, take, a);
    if !ValidUnary(Select(skip, take)) {
      EmptyTableSound(skip, take, a, m, widths, env);
    } else if skip == 0 {
      assert WCrop(x, take) == WSelect(x, 0, take);
      Keep(m, t, t', widths, env);
    } else if a.Un? && a.op.Select? {
      SelectOfSelect(skip, take, a, widths, env);
      Keep(m, t, t', widths, env);
    } else if ReadsShiftedConst(skip, take, a) {
      ShiftedConstSound(skip, a.left.value, a.right, m, widths, env);
      assert t == Un(Select(skip, 1), Bin(Shr, Const(a.left.value), a.right));
    } else if ReadsEvenConst(take, a) {
      EvenConstSound(skip, a.left.value, a.right, m, widths, env);
      assert t == Un(Select(skip, 1), Bin(Shl, Const(a.left.value), a.right));
    } else if ReadsConstShift(a) {
      ConstShiftSound(skip, take, a.left, a.right.value, m, widths, env);
      assert t == Un(Select(skip, take), Bin(Shl, a.left, Const(a.right.value)));
    } else {
      NumBitsSound(a, widths, env);
      NarrowField(x, skip, take, NumBits(a));
      Keep(m, t, t', widths, env);
    }
  }

  /** The rules for a read of an empty table. */
  lemma EmptyTableSound(skip: nat, take: nat, a: Node, m: Word, widths: nat -> nat, env: Env)
    requires ReadsEmptyTable(Select(skip, take), a) && Valid(a, widths)
    ensures Preserves(m, Un(Select(skip, take), a), RewriteSelect(skip, take, a), widths, env)
  {
    hide Eval, WSelect, RewriteSelect;
    EmptyTableValue(Select(skip, take), a, env);
    if a.Const? {
      EmptyConstRead(a, env);
    } else {
      EmptyShiftRead(a, widths, env);
    }
  }

  lemma EmptyConstRead(a: Node, env: Env)
    requires a == Const(Zero())
    ensures RewriteSelect(255, 1, a) == a && Eval(a, env) == Zero()
  {
    EmptyLength(a.value);
  }

  lemma EmptyShiftRead(a: Node, widths: nat -> nat, env: Env)
    requires a.Bin? && a.bop.Shl? && a.left == Const(Zero()) && Valid(a.right, widths)
    ensures var t := RewriteSelect(255, 1, a);
            Valid(t, widths) && Eval(t, env) == Zero()
  {
    hide Eval, Valid, WSelect, NumBits;
    var c, s := a.left.value, Amount(Eval(a.right, env));
    ZeroTrailing(c);
    ShiftsAway(c, 128);
    assert RewriteSelect(255, 1, a) == Un(Select(127, 1), Bin(Shl, Const(WShr(c, 128)), a.right));
    ConstField(true, c, a.right, 127, widths, env);
    ShiftsAway(c, s);
    ZeroField(127, 1);
  }

  lemma ShiftsAway(c: Word, n: nat)
    requires c == Zero()
    ensures WShr(c, n) == c && WShl(c, n) == c
  {
  }

  lemma LengthOf(w: Word, n: nat)
    requires n <= 128 && (n > 0 ==> w[n - 1]) && forall i :: n <= i < 128 ==> !w[i]
    ensures Length(w) == n
  {
    var k := Length(w);
    assert k > 0 ==> w[k - 1];
  }

  lemma EmptyLength(c: Word)
    requires c == Zero()
    ensures Length(c) == 0
  {
    LengthOf(c, 0);
  }

  lemma ZeroTrailing(c: Word)
    requires c == Zero()
    ensures TrailingZeros(c) == 128
  {
    ZeroIffNoBit(c);
  }

  lemma SelectOfSelect(skip: nat, take: nat, a: Node, widths: nat -> nat, env: Env)
    requires skip > 0 && ValidUnary(Select(skip, take)) && a.Un? && a.op.Select? && Valid(a, widths)
    ensures Valid(RewriteSelect(skip, take, a), widths)
    ensures Eval(RewriteSelect(skip, take, a), env) == Eval(Un(Select(skip, take), a), env)
  {
    hide Eval, Valid, RewriteSelect;
    MergesFields(skip, take, a);
    SelectNode(skip, take, a, widths, env);
    ValidParts(a, widths);
    if ValidUnary(a.op) {
      MergedSelect(skip, take, a.op.skip, a.op.take, a.arg, widths, env);
    } else {
      EmptySelect(skip, take, a, widths, env);
    }
  }

  lemma MergesFields(skip: nat, take: nat, a: Node)
    requires skip > 0 && a.Un? && a.op.Select?
    ensures var take' := Min(take, if a.op.take >= skip then a.op.take - skip else 0);
            RewriteSelect(skip, take, a) == Un(Select((skip + a.op.skip) % 256, take'), a.arg)
  {
  }


  lemma SelectNode(skip: nat, take: nat, a: Node, widths: nat -> nat, env: Env)
    requires ValidUnary(Select(skip, take)) && Valid(a, widths)
    ensures Valid(Un(Select(skip, take), a), widths)
    ensures Eval(Un(Select(skip, take), a), env) == WSelect(Eval(a, env), skip, take)
  {
  }

  lemma ZeroField(skip: nat, take: nat)
    ensures WSelect(Zero(), skip, take) == Zero()
  {
  }

  lemma MergedSelect(skip: nat, take: nat, skip2: nat, take2: nat, a: Node, widths: nat -> nat, env: Env)
    requires ValidUnary(Select(skip, take)) && ValidUnary(Select(skip2, take2)) && Valid(a, widths)
    ensures var take' := Min(take, if take2 >= skip then take2 - skip else 0);
            var t := Un(Select((skip + skip2) % 256, take'), a);
            && Valid(t, widths)
            && Eval(t, env) == WSelect(Eval(Un(Select(skip2, take2), a), env), skip, take)
  {
    hide Eval, Valid, WSelect;
    var take' := Min(take, if take2 >= skip then take2 - skip else 0);
    SelectSelect(skip, take, skip2, take2, Eval(a, env));
    SelectNode(skip2, take2, a, widths, env);
    SelectNode((skip + skip2) % 256, take', a, widths, env);
  }

  /** A field of an empty table: both fields are zero. */
  lemma EmptySelect(skip: nat, take: nat, a: Node, widths: nat -> nat, env: Env)
    requires skip > 0 && a.Un? && ReadsEmptyTable(a.op, a.arg) && Valid(a.arg, widths)
    ensures var t := Un(Select((skip + 255) % 256, 0), a.arg);
            && Valid(t, widths)
            && Eval(t, env) == WSelect(Eval(a, env), skip, take)
  {
    hide WSelect, Eval;
    EmptyTableValue(a.op, a.arg, env);
    ZeroField(skip, take);
    SelectNode((skip + 255) % 256, 0, a.arg, widths, env);
    EmptyField(Eval(a.arg, env), (skip + 255) % 256);
  }

  lemma ValidParts(a: Node, widths: nat -> nat)
    requires a.Un? && Valid(a, widths)
    ensures Valid(a.arg, widths) && (ValidUnary(a.op) || ReadsEmptyTable(a.op, a.arg))
  {
  }

  lemma NarrowField(x: Word, skip: nat, take: nat, n: nat)
    requires Fits(x, n)
    ensures n >= skip ==> WSelect(x, skip, Min(take, n - skip)) == WSelect(x, skip, take)
    ensures n < skip ==> WSelect(x, skip, take) == Zero()
  {
  }

  lemma SelectSelect(skip: nat, take: nat, skip2: nat, take2: nat, x: Word)
    requires (take == 0 || skip + take <= 128) && (take2 == 0 || skip2 + take2 <= 128)
    ensures var take' := Min(take, if take2 >= skip then take2 - skip else 0);
            && (take' == 0 || (skip + skip2) % 256 + take' <= 128)
            && WSelect(x, (skip + skip2) % 256, take') == WSelect(WSelect(x, skip2, take2), skip, take)
  {
    var take' := Min(take, if take2 >= skip then take2 - skip else 0);
    var l, r := WSelect(x, (skip + skip2) % 256, take'), WSelect(WSelect(x, skip2, take2), skip, take);
    forall i | 0 <= i < 128 ensures l[i] == r[i] {
      if i < take && i + skip < 128 {
        assert r[i] == WSelect(x, skip2, take2)[i + skip];
      }
    }
  }

  lemma ExtractNothing(x: Word, c: Word)
    requires c == Zero()
    ensures WExtract(x, c) == Zero()
  {
    GatherNone(x, c);
  }

  lemma ExtractBitsSound(a: Node, b: Node, m: Word, widths: nat -> nat, env: Env)
    requires Valid(Bin(ExtractBits, a, b), widths)
    requires !ExtractHazard(a, b)
    ensures Preserves(m, Bin(ExtractBits, a, b), RewriteExtractBits(a, b), widths, env)
  {
    hide WExtract, TrailingZeros, TrailingOnes, Low, WShl, WShr, WSelect, SelectOp;
    var t, t' := Bin(ExtractBits, a, b), RewriteExtractBits(a, b);
    if b.Const? && b.value == Zero() {
      ExtractNothing(Eval(a, env), b.value);
    } else if t'.Un? {
      RunOfSelector(a, b.value, widths, env);
    }
    Keep(m, t, t', widths, env);
  }

  lemma RunOfSelector(a: Node, c: Word, widths: nat -> nat, env: Env)
    requires Valid(a, widths) && c != Zero() && !c[127]
    requires var s := TrailingZeros(c); c == WShl(Low(TrailingOnes(WShr(c, s))), s)
    ensures var t := Un(Select(TrailingZeros(c), TrailingOnes(WShr(c, TrailingZeros(c)))), a);
            Valid(t, widths) && Eval(t, env) == WExtract(Eval(a, env), c)
  {
    var skip, take := SelectorShape(c);
    ExtractRun(Eval(a, env), c, skip, take);
  }

  /** The run of a selector that the rule accepts. */
  lemma SelectorShape(c: Word) returns (skip: nat, take: nat)
    requires c != Zero()
    requires var s := TrailingZeros(c); c == WShl(Low(TrailingOnes(WShr(c, s))), s)
    ensures skip == TrailingZeros(c) && take == TrailingOnes(WShr(c, skip))
    ensures forall i :: 0 <= i < 128 ==> c[i] == (skip <= i < skip + take)
    ensures if c[127] then take == 128 else 0 < take && skip + take <= 127
  {
    ZeroIffNoBit(c);
    skip := TrailingZeros(c);
    take := TrailingOnes(WShr(c, skip));
    assert c[skip] && WShr(c, skip)[0];
    assert forall i :: 0 <= i < 128 ==> c[i] == (skip <= i < skip + take);
    if c[127] {
      assert forall i :: 0 <= i < 128 ==> WShr(c, skip)[i];
    }
  }

  /** For a negative selector the rule produces a field of 128 bits, of which an unchecked build
      evaluates none: the rewritten tree is zero. */
  lemma NegativeRunIsZero(a: Node, b: Node, env: Env)
    requires ExtractHazard(a, b)
    ensures RewriteExtractBits(a, b).op.take == 128 && Eval(RewriteExtractBits(a, b), env) == Zero()
  {
    var skip, take := SelectorShape(b.value);
    assert RewriteExtractBits(a, b) == Un(Select(skip, take), a);
    assert WCrop(WShr(Eval(a, env), skip % 128), 0) == Zero();
  }

  /** On one input the rule is right exactly when no demanded bit of the extraction is set. */
  lemma NegativeRunExact(a: Node, b: Node, m: Word, env: Env)
    requires ExtractHazard(a, b)
    ensures Same(m, Eval(RewriteExtractBits(a, b), env), Eval(Bin(ExtractBits, a, b), env))
       <==> WAnd(m, WExtract(Eval(a, env), b.value)) == Zero()
  {
    NegativeRunIsZero(a, b, env);
    var r := WExtract(Eval(a, env), b.value);
    assert Eval(b, env) == b.value;
    assert Eval(Bin(ExtractBits, a, b), env) == r;
    NothingDemanded(m, r);
  }

  /** For every operand it is right exactly when no bit that the selector keeps is demanded. */
  lemma NegativeRunAlways(a: Node, b: Node, m: Word)
    requires ExtractHazard(a, b)
    ensures (forall x: Word :: Same(m, Zero(), WExtract(x, b.value)))
       <==> WAnd(m, Low(128 - TrailingZeros(b.value))) == Zero()
  {
    hide WExtract, TrailingZeros, TrailingOnes, Low, WAnd;
    var skip, take := SelectorShape(b.value);
    RunKeeps(b.value, skip, m);
  }

  lemma RunKeeps(c: Word, skip: nat, m: Word)
    requires skip <= 128 && forall i :: 0 <= i < 128 ==> c[i] == (skip <= i)
    ensures (forall x: Word :: Same(m, Zero(), WExtract(x, c))) <==> WAnd(m, Low(128 - skip)) == Zero()
  {
    var low := Low(128 - skip);
    NothingDemanded(m, low);
    if WAnd(m, low) == Zero() {
      forall x: Word ensures Same(m, Zero(), WExtract(x, c)) {
        ExtractRun(x, c, skip, 128 - skip);
      }
    } else {
      var i :| 0 <= i < 128 && m[i] && low[i];
      RunSets(c, skip, i);
      assert !Same(m, Zero(), WExtract(Ones(), c));
    }
  }

  lemma RunSets(c: Word, skip: nat, i: nat)
    requires skip <= 128 && (forall i :: 0 <= i < 128 ==> c[i] == (skip <= i)) && i < 128 - skip
    ensures WExtract(Ones(), c)[i]
  {
    ExtractRun(Ones(), c, skip, 128 - skip);
  }

  lemma NothingDemanded(m: Word, x: Word)
    ensures WAnd(m, x) == Zero() <==> forall i :: 0 <= i < 128 && m[i] ==> !x[i]
  {
    ZeroIffNoBit(WAnd(m, x));
  }

  // ------------------------------------------------------------ conditionals

  lemma IsZeroOfBool(x: Word)
    requires Fits(x, 1)
    ensures WCrop(WNot(x), 1) == WIsZero(x)
    ensures WCrop(x, 1) == WIsZero(WSub(x, One()))
  {
    UnaryBool(x);
    SubIsZero(x, One());
  }

  lemma IsZeroSound(a: Node, m: Word, widths: nat -> nat, env: Env)
    requires Valid(Un(IsZero, a), widths) && InRange(env, widths)
    ensures Preserves(m, Un(IsZero, a), RewriteIsZero(a), widths, env)
  {
    var t, t' := Un(IsZero, a), RewriteIsZero(a);
    if a.Bin? && a.bop.Sub? && NumBits(a.left) == 1 && IsConst(a.right, One()) {
      NumBitsSound(a.left, widths, env);
      IsZeroOfBool(Eval(a.left, env));
      CropNode(1, a.left, widths, env);
      assert Eval(a, env) == WSub(Eval(a.left, env), One());
    } else if NumBits(a) == 1 {
      NumBitsSound(a, widths, env);
      IsZeroOfBool(Eval(a, env));
      NegatedBit(a, widths, env);
    }
    Keep(m, t, t', widths, env);
  }

  lemma IsZeroBits(x: Word)
    ensures WIsZero(x) == if x == Zero() then One() else Zero()
    ensures WAnd(WIsZero(x), WIsZero(x)) == WIsZero(x)
    ensures One() != Zero()
  {
    assert One()[0] && !Zero()[0];
  }

  /** The connectives that the nested rules build out of two zero tests. */
  lemma ZeroTests(x: Word, y: Word)
    ensures WAnd(WIsZero(x), WNot(WIsZero(y))) == Zero() <==> x != Zero() || y == Zero()
    ensures WAnd(WIsZero(x), WIsZero(y)) == Zero() <==> x != Zero() || y != Zero()
    ensures WOr(WIsZero(x), WIsZero(y)) == Zero() <==> x != Zero() && y != Zero()
    ensures WAnd(WNot(WIsZero(x)), WIsZero(y)) == Zero() <==> x == Zero() || y != Zero()
  {
    ZeroIffNoBit(WAnd(WIsZero(x), WNot(WIsZero(y))));
    ZeroIffNoBit(WAnd(WIsZero(x), WIsZero(y)));
    ZeroIffNoBit(WOr(WIsZero(x), WIsZero(y)));
    ZeroIffNoBit(WAnd(WNot(WIsZero(x)), WIsZero(y)));
    assert WAnd(WIsZero(x), WNot(WIsZero(y)))[0] == (x == Zero() && y != Zero());
    assert WAnd(WIsZero(x), WIsZero(y))[0] == (x == Zero() && y == Zero());
    assert WOr(WIsZero(x), WIsZero(y))[0] == (x == Zero() || y == Zero());
    assert WAnd(WNot(WIsZero(x)), WIsZero(y))[0] == (x != Zero() && y == Zero());
  }

  /** A one-bit field of a complement is zero exactly when the field is not. */
  lemma NegatedField(x: Word, skip: nat)
    requires skip < 128
    ensures WSelect(WNot(x), skip, 1) == Zero() <==> WSelect(x, skip, 1) != Zero()
    ensures WCrop(WNot(x), 1) == Zero() <==> WCrop(x, 1) != Zero()
  {
    ZeroIffNoBit(WSelect(WNot(x), skip, 1));
    ZeroIffNoBit(WSelect(x, skip, 1));
    ZeroIffNoBit(WCrop(WNot(x), 1));
    ZeroIffNoBit(WCrop(x, 1));
    assert WSelect(WNot(x), skip, 1)[0] == !x[skip];
    assert WSelect(x, skip, 1)[0] == x[skip];
    assert WCrop(WNot(x), 1)[0] == !x[0];
    assert WCrop(x, 1)[0] == x[0];
  }

  lemma BoolFromIsZero(x: Word)
    ensures WCrop(WNot(WIsZero(x)), 1) == if x == Zero() then Zero() else One()
  {
  }

  /** On a one-bit condition and in bit 0, a conditional with a constant arm is a connective. */
  lemma OneBitConditional(x: Word, y: Word, m: Word)
    requires Fits(x, 1) && Length(m) == 1
    ensures Same(m, WOr(x, y), EvalIfZero(x, y, One()))
    ensures Same(m, WOr(WCrop(WNot(x), 1), y), EvalIfZero(x, One(), y))
    ensures Same(m, WAnd(WCrop(WNot(x), 1), y), EvalIfZero(x, y, Zero()))
    ensures Same(m, WAnd(x, y), EvalIfZero(x, Zero(), y))
  {
    UnaryBool(x);
    assert forall i :: 0 <= i < 128 && m[i] ==> i == 0;
  }

  /** The conditional with its condition complemented. */
  predicate Swappable(c: Node)
  {
    c.Un? && (c.op.IsZero? || (IsNot(c.arg) && (c.op == Crop(1) || (c.op.Select? && c.op.take == 1))))
  }

  function Swapped(c: Node): Node
    requires Swappable(c)
  {
    if c.op.IsZero? then c.arg else Un(c.op, c.arg.arg)
  }

  lemma SwapSound(c: Node, widths: nat -> nat, env: Env)
    requires Swappable(c) && Valid(c, widths)
    ensures Valid(Swapped(c), widths)
    ensures Eval(c, env) == Zero() <==> Eval(Swapped(c), env) != Zero()
  {
    if c.op.IsZero? {
      IsZeroBits(Eval(c.arg, env));
    } else {
      NegatedField(Eval(c.arg.arg, env), if c.op.Select? then c.op.skip else 0);
    }
  }

  lemma BoolNode(c: Node, widths: nat -> nat, env: Env)
    requires Valid(c, widths)
    ensures var t := Un(Crop(1), Un(Not, Un(IsZero, c)));
            Valid(t, widths) && Eval(t, env) == EvalIfZero(Eval(c, env), Zero(), One())
    ensures Eval(Un(IsZero, c), env) == EvalIfZero(Eval(c, env), One(), Zero())
  {
    BoolFromIsZero(Eval(c, env));
    IsZeroBits(Eval(c, env));
    var t := Un(IsZero, c);
    assert Valid(t, widths) && Valid(Un(Not, t), widths);
    assert Eval(Un(Not, t), env) == WNot(WIsZero(Eval(c, env)));
  }

  lemma OneBitSound(c: Node, z: Node, n: Node, m: Word, widths: nat -> nat, env: Env)
    requires Valid(IfZero(c, z, n), widths) && InRange(env, widths)
    requires Length(m) == 1 && NumBits(c) == 1
    ensures IsConst(n, One()) ==> Preserves(m, IfZero(c, z, n), Bin(Or, c, z), widths, env)
    ensures IsConst(z, One()) ==> Preserves(m, IfZero(c, z, n), Bin(Or, Un(Crop(1), Un(Not, c)), n), widths, env)
    ensures IsConst(n, Zero()) ==> Preserves(m, IfZero(c, z, n), Bin(And, Un(Crop(1), Un(Not, c)), z), widths, env)
    ensures IsConst(z, Zero()) ==> Preserves(m, IfZero(c, z, n), Bin(And, c, n), widths, env)
  {
    NumBitsSound(c, widths, env);
    if IsConst(n, One()) || IsConst(n, Zero()) {
      OneBitZero(c, z, n, m, widths, env);
    }
    if IsConst(z, One()) || IsConst(z, Zero()) {
      OneBitNonzero(c, z, n, m, widths, env);
    }
  }

  lemma NegatedBit(c: Node, widths: nat -> nat, env: Env)
    requires Valid(c, widths)
    ensures var not := Un(Crop(1), Un(Not, c));
            Valid(not, widths) && Eval(not, env) == WCrop(WNot(Eval(c, env)), 1)
  {
    assert Valid(Un(Not, c), widths);
  }

  lemma OneBitZero(c: Node, z: Node, n: Node, m: Word, widths: nat -> nat, env: Env)
    requires Valid(IfZero(c, z, n), widths) && Length(m) == 1 && Fits(Eval(c, env), 1)
    ensures IsConst(n, One()) ==> Preserves(m, IfZero(c, z, n), Bin(Or, c, z), widths, env)
    ensures IsConst(n, Zero()) ==> Preserves(m, IfZero(c, z, n), Bin(And, Un(Crop(1), Un(Not, c)), z), widths, env)
  {
    OneBitConditional(Eval(c, env), Eval(z, env), m);
    NegatedBit(c, widths, env);
  }

  lemma OneBitNonzero(c: Node, z: Node, n: Node, m: Word, widths: nat -> nat, env: Env)
    requires Valid(IfZero(c, z, n), widths) && Length(m) == 1 && Fits(Eval(c, env), 1)
    ensures IsConst(z, One()) ==> Preserves(m, IfZero(c, z, n), Bin(Or, Un(Crop(1), Un(Not, c)), n), widths, env)
    ensures IsConst(z, Zero()) ==> Preserves(m, IfZero(c, z, n), Bin(And, c, n), widths, env)
  {
    OneBitConditional(Eval(c, env), Eval(n, env), m);
    NegatedBit(c, widths, env);
  }

  /** The conditions that the nested rules build, as trees. */
  lemma ZeroTestNodes(c: Node, d: Node, widths: nat -> nat, env: Env)
    requires Valid(c, widths) && Valid(d, widths)
    ensures var t := Bin(And, Un(IsZero, c), Un(Not, Un(IsZero, d)));
            Valid(t, widths) && (Eval(t, env) == Zero() <==> Eval(c, env) != Zero() || Eval(d, env) == Zero())
    ensures var t := Bin(And, Un(IsZero, c), Un(IsZero, d));
            Valid(t, widths) && (Eval(t, env) == Zero() <==> Eval(c, env) != Zero() || Eval(d, env) != Zero())
    ensures var t := Bin(Or, Un(IsZero, c), Un(IsZero, d));
            Valid(t, widths) && (Eval(t, env) == Zero() <==> Eval(c, env) != Zero() && Eval(d, env) != Zero())
    ensures var t := Bin(And, Un(Not, Un(IsZero, c)), Un(IsZero, d));
            Valid(t, widths) && (Eval(t, env) == Zero() <==> Eval(c, env) == Zero() || Eval(d, env) != Zero())
  {
    var x, y := Eval(c, env), Eval(d, env);
    ZeroTests(x, y);
    assert Valid(Un(IsZero, c), widths) && Eval(Un(IsZero, c), env) == WIsZero(x);
    assert Valid(Un(IsZero, d), widths) && Eval(Un(IsZero, d), env) == WIsZero(y);
    assert Valid(Un(Not, Un(IsZero, c)), widths) && Eval(Un(Not, Un(IsZero, c)), env) == WNot(WIsZero(x));
    assert Valid(Un(Not, Un(IsZero, d)), widths) && Eval(Un(Not, Un(IsZero, d)), env) == WNot(WIsZero(y));
  }

  lemma IfZeroSound(c: Node, z: Node, n: Node, m: Word, widths: nat -> nat, env: Env)
    requires Valid(IfZero(c, z, n), widths) && InRange(env, widths)
    ensures Preserves(m, IfZero(c, z, n), RewriteIfZero(c, z, n, m), widths, env)
  {
    var x, y, w := Eval(c, env), Eval(z, env), Eval(n, env);
    var t, t' := IfZero(c, z, n), RewriteIfZero(c, z, n, m);
    if c.Const? || z == n {
      Keep(m, t, t', widths, env);
    } else if (IsConst(z, Zero()) && IsConst(n, One())) || (IsConst(z, One()) && IsConst(n, Zero())) {
      BoolNode(c, widths, env);
      Keep(m, t, t', widths, env);
    } else if Length(m) == 1 && NumBits(c) == 1
           && (IsConst(n, One()) || IsConst(z, One()) || IsConst(n, Zero()) || IsConst(z, Zero())) {
      OneBitSound(c, z, n, m, widths, env);
    } else if Swappable(c) {
      SwapSound(c, widths, env);
      assert t' == IfZero(Swapped(c), n, z);
      Keep(m, t, t', widths, env);
    } else {
      assert t' == MergedConditions(c, z, n);
      MergedSound(c, z, n, widths, env);
      Keep(m, t, t', widths, env);
    }
  }

  lemma MergedSound(c: Node, z: Node, n: Node, widths: nat -> nat, env: Env)
    requires Valid(IfZero(c, z, n), widths)
    ensures Valid(MergedConditions(c, z, n), widths)
    ensures Eval(MergedConditions(c, z, n), env) == Eval(IfZero(c, z, n), env)
  {
    if z.IfZero? && (z.ifZero == n || z.ifNonzero == n) {
      ZeroTestNodes(c, z.cond, widths, env);
    } else if n.IfZero? && (n.ifZero == z || n.ifNonzero == z) {
      ZeroTestNodes(c, n.cond, widths, env);
    }
  }

  // -------------------------------------------------------------- arithmetic

  lemma AddIntoSumSound(t: Node, c: Word, widths: nat -> nat, env: Env)
    requires IsSum(t) && HasConst(t) && Valid(t, widths)
    ensures Valid(AddIntoSum(t, c), widths)
    ensures Eval(AddIntoSum(t, c), env) == WAdd(Eval(t, env), c)
  {
    AddAddRight(Eval(t.left, env), Eval(t.right, env), c);
  }

  lemma SubFromSumSound(t: Node, c: Word, widths: nat -> nat, env: Env)
    requires IsSum(t) && HasConst(t) && Valid(t, widths)
    ensures Valid(SubFromSum(t, c), widths)
    ensures Eval(SubFromSum(t, c), env) == WSub(Eval(t, env), c)
  {
    AddAddRight(Eval(t.left, env), Eval(t.right, env), c);
  }


  lemma ShiftedApart(x: Word, n: nat, y: Word)
    requires Fits(y, n)
    ensures forall i :: 0 <= i < 128 ==> !(WShl(x, n)[i] && y[i])
  {
    forall i | 0 <= i < 128 ensures !(WShl(x, n)[i] && y[i]) {
      assert i < n ==> !WShl(x, n)[i];
    }
  }

  lemma ShiftedPastSound(t: Node, other: Node, widths: nat -> nat, env: Env)
    requires Valid(t, widths) && Valid(other, widths) && InRange(env, widths)
    requires ShiftedPast(t, other)
    ensures WAdd(Eval(t, env), Eval(other, env)) == WOr(Eval(t, env), Eval(other, env))
    ensures WAdd(Eval(other, env), Eval(t, env)) == WOr(Eval(other, env), Eval(t, env))
  {
    var c, x, y := t.right.value, Eval(t, env), Eval(other, env);
    SignOfInt(c);
    AmountOfSmall(c);
    NumBitsSound(other, widths, env);
    ShiftedApart(Eval(t.left, env), ToNat(c), y);
    AddDisjoint(x, y);
    AddDisjoint(y, x);
  }

  lemma NotInBit0(x: Word, m: Word)
    requires Length(m) == 1
    ensures Same(m, WNot(x), WAdd(x, One())) && Same(m, WNot(x), WAdd(One(), x))
    ensures Same(m, WNot(x), WSub(x, One()))
  {
    assert forall i :: 0 <= i < 128 && m[i] ==> i == 0;
    AddOneBit0(x);
  }

  lemma AddNode(a: Node, b: Node, widths: nat -> nat, env: Env)
    requires Valid(Bin(Add, a, b), widths)
    ensures Valid(a, widths) && Valid(b, widths)
    ensures Eval(Bin(Add, a, b), env) == WAdd(Eval(a, env), Eval(b, env))
  {
  }

  lemma NotNode(a: Node, widths: nat -> nat, env: Env)
    requires Valid(a, widths)
    ensures Valid(Un(Not, a), widths) && Eval(Un(Not, a), env) == WNot(Eval(a, env))
  {
  }

  /** The rules for adding one in a single bit, and for adding nothing. */
  lemma AddRules(a: Node, b: Node, m: Word, env: Env)
    ensures forall c :: (IsConst(a, c) ==> Eval(a, env) == c) && (IsConst(b, c) ==> Eval(b, env) == c)
    ensures Length(m) == 1 && IsConst(b, One()) ==> RewriteAdd(a, b, m) == Un(Not, a)
    ensures Length(m) == 1 && !IsConst(b, One()) && IsConst(a, One()) ==> RewriteAdd(a, b, m) == Un(Not, b)
    ensures !(Length(m) == 1 && (IsConst(a, One()) || IsConst(b, One()))) ==>
              && (IsConst(a, Zero()) ==> RewriteAdd(a, b, m) == b)
              && (!IsConst(a, Zero()) && IsConst(b, Zero()) ==> RewriteAdd(a, b, m) == a)
  {
  }

  lemma AddSound(a: Node, b: Node, m: Word, widths: nat -> nat, env: Env)
    requires Valid(Bin(Add, a, b), widths) && InRange(env, widths)
    ensures Preserves(m, Bin(Add, a, b), RewriteAdd(a, b, m), widths, env)
  {
    hide Eval, Valid, RewriteAdd, WAdd, WNot;
    var x, y, t := Eval(a, env), Eval(b, env), Bin(Add, a, b);
    AddNode(a, b, widths, env);
    AddRules(a, b, m, env);
    if Length(m) == 1 && IsConst(b, One()) {
      NotNode(a, widths, env);
      NotInBit0(x, m);
    } else if Length(m) == 1 && IsConst(a, One()) {
      NotNode(b, widths, env);
      NotInBit0(y, m);
    } else if IsConst(a, Zero()) {
      AddZero(y);
      Keep(m, t, b, widths, env);
    } else if IsConst(b, Zero()) {
      AddZero(x);
      Keep(m, t, a, widths, env);
    } else {
      AddExact(a, b, m, widths, env);
      Keep(m, t, RewriteAdd(a, b, m), widths, env);
    }
  }

  /** The rules that regroup constants or replace carry-free addition by disjunction. */
  lemma AddExact(a: Node, b: Node, m: Word, widths: nat -> nat, env: Env)
    requires Valid(Bin(Add, a, b), widths) && InRange(env, widths)
    requires !IsConst(a, Zero()) && !IsConst(b, Zero())
    requires !(Length(m) == 1 && (IsConst(a, One()) || IsConst(b, One())))
    ensures Valid(RewriteAdd(a, b, m), widths)
    ensures Eval(RewriteAdd(a, b, m), env) == WAdd(Eval(a, env), Eval(b, env))
  {
    hide NumBits, ToInt, WAdd, WOr, ShiftedPast, AddIntoSum, SubFromSum;
    if NegatableConst(a) || NegatableConst(b) || (HasConst(a) && b.Const?) || (HasConst(b) && a.Const?) {
      AddConstant(a, b, m, widths, env);
    } else if ShiftedPast(b, a) {
      ShiftedPastSound(b, a, widths, env);
      assert RewriteAdd(a, b, m) == Bin(Or, a, b);
    } else if ShiftedPast(a, b) {
      ShiftedPastSound(a, b, widths, env);
      assert RewriteAdd(a, b, m) == Bin(Or, a, b);
    } else {
      assert RewriteAdd(a, b, m) == Bin(Add, a, b);
    }
  }

  lemma AddConstant(a: Node, b: Node, m: Word, widths: nat -> nat, env: Env)
    requires Valid(a, widths) && Valid(b, widths) && !IsConst(a, Zero()) && !IsConst(b, Zero())
    requires !(Length(m) == 1 && (IsConst(a, One()) || IsConst(b, One())))
    requires NegatableConst(a) || NegatableConst(b) || (HasConst(a) && b.Const?) || (HasConst(b) && a.Const?)
    ensures Valid(RewriteAdd(a, b, m), widths)
    ensures Eval(RewriteAdd(a, b, m), env) == WAdd(Eval(a, env), Eval(b, env))
  {
    if NegatableConst(a) {
      AddNegative(a, b, widths, env);
    } else if NegatableConst(b) {
      AddNegative(b, a, widths, env);
    } else if HasConst(a) && b.Const? {
      AddIntoSumSound(a, b.value, widths, env);
    } else {
      AddIntoSumSound(b, a.value, widths, env);
      AddCommutes(Eval(a, env), Eval(b, env));
    }
  }

  lemma AddNegative(c: Node, b: Node, widths: nat -> nat, env: Env)
    requires Valid(b, widths) && c.Const?
    ensures var t := Bin(Sub, b, Const(WNeg(c.value)));
            Valid(t, widths) && Eval(t, env) == WAdd(Eval(c, env), Eval(b, env)) == WAdd(Eval(b, env), Eval(c, env))
  {
    SubNeg(Eval(b, env), c.value);
    AddCommutes(Eval(b, env), c.value);
    assert Eval(Const(WNeg(c.value)), env) == WNeg(c.value);
  }

  lemma SubSound(a: Node, b: Node, m: Word, widths: nat -> nat, env: Env)
    requires Valid(Bin(Sub, a, b), widths)
    requires !SubHazard(a, b, m)
    ensures Preserves(m, Bin(Sub, a, b), RewriteSub(a, b, m), widths, env)
  {
    hide NumBits, Length, WSub, WNot, AddIntoSum, SubFromSum;
    var t, t' := Bin(Sub, a, b), RewriteSub(a, b, m);
    var x, y := Eval(a, env), Eval(b, env);
    if Length(m) == 1 && IsConst(b, One()) {
      NotInBit0(x, m);
    } else if SubNegates(a, b, m) {
      SubFromSumSound(b, a.value, widths, env);
      DifferenceBit0(x, y);
    } else {
      SubExact(a, b, m, widths, env);
      Keep(m, t, t', widths, env);
    }
  }

  /** The rules for differences that keep the whole value. */
  lemma SubExact(a: Node, b: Node, m: Word, widths: nat -> nat, env: Env)
    requires Valid(Bin(Sub, a, b), widths) && !(Length(m) == 1 && IsConst(b, One())) && !SubNegates(a, b, m)
    ensures Valid(RewriteSub(a, b, m), widths)
    ensures Eval(RewriteSub(a, b, m), env) == WSub(Eval(a, env), Eval(b, env))
  {
    var x := Eval(a, env);
    if IsConst(b, Zero()) {
      AddZero(x);
    } else if NegatableConst(b) {
      SubNeg(x, b.value);
      var c := Const(WNeg(b.value));
      assert RewriteSub(a, b, m) == Bin(Add, a, c);
      assert Valid(c, widths) && Eval(c, env) == WNeg(b.value);
    } else if HasConst(a) && b.Const? {
      SubFromSumSound(a, b.value, widths, env);
      assert RewriteSub(a, b, m) == SubFromSum(a, b.value);
    } else {
      assert RewriteSub(a, b, m) == Bin(Sub, a, b);
    }
  }

  lemma DifferenceBit0(x: Word, y: Word)
    ensures WSub(x, y)[0] == WSub(y, x)[0]
  {
    OfIntBit0(ToNat(x) - ToNat(y));
    OfIntBit0(ToNat(y) - ToNat(x));
  }

  /** Where the rule for a constant minus a sum fires, it computes the negated difference. */
  lemma SubNegatesValue(a: Node, b: Node, m: Word, widths: nat -> nat, env: Env)
    requires Valid(Bin(Sub, a, b), widths) && SubNegates(a, b, m)
    ensures Eval(RewriteSub(a, b, m), env) == WSub(Eval(b, env), Eval(a, env))
  {
    SubFromSumSound(b, a.value, widths, env);
  }

  /** Negating a difference keeps the demanded bits of every operand exactly when bit 0 is the
      only demanded bit. */
  lemma NegatedDifferenceExact(c: Word, m: Word)
    requires m != Zero()
    ensures (forall y: Word :: Same(m, WSub(y, c), WSub(c, y))) <==> m == One()
  {
    if m == One() {
      forall y: Word ensures Same(m, WSub(y, c), WSub(c, y)) {
        DifferenceBit0(y, c);
      }
    } else {
      var i := HighDemand(m);
      var y := WAdd(c, One());
      OneMinus(c);
      assert !One()[i] && WSub(c, y)[i] && !WSub(y, c)[i];
      assert !Same(m, WSub(y, c), WSub(c, y));
    }
  }

  lemma HighDemand(m: Word) returns (i: nat)
    requires m != Zero() && m != One()
    ensures 0 < i < 128 && m[i]
  {
    ZeroIffNoBit(m);
    var j :| 0 <= j < 128 && m[j];
    if j > 0 {
      return j;
    }
    i :| 0 <= i < 128 && m[i] != One()[i];
  }

  lemma OneMinus(c: Word)
    ensures WSub(WAdd(c, One()), c) == One()
    ensures WSub(c, WAdd(c, One())) == Ones()
  {
    OfIntToNat(c);
    ToNatOneHot(0);
    OfIntToNat(One());
    var n: int := ToNat(c);
    AddOfInt(n, 1);
    AddOfInt(n + 1, n);
    AddOfInt(n, n + 1);
    forall i | 0 <= i < 128 ensures OfInt(-1)[i] {
      MinusOneBit(i);
    }
    assert OfInt(-1) == Ones();
  }

  lemma {:induction false} MinusOneBit(i: nat)
    ensures Bit(-1, i)
    decreases i
  {
    if i > 0 {
      MinusOneBit(i - 1);
    }
  }

  lemma ShiftByConst(n: nat)
    requires n < 128
    ensures Amount(OfInt(n)) == n
  {
    OfNatSmall(n);
    AmountOfSmall(OfInt(n));
  }

  lemma MulSound(a: Node, b: Node, m: Word, widths: nat -> nat, env: Env)
    requires Valid(Bin(Mul, a, b), widths)
    ensures Preserves(m, Bin(Mul, a, b), RewriteMul(a, b), widths, env)
  {
    var t, t' := Bin(Mul, a, b), RewriteMul(a, b);
    var x, y := Eval(a, env), Eval(b, env);
    if IsConst(a, One()) {
      MulOne(y);
    } else if IsConst(b, One()) {
      MulOne(x);
    } else {
      if a.Const? && IsPowerOfTwo(a.value) {
        MulOneHot(y, TrailingZeros(a.value));
        ShlByConst(b, TrailingZeros(a.value), widths, env);
      }
      if b.Const? && IsPowerOfTwo(b.value) {
        MulOneHot(x, TrailingZeros(b.value));
        ShlByConst(a, TrailingZeros(b.value), widths, env);
      }
    }
    Keep(m, t, t', widths, env);
  }

  lemma ShlByConst(a: Node, n: nat, widths: nat -> nat, env: Env)
    requires Valid(a, widths) && n < 128
    ensures var t := Bin(Shl, a, Const(OfInt(n)));
            Valid(t, widths) && Eval(t, env) == WShl(Eval(a, env), n)
  {
    ShiftByConst(n);
    assert Valid(Const(OfInt(n)), widths) && Eval(Const(OfInt(n)), env) == OfInt(n);
  }

  lemma UnsignedDivSound(a: Node, b: Node, m: Word, widths: nat -> nat, env: Env)
    requires Valid(Bin(UnsignedDiv, a, b), widths) && InRange(env, widths)
    requires !UnsignedDivHazard(a, b, m)
    ensures Preserves(m, Bin(UnsignedDiv, a, b), RewriteUnsignedDiv(a, b), widths, env)
  {
    var t, t', x := Bin(UnsignedDiv, a, b), RewriteUnsignedDiv(a, b), Eval(a, env);
    if IsConst(b, One()) {
      DivOne(x);
      Keep(m, t, t', widths, env);
    } else if b.Const? && IsPowerOfTwo(b.value) {
      var n := TrailingZeros(b.value);
      ShrNode(a, n, widths, env);
      assert Eval(b, env) == OneHot(n);
      NumBitsSound(a, widths, env);
      UnsignedShift(x, n, m);
    } else {
      Keep(m, t, t', widths, env);
    }
  }

  /** An arithmetic shift divides in the demanded bits unless it fills them with a set sign bit. */
  lemma UnsignedShift(x: Word, n: nat, m: Word)
    requires n < 127 && (!x[127] || Length(m) + n <= 128)
    ensures Same(m, WShr(x, n), WUnsignedDiv(x, OneHot(n)))
  {
    forall i | 0 <= i < 128 && m[i] ensures WUnsignedDiv(x, OneHot(n))[i] == WShr(x, n)[i] {
      UnsignedDivOneHot(x, n, i);
      assert i < Length(m);
    }
  }

  lemma ShrNode(a: Node, n: nat, widths: nat -> nat, env: Env)
    requires Valid(a, widths) && n < 128
    ensures var t := Bin(Shr, a, Const(OfInt(n)));
            Valid(t, widths) && Eval(t, env) == WShr(Eval(a, env), n)
  {
    ShiftByConst(n);
    assert Valid(Const(OfInt(n)), widths) && Eval(Const(OfInt(n)), env) == OfInt(n);
  }

  /** Replacing a division by `2^n` with an arithmetic shift keeps the demanded bits of every
      operand exactly when no demanded bit is filled from the top. */
  lemma UnsignedDivExact(n: nat, m: Word)
    requires 0 < n < 127 && m != Zero()
    ensures (forall x: Word :: Same(m, WShr(x, n), WUnsignedDiv(x, OneHot(n)))) <==> Length(m) + n <= 128
  {
    ZeroIffNoBit(m);
    if Length(m) + n <= 128 {
      forall x: Word ensures Same(m, WShr(x, n), WUnsignedDiv(x, OneHot(n))) {
        forall i | 0 <= i < 128 && m[i] ensures WShr(x, n)[i] == WUnsignedDiv(x, OneHot(n))[i] {
          UnsignedDivOneHot(x, n, i);
          assert i < Length(m);
        }
      }
    } else {
      var i := Length(m) - 1;
      var x := OneHot(127);
      UnsignedDivOneHot(x, n, i);
      assert m[i] && WShr(x, n)[i] && !WUnsignedDiv(x, OneHot(n))[i];
      assert !Same(m, WShr(x, n), WUnsignedDiv(x, OneHot(n)));
    }
  }

  lemma DivSound(a: Node, b: Node, m: Word, widths: nat -> nat, env: Env)
    requires Valid(Bin(Div, a, b), widths) && InRange(env, widths)
    ensures Preserves(m, Bin(Div, a, b), RewriteDiv(a, b), widths, env)
  {
    var t, t', x := Bin(Div, a, b), RewriteDiv(a, b), Eval(a, env);
    if IsConst(b, One()) {
      DivOne(x);
    } else if NumBits(a) < 128 && b.Const? && IsPowerOfTwo(b.value) {
      var n := TrailingZeros(b.value);
      NumBitsSound(a, widths, env);
      ShrNode(a, n, widths, env);
      assert Eval(b, env) == OneHot(n);
      DivOneHot(x, n);
    }
    Keep(m, t, t', widths, env);
  }

  // -------------------------------------------------------------- dispatcher

  /** Outside the hazards, one application of the rules keeps every demanded bit on every input
      and keeps the tree well formed. */
  lemma RewriteSound(t: Node, m: Word, widths: nat -> nat, env: Env)
    requires Valid(t, widths) && InRange(env, widths) && m != Zero()
    requires !Hazard(t, m)
    ensures Sound(m, t, widths, env)
  {
    match t
    case Arg(_, _, _) =>
    case Const(_) =>
    case Un(op, a) =>
      match op {
       case Not => NotSound(a, m, widths, env);
       case IsZero => IsZeroSound(a, m, widths, env);
       case Parity =>
       case Crop(n) => CropSound(n, a, m, widths, env);
       case SignExtend(n) => SignExtendSound(n, a, m, widths, env);
       case Select(skip, take) => SelectSound(skip, take, a, m, widths, env);
      }
    case Bin(op, a, b) =>
      match op {
       case Add => AddSound(a, b, m, widths, env);
       case Sub => SubSound(a, b, m, widths, env);
       case Mul => MulSound(a, b, m, widths, env);
       case UnsignedDiv => UnsignedDivSound(a, b, m, widths, env);
       case Div => DivSound(a, b, m, widths, env);
       case Shl => ShlSound(a, b, m, widths, env);
       case Shr => ShrSound(a, b, m, widths, env);
       case And => AndSound(a, b, m, widths, env);
       case Or => OrSound(a, b, m, widths, env);
       case Xor => XorSound(a, b, m, widths, env);
       case CmpLt =>
       case DepositBits =>
       case ExtractBits => ExtractBitsSound(a, b, m, widths, env);
      }
    case IfZero(c, z, n) => IfZeroSound(c, z, n, m, widths, env);
  }
}
