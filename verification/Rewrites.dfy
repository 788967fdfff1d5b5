/** The local rewrite rules of `Node::reduce_internal`, one function per operator.

    Each function receives the already reduced operands and, where the rule looks at
    it, the demand mask.  The rules are the source's, in the source's order, including
    those that do not preserve the demanded bits in every case; a `...Hazard` predicate
    next to such a function says when it fires outside the cases in which it is right:
    it changes a demanded bit for some operands, yields an operator out of range, or aborts.
 */
module Rewrites {
  import opened Words
  import opened WordArithmetic
  import opened BitFields
  import opened Expressions
  import opened Demand

  function One(): Word { OneHot(0) }

  predicate IsConst(t: Node, c: Word) { t == Const(c) }

  /** Every bit of `m` is a bit of `c`. */
  predicate Under(m: Word, c: Word)
  {
    forall i :: 0 <= i < 128 && m[i] ==> c[i]
  }

  /** `c < 0` and `checked_neg` succeeds. */
  predicate NegatableConst(t: Node)
  {
    t.Const? && t.value[127] && t.value != OneHot(127)
  }

  /** The exponent found by the loop over `0..127`, if the constant is such a power of two. */
  predicate IsPowerOfTwo(c: Word)
  {
    TrailingZeros(c) < 127 && c == OneHot(TrailingZeros(c))
  }

  // ----------------------------------------------------------------- shifts

  function RewriteShl(a: Node, b: Node): Node
  {
    if IsConst(b, Zero()) then a else Bin(Shl, a, b)
  }

  function RewriteShr(a: Node, b: Node, m: Word): Node
  {
    if IsConst(b, Zero()) then a
    else if b.Const? && 0 <= ToInt(b.value) <= 128 && Length(m) <= 128 - ToInt(b.value) then
      Un(Select(ToInt(b.value), Length(m)), a)
    else Bin(Shr, a, b)
  }

  // ---------------------------------------------------------------- bitwise

  /** All set bits are at the bottom: `trailing_ones + leading_zeros == 128`. */
  predicate IsLowRun(c: Word) { TrailingOnes(c) + (128 - Length(c)) == 128 }

  function RewriteAnd(a: Node, b: Node): Node
  {
    var leftMask, rightMask := Low(NumBits(a)), Low(NumBits(b));
    if (a.Const? && WAnd(a.value, rightMask) == Zero()) || (b.Const? && WAnd(b.value, leftMask) == Zero()) then
      Const(Zero())
    else if a.Const? && WAnd(a.value, rightMask) == rightMask then b
    else if b.Const? && WAnd(b.value, leftMask) == leftMask then a
    else if a.Const? && IsLowRun(a.value) then Un(Crop(TrailingOnes(a.value)), b)
    else if b.Const? && IsLowRun(b.value) then Un(Crop(TrailingOnes(b.value)), a)
    else if a.Un? && a.op.Crop? then Un(a.op, Bin(And, a.arg, b))
    else if b.Un? && b.op.Crop? then Un(b.op, Bin(And, a, b.arg))
    else Bin(And, a, b)
  }

  function CombinedMask(a: Node, b: Node): Word
  {
    WOr(Low(NumBits(a)), Low(NumBits(b)))
  }

  /** The branch that replaces a disjunction by all ones. */
  predicate OrSaturates(a: Node, b: Node)
  {
    var combined := CombinedMask(a, b);
    && !(a.Const? && WAnd(a.value, combined) == Zero())
    && !(b.Const? && WAnd(b.value, combined) == Zero())
    && ((a.Const? && WAnd(a.value, combined) == combined) || (b.Const? && WAnd(b.value, combined) == combined))
  }

  function RewriteOr(a: Node, b: Node): Node
  {
    var combined := CombinedMask(a, b);
    if a.Const? && WAnd(a.value, combined) == Zero() then b
    else if b.Const? && WAnd(b.value, combined) == Zero() then a
    else if OrSaturates(a, b) then Const(Ones())
    else Bin(Or, a, b)
  }

  predicate OrHazard(a: Node, b: Node, m: Word)
  {
    OrSaturates(a, b) && !Under(m, CombinedMask(a, b))
  }

  function RewriteXor(a: Node, b: Node, m: Word): Node
  {
    if a.Const? && WAnd(a.value, m) == Zero() then b
    else if b.Const? && WAnd(b.value, m) == Zero() then a
    else Bin(Xor, a, b)
  }

  function RewriteNot(a: Node): Node
  {
    if a.Un? && a.op.Not? then a.arg
    else if a.Bin? && a.bop.And? && (IsNot(a.left) || IsNot(a.right)) then
      Bin(Or, Un(Not, a.left), Un(Not, a.right))
    else if a.Bin? && a.bop.Or? && (IsNot(a.left) || IsNot(a.right)) then
      Bin(And, Un(Not, a.left), Un(Not, a.right))
    else Un(Not, a)
  }

  predicate IsNot(t: Node) { t.Un? && t.op.Not? }

  // ------------------------------------------------------------ bit fields

  function RewriteCrop(n: nat, a: Node, m: Word): Node
  {
    if NumBits(a) <= n || n >= Length(m) then a
    else if a.Un? && a.op.Select? then Un(Select(a.op.skip, Min(a.op.take, n)), a.arg)
    else Un(Crop(n), a)
  }

  function Reverse(c: Word): (r: Word)
    ensures forall i :: 0 <= i < 128 ==> r[i] == c[127 - i]
  {
    seq(128, i requires 0 <= i < 128 => c[127 - i])
  }

  /** `rotate_left`. */
  function RotateLeft(c: Word, k: nat): (r: Word)
    requires k <= 128
    ensures forall i :: 0 <= i < 128 ==> r[i] == (if i >= k then c[i - k] else c[i + 128 - k])
  {
    seq(128, i requires 0 <= i < 128 => if i >= k then c[i - k] else c[i + 128 - k])
  }

  /** A lookup table packed for reading with a left shift: rotated so that its lowest set bit is
      bit 0, and the position from which a shift by `s` reads entry `127 - s`. */
  function PackedTable(v: Word): Word { RotateLeft(v, 128 - TrailingZeros(v)) }

  function TableSkip(v: Word): nat { if TrailingZeros(v) == 128 then 127 else 127 - TrailingZeros(v) }

  /** `Select[skip, 1]` over a constant shifted right. */
  predicate ReadsShiftedConst(skip: nat, take: nat, a: Node)
  {
    take == 1 && a.Bin? && a.bop.Shr? && a.left.Const? && !a.left.value[127]
  }

  /** `Select[skip, 1]` over an even constant shifted left. */
  predicate ReadsEvenConst(take: nat, a: Node)
  {
    && take == 1 && a.Bin? && a.bop.Shl? && a.left.Const?
    && !a.left.value[127] && TrailingZeros(a.left.value) > 0
  }

  /** `Select` over a left shift by a constant distance. */
  predicate ReadsConstShift(a: Node)
  {
    a.Bin? && a.bop.Shl? && a.right.Const?
  }

  function RewriteSelect(skip: nat, take: nat, a: Node): Node
  {
    if skip == 0 then Un(Crop(take), a)
    else if a.Un? && a.op.Select? then
      // The sum of two `u8` distances, without an overflow check.
      Un(Select((skip + a.op.skip) % 256, Min(take, if a.op.take >= skip then a.op.take - skip else 0)), a.arg)
    else if ReadsShiftedConst(skip, take, a) then
      RewriteShiftedConst(skip, a.left.value, a.right)
    else if ReadsEvenConst(take, a) then
      var remove := Min(TrailingZeros(a.left.value), skip);
      Un(Select(skip - remove, 1), Bin(Shl, Const(WShr(a.left.value, remove)), a.right))
    else if ReadsConstShift(a) then
      RewriteConstShift(skip, take, a.left, a.right.value)
    else if NumBits(a) >= skip then Un(Select(skip, Min(take, NumBits(a) - skip)), a)
    else Const(Zero())
  }

  /** Turns `c >> shift` into a left shift of a reversed table. */
  function RewriteShiftedConst(skip: nat, c: Word, shift: Node): Node
  {
    var v := RotateLeft(Reverse(c), skip % 128);
    // For a zero constant the `u32` distance `0 - 1` is truncated to 255.
    Un(Select(if v == Zero() then 255 else TableSkip(v), 1), Bin(Shl, Const(PackedTable(v)), shift))
  }

  /** How far the shift of a node can reach, by the width of its distance. */
  function Distances(shift: Node): nat { Pow2(Min(NumBits(shift), 7)) }

  /** Some distance below `limit` reads the table past its end, at a set bit of the constant. */
  predicate TableWraps(skip: nat, c: Word, limit: nat)
  {
    TrailingZeros(c) < skip && 128 - skip + TrailingZeros(c) < limit
  }

  function RewriteConstShift(skip: nat, take: nat, x: Node, c: Word): Node
  {
    if ToInt(c) > skip then
      // The source clears the distance first and then subtracts it.
      Un(Select(0, take), Bin(Shl, x, Const(c)))
    else
      Un(Select((skip - ToInt(c)) % 256, take), Bin(Shl, x, Const(Zero())))
  }

  /** The field of a constant shift is moved rightly: the distance is at most the skip, or what is
      demanded of the field is shifted-in zeros, or nothing of it is demanded. */
  predicate ConstShiftKeeps(skip: nat, take: nat, c: Word, m: Word)
  {
    || take == 0
    || (if ToInt(c) > skip then DemandBelow(m, take, Amount(c) - skip)
        else ToInt(c) >= 0 || Amount(c) <= skip || DemandBelow(m, take, 0))
  }

  /** The table rule reads past the end of the table; the constant-shift rule loses its distance or
      leaves the range of skips; the last rule aborts on a width that does not fit in a `u8`. */
  predicate SelectHazard(skip: nat, take: nat, a: Node, m: Word)
  {
    skip != 0 && !(a.Un? && a.op.Select?) &&
    if ReadsShiftedConst(skip, take, a) then
      m[0] && TableWraps(skip, a.left.value, Distances(a.right))
    else if ReadsEvenConst(take, a) then false
    else if ReadsConstShift(a) then
      var c := a.right.value;
      !ConstShiftKeeps(skip, take, c, m)
      || (ToInt(c) < 0 && !ValidUnary(Select((skip - ToInt(c)) % 256, take)))
    else NumBits(a) >= skip && NumBits(a) - skip > 255
  }

  /** No demanded bit below `take` lies at `n` or above. */
  predicate DemandBelow(m: Word, take: nat, n: int)
  {
    forall i :: 0 <= i < 128 && m[i] && i < take ==> i < n
  }

  function RewriteSignExtend(n: nat, a: Node): Node
  {
    if n > NumBits(a) then a else Un(SignExtend(n), a)
  }

  function RewriteExtractBits(a: Node, b: Node): Node
  {
    if !b.Const? then Bin(ExtractBits, a, b)
    else if b.value == Zero() then Const(Zero())
    else
      var skip := TrailingZeros(b.value);
      var take := TrailingOnes(WShr(b.value, skip));
      if b.value == WShl(Low(take), skip) then Un(Select(skip, take), a) else Bin(ExtractBits, a, b)
  }

  /** A negative selector made of one run: the arithmetic shift turns its run length into 128. */
  predicate ExtractHazard(a: Node, b: Node)
  {
    b.Const? && b.value[127] && RewriteExtractBits(a, b).Un?
  }

  // ------------------------------------------------------------ conditionals

  function RewriteIsZero(a: Node): Node
  {
    if a.Bin? && a.bop.Sub? && NumBits(a.left) == 1 && IsConst(a.right, One()) then Un(Crop(1), a.left)
    else if NumBits(a) == 1 then Un(Crop(1), Un(Not, a))
    else Un(IsZero, a)
  }

  function RewriteIfZero(c: Node, z: Node, n: Node, m: Word): Node
  {
    if c.Const? then (if c.value == Zero() then z else n)
    else if z == n then z
    else if IsConst(z, Zero()) && IsConst(n, One()) then Un(Crop(1), Un(Not, Un(IsZero, c)))
    else if IsConst(z, One()) && IsConst(n, Zero()) then Un(IsZero, c)
    else if Length(m) == 1 && NumBits(c) == 1 && IsConst(n, One()) then Bin(Or, c, z)
    else if Length(m) == 1 && NumBits(c) == 1 && IsConst(z, One()) then Bin(Or, Un(Crop(1), Un(Not, c)), n)
    else if Length(m) == 1 && NumBits(c) == 1 && IsConst(n, Zero()) then Bin(And, Un(Crop(1), Un(Not, c)), z)
    else if Length(m) == 1 && NumBits(c) == 1 && IsConst(z, Zero()) then Bin(And, c, n)
    else if c.Un? && c.op == Crop(1) && IsNot(c.arg) then IfZero(Un(Crop(1), c.arg.arg), n, z)
    else if c.Un? && c.op.Select? && c.op.take == 1 && IsNot(c.arg) then IfZero(Un(c.op, c.arg.arg), n, z)
    else if c.Un? && c.op.IsZero? then IfZero(c.arg, n, z)
    else MergedConditions(c, z, n)
  }

  /** The rules for conditionals nested in a branch. */
  function MergedConditions(c: Node, z: Node, n: Node): Node
  {
    if z.IfZero? && z.ifZero == n then
      IfZero(Bin(And, Un(IsZero, c), Un(Not, Un(IsZero, z.cond))), n, z.ifNonzero)
    else if z.IfZero? && z.ifNonzero == n then
      IfZero(Bin(And, Un(IsZero, c), Un(IsZero, z.cond)), n, z.ifZero)
    else if n.IfZero? && n.ifZero == z then
      IfZero(Bin(Or, Un(IsZero, c), Un(IsZero, n.cond)), n.ifNonzero, z)
    else if n.IfZero? && n.ifNonzero == z then
      IfZero(Bin(And, Un(Not, Un(IsZero, c)), Un(IsZero, n.cond)), z, n.ifZero)
    else IfZero(c, z, n)
  }

  // -------------------------------------------------------------- arithmetic

  predicate IsSum(t: Node) { t.Bin? && (t.bop.Add? || t.bop.Sub?) }

  /** Folds an added constant into a sum that already holds a constant. */
  function AddIntoSum(t: Node, c: Word): Node
    requires IsSum(t)
  {
    if t.left.Const? then Bin(t.bop, Const(WAdd(t.left.value, c)), t.right)
    else if t.right.Const? then
      Bin(t.bop, t.left, Const(if t.bop.Add? then WAdd(t.right.value, c) else WSub(t.right.value, c)))
    else t
  }

  /** Folds a subtracted constant into a sum that already holds a constant. */
  function SubFromSum(t: Node, c: Word): Node
    requires IsSum(t)
  {
    if t.left.Const? then Bin(t.bop, Const(WSub(t.left.value, c)), t.right)
    else if t.right.Const? then
      Bin(t.bop, t.left, Const(if t.bop.Add? then WSub(t.right.value, c) else WAdd(t.right.value, c)))
    else t
  }

  predicate HasConst(t: Node) { IsSum(t) && (t.left.Const? || t.right.Const?) }

  /** `t` is shifted left by a constant past every bit of `other`. */
  predicate ShiftedPast(t: Node, other: Node)
  {
    && t.Bin? && t.bop.Shl? && t.right.Const?
    && 0 < ToInt(t.right.value) < 128 && NumBits(other) <= ToInt(t.right.value)
  }

  function RewriteAdd(a: Node, b: Node, m: Word): Node
  {
    if Length(m) == 1 && IsConst(b, One()) then Un(Not, a)
    else if Length(m) == 1 && IsConst(a, One()) then Un(Not, b)
    else if IsConst(a, Zero()) then b
    else if IsConst(b, Zero()) then a
    else if NegatableConst(a) then Bin(Sub, b, Const(WNeg(a.value)))
    else if NegatableConst(b) then Bin(Sub, a, Const(WNeg(b.value)))
    else if HasConst(a) && b.Const? then AddIntoSum(a, b.value)
    else if HasConst(b) && a.Const? then AddIntoSum(b, a.value)
    else if ShiftedPast(b, a) then Bin(Or, a, b)
    else if ShiftedPast(a, b) then Bin(Or, a, b)
    else Bin(Add, a, b)
  }

  function RewriteSub(a: Node, b: Node, m: Word): Node
  {
    if Length(m) == 1 && IsConst(b, One()) then Un(Not, a)
    else if IsConst(b, Zero()) then a
    else if NegatableConst(b) then Bin(Add, a, Const(WNeg(b.value)))
    else if HasConst(a) && b.Const? then SubFromSum(a, b.value)
    else if HasConst(b) && a.Const? then SubFromSum(b, a.value)
    else Bin(Sub, a, b)
  }

  /** A constant minus a sum with a constant: the rule yields the negation of the difference. */
  predicate SubNegates(a: Node, b: Node, m: Word)
  {
    && !(Length(m) == 1 && IsConst(b, One())) && !IsConst(b, Zero()) && !NegatableConst(b)
    && !(HasConst(a) && b.Const?) && HasConst(b) && a.Const?
  }

  predicate SubHazard(a: Node, b: Node, m: Word)
  {
    SubNegates(a, b, m) && m != One()
  }

  function RewriteMul(a: Node, b: Node): Node
  {
    if IsConst(a, One()) then b
    else if IsConst(b, One()) then a
    else if a.Const? && IsPowerOfTwo(a.value)
         && !(b.Const? && IsPowerOfTwo(b.value) && TrailingZeros(b.value) < TrailingZeros(a.value)) then
      Bin(Shl, b, Const(OfInt(TrailingZeros(a.value))))
    else if b.Const? && IsPowerOfTwo(b.value) then Bin(Shl, a, Const(OfInt(TrailingZeros(b.value))))
    else Bin(Mul, a, b)
  }

  function RewriteUnsignedDiv(a: Node, b: Node): Node
  {
    if IsConst(b, One()) then a
    else if b.Const? && IsPowerOfTwo(b.value) then Bin(Shr, a, Const(OfInt(TrailingZeros(b.value))))
    else Bin(UnsignedDiv, a, b)
  }

  /** The shift that replaces an unsigned division is arithmetic. */
  predicate UnsignedDivHazard(a: Node, b: Node, m: Word)
  {
    && !IsConst(b, One()) && b.Const? && IsPowerOfTwo(b.value)
    && NumBits(a) >= 128 && Length(m) + TrailingZeros(b.value) > 128
  }

  function RewriteDiv(a: Node, b: Node): Node
  {
    if IsConst(b, One()) then a
    else if NumBits(a) < 128 && b.Const? && IsPowerOfTwo(b.value) then
      Bin(Shr, a, Const(OfInt(TrailingZeros(b.value))))
    else Bin(Div, a, b)
  }

  // -------------------------------------------------------------- dispatcher

  /** The `match op` of `reduce_internal`. */
  function Rewrite(t: Node, m: Word): Node
  {
    match t
    case Arg(_, _, _) => t
    case Const(_) => t
    case Un(op, a) =>
      (match op
       case Not => RewriteNot(a)
       case IsZero => RewriteIsZero(a)
       case Parity => t
       case Crop(n) => RewriteCrop(n, a, m)
       case SignExtend(n) => RewriteSignExtend(n, a)
       case Select(skip, take) => RewriteSelect(skip, take, a))
    case Bin(op, a, b) =>
      (match op
       case Add => RewriteAdd(a, b, m)
       case Sub => RewriteSub(a, b, m)
       case Mul => RewriteMul(a, b)
       case UnsignedDiv => RewriteUnsignedDiv(a, b)
       case Div => RewriteDiv(a, b)
       case Shl => RewriteShl(a, b)
       case Shr => RewriteShr(a, b, m)
       case And => RewriteAnd(a, b)
       case Or => RewriteOr(a, b)
       case Xor => RewriteXor(a, b, m)
       case CmpLt => t
       case DepositBits => t
       case ExtractBits => RewriteExtractBits(a, b))
    case IfZero(c, z, n) => RewriteIfZero(c, z, n, m)
  }

  /** A rule fires at the root of `t` outside the cases in which it is right. */
  predicate Hazard(t: Node, m: Word)
  {
    match t
    case Arg(_, _, _) => false
    case Const(_) => false
    case Un(op, a) => op.Select? && SelectHazard(op.skip, op.take, a, m)
    case Bin(op, a, b) =>
      (match op
       case Or => OrHazard(a, b, m)
       case Sub => SubHazard(a, b, m)
       case UnsignedDiv => UnsignedDivHazard(a, b, m)
       case ExtractBits => ExtractHazard(a, b)
       case _ => false)
    case IfZero(_, _, _) => false
  }
}
