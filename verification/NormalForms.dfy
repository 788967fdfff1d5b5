/** What normalizing achieves, beside keeping the meaning: constants are folded, no input appears
    that was not there, and a tree that the rules leave as it is has none of the shapes they remove.
 */
module NormalForms {
  import opened Options
  import opened Words
  import opened WordArithmetic
  import opened BitFields
  import opened Expressions
  import opened Demand
  import opened Rewrites
  import opened RewriteSoundness
  import opened Normalizer

  // -------------------------------------------------------- the inputs of a tree

  predicate Mentions(t: Node, i: nat)
  {
    match t
    case Arg(j, _, _) => i == j
    case Const(_) => false
    case Un(_, a) => Mentions(a, i)
    case Bin(_, a, b) => Mentions(a, i) || Mentions(b, i)
    case IfZero(c, z, n) => Mentions(c, i) || Mentions(z, i) || Mentions(n, i)
  }

  predicate Closed(t: Node)
  {
    match t
    case Arg(_, _, _) => false
    case Const(_) => true
    case Un(_, a) => Closed(a)
    case Bin(_, a, b) => Closed(a) && Closed(b)
    case IfZero(c, z, n) => Closed(c) && Closed(z) && Closed(n)
  }

  lemma MentionsParts(i: nat)
    ensures forall op, a :: Mentions(Un(op, a), i) == Mentions(a, i)
    ensures forall op, a, b :: Mentions(Bin(op, a, b), i) == (Mentions(a, i) || Mentions(b, i))
    ensures forall c, z, n :: Mentions(IfZero(c, z, n), i) == (Mentions(c, i) || Mentions(z, i) || Mentions(n, i))
    ensures forall c :: !Mentions(Const(c), i)
    ensures forall j, w, signed :: Mentions(Node.Arg(j, w, signed), i) == (i == j)
  {
  }

  /** A rule moves, drops and wraps operands, but brings in no input. */
  lemma RewriteMentions(t: Node, m: Word, i: nat)
    requires Mentions(Rewrite(t, m), i)
    ensures Mentions(t, i)
  {
    hide RewriteNot, RewriteAnd, RewriteOr, RewriteAdd, RewriteSub, RewriteIfZero, RewriteSelect;
    match t
    case Arg(_, _, _) =>
    case Const(_) =>
    case Un(op, a) => UnaryMentions(op, a, m, i);
    case Bin(op, a, b) => BinaryMentions(op, a, b, m, i);
    case IfZero(c, z, n) => IfZeroMentions(c, z, n, m, i);
  }

  lemma UnaryMentions(op: Unary, a: Node, m: Word, i: nat)
    requires Mentions(Rewrite(Un(op, a), m), i)
    ensures Mentions(a, i)
  {
    hide Mentions, NumBits, Length, ToInt, TrailingZeros, WShr;
    MentionsParts(i);
  }

  lemma BinaryMentions(op: Binary, a: Node, b: Node, m: Word, i: nat)
    requires Mentions(Rewrite(Bin(op, a, b), m), i)
    ensures Mentions(a, i) || Mentions(b, i)
  {
    hide Mentions, NumBits, Length, Low, WAnd, ToInt, TrailingZeros, TrailingOnes, WShr, WShl, WNeg, WAdd, WSub, OfInt;
    MentionsParts(i);
  }

  lemma IfZeroMentions(c: Node, z: Node, n: Node, m: Word, i: nat)
    requires Mentions(Rewrite(IfZero(c, z, n), m), i)
    ensures Mentions(c, i) || Mentions(z, i) || Mentions(n, i)
  {
    hide Mentions, NumBits, Length;
    MentionsParts(i);
  }

  lemma {:induction false} WidthMentions(t: Node, i: nat)
    requires ArgWidth(t, i).Some?
    ensures Mentions(t, i)
    decreases t
  {
    match t
    case Arg(_, _, _) =>
    case Const(_) =>
    case Un(_, a) => WidthMentions(a, i);
    case Bin(_, a, b) => if ArgWidth(a, i).Some? { WidthMentions(a, i); } else { WidthMentions(b, i); }
    case IfZero(c, z, n) =>
      if ArgWidth(c, i).Some? { WidthMentions(c, i); }
      else if ArgWidth(z, i).Some? { WidthMentions(z, i); }
      else { WidthMentions(n, i); }
  }

  lemma LookupMentions(t: Node, m: Word, i: nat, bits: Word, width: nat, j: nat)
    requires Mentions(Lookup(t, m, i, bits, width), j)
    ensures j == i
  {
    hide Mentions, Table, PackedTable, TableSkip;
    MentionsParts(j);
  }

  lemma InternalMentions(t: Node, m: Word, u: seq<Word>, i: nat)
    requires Mentions(ReduceInternal(t, m, u), i)
    ensures Mentions(t, i)
  {
    hide Rewrite, Lookup, Mentions, CountOnes, NumNodes;
    if LookupFires(t, m, u) && ArgWidth(t, SingleArg(u).value.0).Some? {
      var (j, bits) := SingleArg(u).value;
      RewriteMentions(Lookup(t, m, j, bits, ArgWidth(t, j).value), m, i);
      LookupMentions(t, m, j, bits, ArgWidth(t, j).value, i);
      WidthMentions(t, j);
    } else {
      RewriteMentions(t, m, i);
    }
  }

  /** The reduced tree mentions no input that the tree did not. */
  lemma {:induction false} ReducedMentions(t: Node, m: Word, i: nat)
    requires Mentions(Reduced(t, m), i)
    ensures Mentions(t, i)
    decreases t
  {
    hide ReduceInternal, Uses, LeftMask, RightMask, UnaryMask;
    if m != Zero() && (t.Un? || t.Bin? || t.IfZero?) {
      InternalMentions(ReducedArgs(t, m), m, Uses(t, m), i);
      match t
      case Un(op, a) => ReducedMentions(a, UnaryMask(op, m), i);
      case Bin(op, a, b) =>
        if Mentions(Reduced(a, LeftMask(op, b, m)), i) {
          ReducedMentions(a, LeftMask(op, b, m), i);
        } else {
          ReducedMentions(b, RightMask(op, m), i);
        }
      case IfZero(c, z, n) =>
        if Mentions(Reduced(c, Ones()), i) {
          ReducedMentions(c, Ones(), i);
        } else if Mentions(Reduced(z, m), i) {
          ReducedMentions(z, m, i);
        } else {
          ReducedMentions(n, m, i);
        }
    }
  }

  /** Nothing is left of a tree of which nothing is demanded. */
  lemma NothingDemandedFolds(t: Node)
    ensures Reduced(t, Zero()) == Const(Zero())
  {
  }

  // --------------------------------------------------------------- folded constants

  /** No operator has constants for all its operands. */
  predicate Folded(t: Node)
  {
    match t
    case Arg(_, _, _) => true
    case Const(_) => true
    case Un(_, a) => Folded(a) && !a.Const?
    case Bin(_, a, b) => Folded(a) && Folded(b) && !(a.Const? && b.Const?)
    case IfZero(c, z, n) => Folded(c) && Folded(z) && Folded(n) && !(c.Const? && z.Const? && n.Const?)
  }

  /** After propagating constants none is left to fold, and the inputs are the same. */
  lemma {:induction false} PropagateFolds(t: Node, i: nat)
    ensures Folded(PropagateConstants(t))
    ensures Mentions(PropagateConstants(t), i) <==> Mentions(t, i)
    decreases t
  {
    match t
    case Arg(_, _, _) =>
    case Const(_) =>
    case Un(_, a) => PropagateFolds(a, i);
    case Bin(_, a, b) =>
      PropagateFolds(a, i);
      PropagateFolds(b, i);
    case IfZero(c, z, n) =>
      PropagateFolds(c, i);
      PropagateFolds(z, i);
      PropagateFolds(n, i);
  }

  /** A tree without inputs becomes its value. */
  lemma {:induction false} ClosedFolds(t: Node, env: Env)
    requires Closed(t)
    ensures PropagateConstants(t) == Const(Eval(t, env))
    decreases t
  {
    match t
    case Const(_) =>
    case Un(_, a) => ClosedFolds(a, env);
    case Bin(_, a, b) =>
      ClosedFolds(a, env);
      ClosedFolds(b, env);
    case IfZero(c, z, n) =>
      ClosedFolds(c, env);
      ClosedFolds(z, env);
      ClosedFolds(n, env);
  }

  lemma {:induction false} ConstRounds(c: Word, m: Word, k: nat)
    requires k > 0
    ensures Rounds(Const(c), m, k) == Const(WAnd(c, m))
    decreases k
  {
    hide Rounds;
    RoundsNext(Const(c), m, k);
    if m == Zero() {
      assert WAnd(c, m) == Zero();
    }
    assert Reduced(Const(c), m) == Const(WAnd(c, m));
    if k == 1 {
      RoundsDone(Const(WAnd(c, m)), m);
    } else {
      ConstRounds(WAnd(c, m), m, k - 1);
      assert WAnd(WAnd(c, m), m) == WAnd(c, m);
    }
  }

  /** A program that reads no input is normalized to one operator: the demanded bits of its value. */
  lemma ClosedNormalizes(p: Program, bits: nat, env: Env)
    requires Tree(p).Some? && Closed(Tree(p).value)
    ensures Run(p, env).Some?
    ensures NormalizedTree(Tree(p).value, bits) == Const(WAnd(Run(p, env).value, Low(bits)))
    ensures |Print(NormalizedTree(Tree(p).value, bits), Empty).ops| == 1
  {
    hide Rounds, Low;
    ClosedFolds(Tree(p).value, env);
    TreeComputesProgram(p, env);
    ConstRounds(Run(p, env).value, Low(bits), ROUNDS);
  }

  /** The normalized program reads no input that the program did not. */
  lemma NormalizedMentions(t: Node, bits: nat, i: nat)
    requires Mentions(NormalizedTree(t, bits), i)
    ensures Mentions(t, i)
  {
    RoundsMention(PropagateConstants(t), Low(bits), ROUNDS, i);
    PropagateFolds(t, i);
  }

  lemma {:induction false} RoundsMention(t: Node, m: Word, k: nat, i: nat)
    requires Mentions(Rounds(t, m, k), i)
    ensures Mentions(t, i)
    decreases k
  {
    hide Reduced, Rounds;
    if k == 0 {
      RoundsDone(t, m);
    } else {
      RoundsNext(t, m, k);
      RoundsMention(Reduced(t, m), m, k - 1, i);
      ReducedMentions(t, m, i);
    }
  }

  // ---------------------------------------------------------- shapes that are removed

  predicate IsPower(c: Word) { exists k :: 0 <= k < 127 && c == OneHot(k) }

  /** The set bits are those from one position up to another. */
  predicate IsRun(c: Word, skip: nat, take: nat) { forall i :: 0 <= i < 128 ==> c[i] == (skip <= i < skip + take) }

  ghost predicate Runs(c: Word) { exists skip: nat, take: nat :: IsRun(c, skip, take) }

  /** Among the lowest `w` bits there are a set and a clear one. */
  predicate Splits(c: Word, w: nat)
  {
    (exists i :: 0 <= i < 128 && i < w && c[i]) && (exists i :: 0 <= i < 128 && i < w && !c[i])
  }

  predicate Overlaps(c: Word, m: Word) { exists i :: 0 <= i < 128 && c[i] && m[i] }

  /** A constant operand that decides or drops bits of a conjunction with a value of `w` bits. */
  ghost predicate AndKeeps(t: Node, w: nat) { t.Const? ==> Splits(t.value, w) && forall k: nat :: t.value != Low(k) }

  predicate IsUn(t: Node, op: Unary) { t.Un? && t.op == op }

  predicate IsBool(t: Node) { IsConst(t, Zero()) || IsConst(t, One()) }

  /** A sum with a constant, next to another constant. */
  predicate Regroups(a: Node, b: Node)
  {
    a.Bin? && (a.bop == Add || a.bop == Sub) && (a.left.Const? || a.right.Const?) && b.Const?
  }

  /** A negative constant other than the least one. */
  predicate IsNegative(t: Node) { t.Const? && t.value[127] && exists i :: 0 <= i < 127 && t.value[i] }

  /** `t` is `x << d` for a constant `d` from one up to 127 and past every bit of `other`. */
  predicate Clears(t: Node, other: Node)
  {
    && t.Bin? && t.bop == Shl && t.right.Const?
    && 1 <= ToInt(t.right.value) <= 127 && ToInt(t.right.value) >= NumBits(other)
  }

  ghost predicate PlainUnary(op: Unary, a: Node, m: Word)
  {
    match op
    case Not => !IsUn(a, Not) && (a.Bin? && (a.bop == And || a.bop == Or) ==> !IsUn(a.left, Not) && !IsUn(a.right, Not))
    case IsZero => NumBits(a) != 1 && (a.Bin? && a.bop == Sub && IsConst(a.right, One()) ==> NumBits(a.left) != 1)
    case Parity => true
    case Crop(n) => n < NumBits(a) && n < Length(m) && !(a.Un? && a.op.Select?)
    case SignExtend(n) => n <= NumBits(a)
    case Select(skip, take) => PlainField(skip, take, a)
  }

  /** A field with a skip, not of another field, nor of a shifted constant that can be a table or be made
      smaller, nor of a shift by a constant distance, and within the width of its operand. */
  ghost predicate PlainField(skip: nat, take: nat, a: Node)
  {
    && skip != 0 && !(a.Un? && a.op.Select?)
    && (take == 1 && a.Bin? && a.bop == Shr && a.left.Const? ==> a.left.value[127])
    && (take == 1 && a.Bin? && a.bop == Shl && a.left.Const? ==> a.left.value[127] || a.left.value[0])
    && (a.Bin? && a.bop == Shl && a.right.Const? ==> a.right.value == Zero())
    && (!(a.Bin? && a.bop == Shl && a.right.Const?) ==> skip <= NumBits(a) && skip + take <= NumBits(a))
  }

  ghost predicate PlainBinary(op: Binary, a: Node, b: Node, m: Word)
  {
    match op
    case Add =>
      && !IsConst(a, Zero()) && !IsConst(b, Zero()) && !IsNegative(a) && !IsNegative(b)
      && !(Length(m) == 1 && (IsConst(a, One()) || IsConst(b, One())))
      && !Regroups(a, b) && !Regroups(b, a) && !Clears(a, b) && !Clears(b, a)
    case Sub =>
      && !IsConst(b, Zero()) && !IsNegative(b) && !(Length(m) == 1 && IsConst(b, One()))
      && !Regroups(a, b) && !Regroups(b, a)
    case Mul => (a.Const? ==> !IsPower(a.value)) && (b.Const? ==> !IsPower(b.value))
    case UnsignedDiv => b.Const? ==> !IsPower(b.value)
    case Div => !IsConst(b, One()) && (NumBits(a) < 128 && b.Const? ==> !IsPower(b.value))
    case Shl => !IsConst(b, Zero())
    case Shr => b.Const? ==> b.value != Zero() && !(0 <= ToInt(b.value) <= 128 - Length(m))
    case And =>
      && AndKeeps(a, NumBits(b)) && AndKeeps(b, NumBits(a))
      && !(a.Un? && a.op.Crop?) && !(b.Un? && b.op.Crop?)
    case Or =>
      var w := Max(NumBits(a), NumBits(b));
      (a.Const? ==> Splits(a.value, w)) && (b.Const? ==> Splits(b.value, w))
    case Xor => (a.Const? ==> Overlaps(a.value, m)) && (b.Const? ==> Overlaps(b.value, m))
    case CmpLt => true
    case DepositBits => true
    case ExtractBits => b.Const? ==> !Runs(b.value)
  }

  ghost predicate PlainIfZero(c: Node, z: Node, n: Node, m: Word)
  {
    && !c.Const? && z != n && !(IsBool(z) && IsBool(n))
    && !(Length(m) == 1 && NumBits(c) == 1 && (IsBool(z) || IsBool(n)))
    && !IsUn(c, IsZero)
    && !(c.Un? && (c.op == Crop(1) || (c.op.Select? && c.op.take == 1)) && IsUn(c.arg, Not))
    && (z.IfZero? ==> z.ifZero != n && z.ifNonzero != n) && (n.IfZero? ==> n.ifZero != z && n.ifNonzero != z)
  }

  /** None of the shapes that the rules remove is at the root. */
  ghost predicate Plain(t: Node, m: Word)
  {
    match t
    case Arg(_, _, _) => true
    case Const(_) => true
    case Un(op, a) => PlainUnary(op, a, m)
    case Bin(op, a, b) => PlainBinary(op, a, b, m)
    case IfZero(c, z, n) => PlainIfZero(c, z, n, m)
  }

  /** No tree is one of its own operands. */
  lemma NotItsPart()
    ensures forall op, a :: a != Un(op, a)
    ensures forall op, a, b :: a != Bin(op, a, b) && b != Bin(op, a, b)
    ensures forall c, z, n :: z != IfZero(c, z, n) && n != IfZero(c, z, n)
  {
    forall op, a ensures a != Un(op, a) {
      assert NumNodes(Un(op, a)) == NumNodes(a) + 1;
    }
    forall op, a, b ensures a != Bin(op, a, b) && b != Bin(op, a, b) {
      assert NumNodes(Bin(op, a, b)) == NumNodes(a) + NumNodes(b) + 1;
    }
    forall c, z, n ensures z != IfZero(c, z, n) && n != IfZero(c, z, n) {
      assert NumNodes(IfZero(c, z, n)) == NumNodes(c) + NumNodes(z) + NumNodes(n) + 1;
    }
  }

  lemma NotTwice(x: Node)
    ensures x != Un(Not, Un(Not, x))
  {
    assert NumNodes(Un(Not, x)) == NumNodes(x) + 1;
    assert NumNodes(Un(Not, Un(Not, x))) == NumNodes(x) + 2;
  }

  lemma NotPlain(a: Node)
    requires RewriteNot(a) == Un(Not, a)
    ensures PlainUnary(Not, a, Ones())
  {
    if IsNot(a) {
      NotTwice(a.arg);
      assert false;
    }
  }

  lemma CropPlain(n: nat, a: Node, m: Word)
    requires RewriteCrop(n, a, m) == Un(Crop(n), a)
    ensures PlainUnary(Crop(n), a, m)
  {
    hide NumBits, Length;
    NotItsPart();
  }

  lemma SelectPlain(skip: nat, take: nat, a: Node)
    requires RewriteSelect(skip, take, a) == Un(Select(skip, take), a)
    ensures PlainField(skip, take, a)
  {
    hide NumBits, ToInt, TableSkip, PackedTable, RotateLeft, WShr;
    NotItsPart();
    if a.Bin? && a.bop.Shl? && a.left.Const? {
      LowestBit(a.left.value);
    }
  }

  lemma LowestBit(c: Word)
    ensures TrailingZeros(c) > 0 <==> !c[0]
  {
  }

  lemma UnaryPlain(op: Unary, a: Node, m: Word)
    requires Rewrite(Un(op, a), m) == Un(op, a)
    ensures PlainUnary(op, a, m)
  {
    hide RewriteNot, RewriteCrop, RewriteSelect, PlainField;
    match op
    case Not => NotPlain(a);
    case IsZero =>
    case Parity =>
    case Crop(n) => CropPlain(n, a, m);
    case SignExtend(n) => NotItsPart();
    case Select(skip, take) => SelectPlain(skip, take, a);
  }

  lemma MasksMean(c: Word, w: nat)
    ensures WAnd(c, Low(w)) != Zero() && WAnd(c, Low(w)) != Low(w) <==> Splits(c, w)
  {
    var r := WAnd(c, Low(w));
    ZeroIffNoBit(r);
    if r != Zero() {
      var i :| 0 <= i < 128 && r[i];
      assert i < w && c[i];
    }
    if r != Low(w) {
      var i :| 0 <= i < 128 && r[i] != Low(w)[i];
      assert i < w && !c[i];
    }
    if Splits(c, w) {
      var i :| 0 <= i < 128 && i < w && c[i];
      assert r[i];
      var j :| 0 <= j < 128 && j < w && !c[j];
      assert r[j] != Low(w)[j];
    }
  }

  lemma LowRunIsLow(k: nat)
    ensures IsLowRun(Low(k))
  {
    var n := Min(k, 128);
    LengthOf(Low(k), n);
    OnesOf(Low(k), n);
  }

  lemma OnesOf(c: Word, n: nat)
    requires n <= 128 && (forall i :: 0 <= i < n ==> c[i]) && (n < 128 ==> !c[n])
    ensures TrailingOnes(c) == n
  {
    var k := TrailingOnes(c);
    assert k < 128 ==> !c[k];
  }

  lemma AndPlain(a: Node, b: Node)
    requires RewriteAnd(a, b) == Bin(And, a, b)
    ensures PlainBinary(And, a, b, Ones())
  {
    hide NumBits, IsLowRun, TrailingOnes, Splits;
    NotItsPart();
    if a.Const? {
      MasksMean(a.value, NumBits(b));
      forall k: nat ensures a.value != Low(k) {
        LowRunIsLow(k);
      }
    }
    if b.Const? {
      MasksMean(b.value, NumBits(a));
      forall k: nat ensures b.value != Low(k) {
        LowRunIsLow(k);
      }
    }
  }

  lemma OrPlain(a: Node, b: Node)
    requires RewriteOr(a, b) == Bin(Or, a, b)
    ensures PlainBinary(Or, a, b, Ones())
  {
    hide NumBits, Splits;
    NotItsPart();
    var w := Max(NumBits(a), NumBits(b));
    assert CombinedMask(a, b) == Low(w);
    if a.Const? {
      MasksMean(a.value, w);
    }
    if b.Const? {
      MasksMean(b.value, w);
    }
  }

  lemma SharesBit(c: Word, m: Word)
    ensures WAnd(c, m) == Zero() <==> !Overlaps(c, m)
  {
    ZeroIffNoBit(WAnd(c, m));
    if Overlaps(c, m) {
      var i :| 0 <= i < 128 && c[i] && m[i];
      assert WAnd(c, m)[i];
    } else {
      assert forall i :: 0 <= i < 128 ==> !WAnd(c, m)[i];
    }
  }

  lemma XorPlain(a: Node, b: Node, m: Word)
    requires RewriteXor(a, b, m) == Bin(Xor, a, b)
    ensures PlainBinary(Xor, a, b, m)
  {
    hide Overlaps, WAnd;
    NotItsPart();
    if a.Const? {
      SharesBit(a.value, m);
    }
    if b.Const? {
      SharesBit(b.value, m);
    }
  }

  lemma PowerMeans(c: Word)
    ensures IsPowerOfTwo(c) <==> IsPower(c)
    ensures c == One() ==> IsPower(c)
  {
    if IsPower(c) {
      var k :| 0 <= k < 127 && c == OneHot(k);
      var z := TrailingZeros(c);
      assert c[k] && z < 128 && c[z];
    }
    assert One() == OneHot(0);
  }

  lemma MulPlain(a: Node, b: Node)
    requires RewriteMul(a, b) == Bin(Mul, a, b)
    ensures PlainBinary(Mul, a, b, Ones())
  {
    hide IsPowerOfTwo, IsPower;
    NotItsPart();
    if a.Const? {
      PowerMeans(a.value);
    }
    if b.Const? {
      PowerMeans(b.value);
    }
  }

  lemma DivPlain(a: Node, b: Node)
    ensures RewriteUnsignedDiv(a, b) == Bin(UnsignedDiv, a, b) ==> PlainBinary(UnsignedDiv, a, b, Ones())
    ensures RewriteDiv(a, b) == Bin(Div, a, b) ==> PlainBinary(Div, a, b, Ones())
  {
    hide IsPowerOfTwo, IsPower, NumBits;
    NotItsPart();
    if b.Const? {
      PowerMeans(b.value);
    }
  }

  lemma SmallerSum(t: Node, c: Word)
    requires HasConst(t)
    ensures NumNodes(AddIntoSum(t, c)) == NumNodes(t) && NumNodes(SubFromSum(t, c)) == NumNodes(t)
  {
  }

  lemma NegativeMeans(t: Node)
    ensures NegatableConst(t) <==> IsNegative(t)
  {
    if t.Const? && t.value[127] {
      if t.value != OneHot(127) {
        var i :| 0 <= i < 128 && t.value[i] != OneHot(127)[i];
      } else {
        assert forall i :: 0 <= i < 127 ==> !t.value[i];
      }
    }
  }

  lemma ClearsMeans(t: Node, other: Node)
    ensures ShiftedPast(t, other) <==> Clears(t, other)
  {
    hide NumBits, ToInt;
  }

  lemma AddPlain(a: Node, b: Node, m: Word)
    requires RewriteAdd(a, b, m) == Bin(Add, a, b)
    ensures PlainBinary(Add, a, b, m)
  {
    hide AddIntoSum, ShiftedPast, Clears, Length, NumNodes, IsNegative, NegatableConst;
    NotItsPart();
    NegativeMeans(a);
    NegativeMeans(b);
    ClearsMeans(a, b);
    ClearsMeans(b, a);
    SumNodes(Add, a, b);
    if HasConst(a) && b.Const? {
      SmallerSum(a, b.value);
    }
    if HasConst(b) && a.Const? {
      SmallerSum(b, a.value);
    }
  }

  lemma SubPlain(a: Node, b: Node, m: Word)
    requires RewriteSub(a, b, m) == Bin(Sub, a, b)
    ensures PlainBinary(Sub, a, b, m)
  {
    hide SubFromSum, Length, NumNodes, IsNegative, NegatableConst;
    NotItsPart();
    NegativeMeans(b);
    SumNodes(Sub, a, b);
    if HasConst(a) && b.Const? {
      SmallerSum(a, b.value);
    }
    if HasConst(b) && a.Const? {
      SmallerSum(b, a.value);
    }
  }

  lemma SumNodes(op: Binary, a: Node, b: Node)
    ensures NumNodes(Bin(op, a, b)) > NumNodes(a) && NumNodes(Bin(op, a, b)) > NumNodes(b)
  {
  }

  lemma ShiftPlain(a: Node, b: Node, m: Word)
    ensures RewriteShl(a, b) == Bin(Shl, a, b) ==> PlainBinary(Shl, a, b, m)
    ensures RewriteShr(a, b, m) == Bin(Shr, a, b) ==> PlainBinary(Shr, a, b, m)
  {
    hide Length, ToInt;
    NotItsPart();
  }

  /** The rule for extraction recognises every run. */
  lemma RunRecognised(c: Word, skip: nat, take: nat)
    requires IsRun(c, skip, take) && c != Zero()
    ensures TrailingZeros(c) == skip && c == WShl(Low(TrailingOnes(WShr(c, skip))), skip)
  {
    ZeroIffNoBit(c);
    var i :| 0 <= i < 128 && c[i];
    assert skip < 128 && take > 0 && c[skip];
    var z := TrailingZeros(c);
    assert z < 128 && c[z];
    var n := if skip + take >= 128 then 128 else take;
    OnesOf(WShr(c, skip), n);
    assert forall j :: 0 <= j < 128 ==> WShl(Low(n), skip)[j] == c[j];
  }

  lemma ExtractPlain(a: Node, b: Node)
    requires RewriteExtractBits(a, b) == Bin(ExtractBits, a, b)
    ensures PlainBinary(ExtractBits, a, b, Ones())
  {
    hide IsRun, TrailingZeros, TrailingOnes, WShr, WShl, Low;
    if b.Const? {
      forall skip: nat, take: nat ensures !IsRun(b.value, skip, take) {
        if IsRun(b.value, skip, take) {
          RunRecognised(b.value, skip, take);
          assert false;
        }
      }
    }
  }

  lemma BinaryPlain(op: Binary, a: Node, b: Node, m: Word)
    requires Rewrite(Bin(op, a, b), m) == Bin(op, a, b)
    ensures PlainBinary(op, a, b, m)
  {
    hide RewriteAdd, RewriteSub, RewriteMul, RewriteUnsignedDiv, RewriteDiv, RewriteShl, RewriteShr, RewriteAnd,
         RewriteOr, RewriteXor, RewriteExtractBits, Splits, Overlaps, IsPower, Runs, AndKeeps, NumBits, Length;
    match op
    case Add => AddPlain(a, b, m);
    case Sub => SubPlain(a, b, m);
    case Mul => MulPlain(a, b);
    case UnsignedDiv => DivPlain(a, b);
    case Div => DivPlain(a, b);
    case Shl => ShiftPlain(a, b, m);
    case Shr => ShiftPlain(a, b, m);
    case And => AndPlain(a, b);
    case Or => OrPlain(a, b);
    case Xor => XorPlain(a, b, m);
    case CmpLt =>
    case DepositBits =>
    case ExtractBits => ExtractPlain(a, b);
  }

  /** The conditions under which the rules for conditionals change the node before they look into its
      branches. */
  ghost predicate IfZeroFires(c: Node, z: Node, n: Node, m: Word)
  {
    || c.Const? || z == n || (IsBool(z) && IsBool(n))
    || (Length(m) == 1 && NumBits(c) == 1 && (IsBool(z) || IsBool(n)))
    || IsUn(c, IsZero)
    || (c.Un? && (c.op == Crop(1) || (c.op.Select? && c.op.take == 1)) && IsUn(c.arg, Not))
  }

  lemma FiresMoves(c: Node, z: Node, n: Node, m: Word)
    requires IfZeroFires(c, z, n, m)
    ensures RewriteIfZero(c, z, n, m) != IfZero(c, z, n)
  {
    hide NumBits, Length, MergedConditions;
    NotItsPart();
    if c.Un? {
      CondParts(c.op, c.arg);
    }
  }

  lemma CondParts(op: Unary, a: Node)
    ensures a != Un(op, a)
    ensures a.Un? ==> Un(op, a) != Un(op, a.arg)
  {
    NotItsPart();
  }

  lemma MergedPlain(c: Node, z: Node, n: Node)
    requires MergedConditions(c, z, n) == IfZero(c, z, n)
    ensures (z.IfZero? ==> z.ifZero != n && z.ifNonzero != n) && (n.IfZero? ==> n.ifZero != z && n.ifNonzero != z)
  {
    hide NumNodes;
    forall x, op | c == Bin(op, Un(IsZero, c), x) ensures false {
      PartOfFirst(op, c, x);
    }
    forall x | c == Bin(And, Un(Not, Un(IsZero, c)), x) ensures false {
      PartOfSecond(c, x);
    }
  }

  lemma PartOfFirst(op: Binary, c: Node, x: Node)
    ensures c != Bin(op, Un(IsZero, c), x)
  {
    var t := Bin(op, Un(IsZero, c), x);
    assert NumNodes(Un(IsZero, c)) == NumNodes(c) + 1;
    assert NumNodes(t) == NumNodes(Un(IsZero, c)) + NumNodes(x) + 1;
  }

  lemma PartOfSecond(c: Node, x: Node)
    ensures c != Bin(And, Un(Not, Un(IsZero, c)), x)
  {
    var t := Bin(And, Un(Not, Un(IsZero, c)), x);
    assert NumNodes(Un(IsZero, c)) == NumNodes(c) + 1;
    assert NumNodes(Un(Not, Un(IsZero, c))) == NumNodes(c) + 2;
    assert NumNodes(t) == NumNodes(Un(Not, Un(IsZero, c))) + NumNodes(x) + 1;
  }

  lemma ReachesBranches(c: Node, z: Node, n: Node, m: Word)
    requires !IfZeroFires(c, z, n, m)
    ensures RewriteIfZero(c, z, n, m) == MergedConditions(c, z, n)
  {
    hide NumBits, Length, MergedConditions;
  }

  lemma IfZeroPlain(c: Node, z: Node, n: Node, m: Word)
    requires RewriteIfZero(c, z, n, m) == IfZero(c, z, n)
    ensures PlainIfZero(c, z, n, m)
  {
    hide NumBits, Length, RewriteIfZero, MergedConditions;
    if IfZeroFires(c, z, n, m) {
      FiresMoves(c, z, n, m);
      assert false;
    }
    ReachesBranches(c, z, n, m);
    MergedPlain(c, z, n);
  }

  /** A node that the rules leave as it is has none of the shapes that they remove. */
  lemma StandsPlain(t: Node, m: Word)
    requires Rewrite(t, m) == t
    ensures Plain(t, m)
  {
    hide PlainUnary, PlainBinary, PlainIfZero;
    match t
    case Arg(_, _, _) =>
    case Const(_) =>
    case Un(op, a) => UnaryPlain(op, a, m);
    case Bin(op, a, b) => BinaryPlain(op, a, b, m);
    case IfZero(c, z, n) => IfZeroPlain(c, z, n, m);
  }

  // --------------------------------------------------------------- whole trees

  /** Reduction leaves the tree as it is, and each operand under the demand on it. */
  predicate Settled(t: Node, m: Word)
    decreases t
  {
    && Reduced(t, m) == t
    && (m != Zero() ==>
          match t
          case Arg(_, _, _) => true
          case Const(_) => true
          case Un(op, a) => Settled(a, UnaryMask(op, m))
          case Bin(op, a, b) => Settled(a, LeftMask(op, b, m)) && Settled(b, RightMask(op, m))
          case IfZero(c, z, n) => Settled(c, Ones()) && Settled(z, m) && Settled(n, m))
  }

  /** Every operand of which nothing is demanded is zero, constants hold demanded bits only, and nowhere
      is a shape that the rules remove. */
  ghost predicate Normal(t: Node, m: Word)
    decreases t
  {
    if m == Zero() then t == Const(Zero())
    else
      && Plain(t, m)
      && match t
         case Arg(_, _, _) => true
         case Const(c) => Under(c, m)
         case Un(op, a) => Normal(a, UnaryMask(op, m))
         case Bin(op, a, b) => Normal(a, LeftMask(op, b, m)) && Normal(b, RightMask(op, m))
         case IfZero(c, z, n) => Normal(c, Ones()) && Normal(z, m) && Normal(n, m)
  }

  /** How large the tree of a lookup is. */
  lemma LookupNodes(t: Node, m: Word, i: nat, bits: Word, width: nat)
    ensures NumNodes(Lookup(t, m, i, bits, width)) == 8
    ensures NumNodes(Rewrite(Lookup(t, m, i, bits, width), m)) <= 8
    ensures NumNodes(Rewrite(Lookup(t, m, i, bits, width), m)) == 8 ==>
              Rewrite(Lookup(t, m, i, bits, width), m) == Lookup(t, m, i, bits, width)
  {
    hide Table, PackedTable, TableSkip, OfInt, TrailingZeros, UnsignedUse;
    var v := Table(t, i, bits, m);
    var address := Bin(ExtractBits, Node.Arg(i, width, !UnsignedUse(t, i)), Const(bits));
    var shifted := Bin(Shl, Const(PackedTable(v)), address);
    var entry := Un(Select(TableSkip(v), 1), shifted);
    assert NumNodes(address) == 3;
    assert NumNodes(shifted) == 5;
    assert NumNodes(entry) == 6;
    var place := Const(OfInt(TrailingZeros(m)));
    assert NumNodes(Bin(Shl, entry, place)) == 8;
    assert Rewrite(Bin(Shl, entry, place), m) == RewriteShl(entry, place);
  }

  /** Where the lookup rule applies, what is left has at most eight nodes. */
  lemma LookupSmall(t: Node, m: Word, u: seq<Word>)
    requires LookupFires(t, m, u) && ArgWidth(t, SingleArg(u).value.0).Some?
    ensures NumNodes(ReduceInternal(t, m, u)) <= 8
  {
    hide Rewrite, Lookup, NumNodes;
    var (i, bits) := SingleArg(u).value;
    LookupNodes(t, m, i, bits, ArgWidth(t, i).value);
  }

  /** A node that the whole step leaves as it is. */
  lemma InternalPlain(t: Node, m: Word, u: seq<Word>)
    requires ReduceInternal(t, m, u) == t
    ensures Plain(t, m)
  {
    hide Rewrite, Lookup, Plain, NumNodes, CountOnes;
    if LookupFires(t, m, u) && ArgWidth(t, SingleArg(u).value.0).Some? {
      var (i, bits) := SingleArg(u).value;
      LookupNodes(t, m, i, bits, ArgWidth(t, i).value);
    }
    StandsPlain(t, m);
  }

  lemma UnderMask(c: Word, m: Word)
    requires WAnd(c, m) == c
    ensures Under(c, m)
  {
    forall i | 0 <= i < 128 && c[i] ensures m[i] {
      assert WAnd(c, m)[i] == c[i];
    }
  }

  /** A tree that reduction leaves as it is throughout is in normal form. */
  lemma {:induction false} SettledNormal(t: Node, m: Word)
    requires Settled(t, m)
    ensures Normal(t, m)
    decreases t
  {
    hide ReduceInternal, Uses, LeftMask, RightMask, UnaryMask, Plain;
    if m != Zero() {
      match t
      case Arg(_, _, _) => PlainLeaf(t, m);
      case Const(c) =>
        PlainLeaf(t, m);
        UnderMask(c, m);
      case Un(op, a) =>
        SettledNormal(a, UnaryMask(op, m));
        assert ReducedArgs(t, m) == t;
        InternalPlain(t, m, Uses(t, m));
      case Bin(op, a, b) =>
        SettledNormal(a, LeftMask(op, b, m));
        SettledNormal(b, RightMask(op, m));
        assert ReducedArgs(t, m) == t;
        InternalPlain(t, m, Uses(t, m));
      case IfZero(c, z, n) =>
        SettledNormal(c, Ones());
        SettledNormal(z, m);
        SettledNormal(n, m);
        assert ReducedArgs(t, m) == t;
        InternalPlain(t, m, Uses(t, m));
    }
  }

  lemma PlainLeaf(t: Node, m: Word)
    requires t.Arg? || t.Const?
    ensures Plain(t, m)
  {
  }
}
