/** The hazards are no larger than they have to be: wherever one is found, the rule changes a demanded
    bit for some operands, produces an operator out of range, or makes the source abort.
 */
module Hazards {
  import opened Options
  import opened Words
  import opened WordArithmetic
  import opened BitFields
  import opened Expressions
  import opened Demand
  import opened Rewrites
  import opened RewriteSoundness
  import opened Normalizer
  import opened NormalForms

  /** A constant minus a sum that holds a constant: the rule is right for every value of the sum exactly
      where there is no hazard. */
  lemma SubHazardExact(a: Node, b: Node, m: Word)
    requires SubNegates(a, b, m) && m != Zero()
    ensures (forall y: Word :: Same(m, WSub(y, a.value), WSub(a.value, y))) <==> !SubHazard(a, b, m)
  {
    NegatedDifferenceExact(a.value, m);
  }

  /** An unsigned division by a power of two: for every operand of the computed width. */
  lemma UnsignedDivHazardExact(a: Node, n: nat, m: Word)
    requires 0 < n < 127 && m != Zero()
    ensures (forall x: Word :: Fits(x, NumBits(a)) ==> Same(m, WShr(x, n), WUnsignedDiv(x, OneHot(n))))
        <==> !UnsignedDivHazard(a, Const(OneHot(n)), m)
  {
    UnsignedDivExact(n, m);
    PowerMeans(OneHot(n));
    assert OneHot(n)[n] && !OneHot(0)[n];
    assert IsPowerOfTwo(OneHot(n)) && TrailingZeros(OneHot(n)) == n;
    if NumBits(a) < 128 {
      forall x: Word | Fits(x, NumBits(a)) ensures Same(m, WShr(x, n), WUnsignedDiv(x, OneHot(n))) {
        UnsignedShift(x, n, m);
      }
    } else {
      assert forall x: Word :: Fits(x, NumBits(a));
    }
  }

  /** An extraction: the field that the rule produces is out of range exactly where there is a hazard. */
  lemma ExtractHazardExact(a: Node, b: Node)
    ensures ExtractHazard(a, b) <==>
            var t := RewriteExtractBits(a, b); t.Un? && !ValidUnary(t.op)
  {
    if b.Const? && RewriteExtractBits(a, b).Un? {
      var skip, take := SelectorShape(b.value);
    }
  }

  /** A field of a constant shifted right: for every distance in the range of the shift. */
  lemma TableHazardExact(skip: nat, a: Node, m: Word)
    requires 0 < skip < 128 && ReadsShiftedConst(skip, 1, a)
    ensures var c := a.left.value;
            SelectHazard(skip, 1, a, m) <==>
              !(forall s :: 0 <= s < Distances(a.right) ==>
                  Same(m, TableField(skip, c, s), WSelect(WShr(c, s), skip, 1)))
  {
    var c, limit := a.left.value, Distances(a.right);
    assert Pow2(7) == 128;
    Pow2Mono(Min(NumBits(a.right), 7), 7);
    ShiftedConstExact(skip, c, limit);
    forall s | 0 <= s < limit
      ensures Same(m, TableField(skip, c, s), WSelect(WShr(c, s), skip, 1)) <==>
              !m[0] || TableField(skip, c, s) == WSelect(WShr(c, s), skip, 1)
    {
      TableFieldValue(skip, c, s);
      OneBitSame(m, TableField(skip, c, s), WSelect(WShr(c, s), skip, 1));
    }
  }

  /** Words that differ in bit 0 at most. */
  lemma OneBitSame(m: Word, x: Word, y: Word)
    requires forall i :: 0 < i < 128 ==> !x[i] && !y[i]
    ensures Same(m, x, y) <==> !m[0] || x == y
  {
    if x[0] == y[0] {
      assert x == y;
    }
  }

  /** A field of a shift by a constant: for every operand, or a skip that is out of range. */
  lemma ConstShiftHazardExact(skip: nat, take: nat, a: Node, m: Word)
    requires 0 < skip && ValidUnary(Select(skip, take)) && ReadsConstShift(a) && !ReadsEvenConst(take, a)
    ensures var c := a.right.value;
            SelectHazard(skip, take, a, m) <==>
              || !(forall x: Word :: Same(m, MovedField(skip, take, x, c), WSelect(WShl(x, Amount(c)), skip, take)))
              || !ValidUnary(RewriteConstShift(skip, take, a.left, c).op)
  {
    hide MovedField, ConstShiftKeeps, Amount, WShl, WSelect, ToInt;
    ConstShiftExact(skip, take, a.right.value, m);
  }

  /** The other fields: only a width that does not fit in a byte is a hazard, where the source aborts. */
  lemma OtherFieldHazards(skip: nat, take: nat, a: Node, m: Word)
    requires !ReadsShiftedConst(skip, take, a) && (!ReadsConstShift(a) || ReadsEvenConst(take, a))
    ensures SelectHazard(skip, take, a, m) <==>
            skip != 0 && !(a.Un? && a.op.Select?) && !ReadsEvenConst(take, a) && NumBits(a) - skip > 255
  {
  }

  /** The hazards of a node are those of its operator, and most operators have none. */
  lemma HazardsByOperator(t: Node, m: Word)
    ensures Hazard(t, m) <==>
            match t
            case Un(Select(skip, take), a) => SelectHazard(skip, take, a, m)
            case Bin(Or, a, b) => OrHazard(a, b, m)
            case Bin(Sub, a, b) => SubHazard(a, b, m)
            case Bin(UnsignedDiv, a, b) => UnsignedDivHazard(a, b, m)
            case Bin(ExtractBits, a, b) => ExtractHazard(a, b)
            case _ => false
  {
  }

  /** There is a hazard only where a rule changes the node, or aborts on a wide operand of a field. */
  lemma HazardMoves(t: Node, m: Word)
    requires Hazard(t, m) && !(t.Un? && t.op.Select? && NumBits(t.arg) - t.op.skip > 255)
    ensures Rewrite(t, m) != t
  {
    hide NumBits, Length, Low, TrailingZeros, TrailingOnes, WShr, WShl, CombinedMask;
    HazardsByOperator(t, m);
    NotItsPart();
    if t.Un? {
      FieldHazardMoves(t.op.skip, t.op.take, t.arg, m);
    } else if t.bop == Sub {
      SumNodes(Sub, t.left, t.right);
      SmallerSum(t.right, t.left.value);
    }
  }

  lemma FieldHazardMoves(skip: nat, take: nat, a: Node, m: Word)
    requires SelectHazard(skip, take, a, m) && NumBits(a) - skip <= 255
    ensures RewriteSelect(skip, take, a) != Un(Select(skip, take), a)
  {
    hide RewriteSelect, NumBits, TableWraps;
    if RewriteSelect(skip, take, a) == Un(Select(skip, take), a) {
      SelectPlain(skip, take, a);
      ToIntOfZero();
      assert false;
    }
  }

  lemma ToIntOfZero()
    ensures ToInt(Zero()) == 0
  {
    SignOfInt(Zero());
    ToNatZero(Zero());
  }

  /** A lookup reads its input unsigned exactly when the tree reads it unsigned somewhere. */
  lemma {:induction false} UnsignedExactly(t: Node, i: nat)
    ensures UnsignedUse(t, i) <==> exists w: nat :: Reads(t, Node.Arg(i, w, false))
    decreases t
  {
    match t
    case Arg(j, w, signed) => assert Reads(t, t);
    case Const(_) =>
    case Un(_, a) => UnsignedExactly(a, i);
    case Bin(_, a, b) =>
      UnsignedExactly(a, i);
      UnsignedExactly(b, i);
    case IfZero(c, z, n) =>
      UnsignedExactly(c, i);
      UnsignedExactly(z, i);
      UnsignedExactly(n, i);
  }

  /** The tree has this leaf. */
  predicate Reads(t: Node, leaf: Node)
  {
    match t
    case Arg(_, _, _) => t == leaf
    case Const(_) => t == leaf
    case Un(_, a) => Reads(a, leaf)
    case Bin(_, a, b) => Reads(a, leaf) || Reads(b, leaf)
    case IfZero(c, z, n) => Reads(c, leaf) || Reads(z, leaf) || Reads(n, leaf)
  }

  /** The tree mentions input `i` and no other. */
  ghost predicate MentionsJust(t: Node, i: nat) { forall j: nat :: Mentions(t, j) <==> j == i }

  /** A lookup is refused exactly when the reduced tree does not mention the one used input, or mentions
      another, or when the used bit is the one for which the deposit loop does not end. */
  lemma LookupHazardExact(t: Node, u: seq<Word>)
    requires SingleArg(u).Some?
    ensures var (i, bits) := SingleArg(u).value;
            !LookupHazard(t, u) <==> bits != OneHot(127) && MentionsJust(t, i)
  {
    var (i, bits) := SingleArg(u).value;
    WidthExactly(t, i);
    if OnlyArg(t, i) {
      forall j: nat | Mentions(t, j) ensures j == i {
        OnlyThis(t, i, j);
      }
    } else {
      var j := AnotherInput(t, i);
      assert Mentions(t, j) && j != i;
      assert !MentionsJust(t, i);
    }
  }

  lemma {:induction false} OnlyThis(t: Node, i: nat, j: nat)
    requires OnlyArg(t, i) && Mentions(t, j)
    ensures j == i
    decreases t
  {
    match t
    case Arg(_, _, _) =>
    case Un(_, a) => OnlyThis(a, i, j);
    case Bin(_, a, b) => if Mentions(a, j) { OnlyThis(a, i, j); } else { OnlyThis(b, i, j); }
    case IfZero(c, z, n) =>
      if Mentions(c, j) { OnlyThis(c, i, j); } else if Mentions(z, j) { OnlyThis(z, i, j); } else { OnlyThis(n, i, j); }
  }

  lemma {:induction false} AnotherInput(t: Node, i: nat) returns (j: nat)
    requires !OnlyArg(t, i)
    ensures Mentions(t, j) && j != i
    decreases t
  {
    match t
    case Arg(k, _, _) => j := k;
    case Un(_, a) => j := AnotherInput(a, i);
    case Bin(_, a, b) =>
      if !OnlyArg(a, i) { j := AnotherInput(a, i); } else { j := AnotherInput(b, i); }
    case IfZero(c, z, n) =>
      if !OnlyArg(c, i) {
        j := AnotherInput(c, i);
      } else if !OnlyArg(z, i) {
        j := AnotherInput(z, i);
      } else {
        j := AnotherInput(n, i);
      }
  }

  lemma {:induction false} WidthExactly(t: Node, i: nat)
    ensures ArgWidth(t, i).Some? <==> Mentions(t, i)
    decreases t
  {
    match t
    case Arg(_, _, _) =>
    case Const(_) =>
    case Un(_, a) => WidthExactly(a, i);
    case Bin(_, a, b) =>
      WidthExactly(a, i);
      WidthExactly(b, i);
    case IfZero(c, z, n) =>
      WidthExactly(c, i);
      WidthExactly(z, i);
      WidthExactly(n, i);
  }

  /** What guarded rewriting leaves as it is has none of the removed shapes, or meets a hazard. */
  lemma GuardedStands(t: Node, m: Word)
    requires GuardedRewrite(t, m) == t
    ensures Plain(t, m) || Hazard(t, m)
  {
    if !Hazard(t, m) {
      StandsPlain(t, m);
    }
  }

  // ------------------------------------------------------------ whole reductions

  /** Reducing `t` under `m` reduces the subtree `s` under `m'`. */
  ghost predicate Visits(t: Node, m: Word, s: Node, m': Word)
    decreases t
  {
    && m != Zero()
    && (|| (s == t && m' == m)
        || match t
           case Arg(_, _, _) => false
           case Const(_) => false
           case Un(op, a) => Visits(a, UnaryMask(op, m), s, m')
           case Bin(op, a, b) => Visits(a, LeftMask(op, b, m), s, m') || Visits(b, RightMask(op, m), s, m')
           case IfZero(c, z, n) => Visits(c, Ones(), s, m') || Visits(z, m, s, m') || Visits(n, m, s, m'))
  }

  /** Nothing goes wrong at an operator: its demand covers the sign, and, its operands reduced, either a
      lookup may replace it or the rules meet no hazard. */
  ghost predicate Fine(s: Node, m: Word)
  {
    s.Arg? || s.Const? ||
    var reduced, u := ReducedArgs(s, m), Uses(s, m);
    && (s.Un? ==> DemandCovered(s.op, m))
    && if LookupFires(reduced, m, u) then !LookupHazard(reduced, u) && SignsCovered(s, m) else !Hazard(reduced, m)
  }

  /** A reduction is safe exactly when nothing goes wrong at any subtree that it visits. */
  lemma SafeExactly(t: Node, m: Word)
    ensures Safe(t, m) <==> forall s, m' :: Visits(t, m, s, m') ==> Fine(s, m')
  {
    if Safe(t, m) {
      forall s, m' | Visits(t, m, s, m') ensures Fine(s, m') {
        SafeVisited(t, m, s, m');
      }
    } else {
      var s, m' := UnsafeVisited(t, m);
    }
  }

  lemma {:induction false} SafeVisited(t: Node, m: Word, s: Node, m': Word)
    requires Safe(t, m) && Visits(t, m, s, m')
    ensures Fine(s, m')
    decreases t
  {
    hide ReducedArgs, Reduced, Uses, LeftMask, RightMask, UnaryMask, LookupFires, LookupHazard, Hazard;
    if !(s == t && m' == m) {
      match t
      case Un(op, a) => SafeVisited(a, UnaryMask(op, m), s, m');
      case Bin(op, a, b) =>
        if Visits(a, LeftMask(op, b, m), s, m') {
          SafeVisited(a, LeftMask(op, b, m), s, m');
        } else {
          SafeVisited(b, RightMask(op, m), s, m');
        }
      case IfZero(c, z, n) =>
        if Visits(c, Ones(), s, m') {
          SafeVisited(c, Ones(), s, m');
        } else if Visits(z, m, s, m') {
          SafeVisited(z, m, s, m');
        } else {
          SafeVisited(n, m, s, m');
        }
    }
  }

  lemma {:induction false} UnsafeVisited(t: Node, m: Word) returns (s: Node, m': Word)
    requires !Safe(t, m)
    ensures Visits(t, m, s, m') && !Fine(s, m')
    decreases t
  {
    hide ReducedArgs, Reduced, Uses, LeftMask, RightMask, UnaryMask, LookupFires, LookupHazard, Hazard;
    s, m' := t, m;
    if Fine(t, m) {
      match t
      case Un(op, a) => s, m' := UnsafeVisited(a, UnaryMask(op, m));
      case Bin(op, a, b) =>
        if !Safe(a, LeftMask(op, b, m)) {
          s, m' := UnsafeVisited(a, LeftMask(op, b, m));
        } else {
          s, m' := UnsafeVisited(b, RightMask(op, m));
        }
      case IfZero(c, z, n) =>
        if !Safe(c, Ones()) {
          s, m' := UnsafeVisited(c, Ones());
        } else if !Safe(z, m) {
          s, m' := UnsafeVisited(z, m);
        } else {
          s, m' := UnsafeVisited(n, m);
        }
    }
  }

  /** Rounds are safe exactly when each of them is, on the tree that the earlier ones give. */
  lemma {:induction false} SafeRoundsExactly(t: Node, m: Word, k: nat)
    ensures SafeRounds(t, m, k) <==> forall i :: 0 <= i < k ==> Safe(Rounds(t, m, i), m)
    decreases k
  {
    hide Safe, Reduced, Rounds;
    RoundsDone(t, m);
    if k > 0 {
      var next := Reduced(t, m);
      SafeRoundsExactly(next, m, k - 1);
      if SafeRounds(t, m, k) {
        forall i | 0 <= i < k ensures Safe(Rounds(t, m, i), m) {
          if i > 0 {
            RoundsNext(t, m, i);
          }
        }
      } else if Safe(t, m) {
        var j :| 0 <= j < k - 1 && !Safe(Rounds(next, m, j), m);
        RoundsNext(t, m, j + 1);
        assert !Safe(Rounds(t, m, j + 1), m);
      } else {
        assert !Safe(Rounds(t, m, 0), m);
      }
    }
  }

  predicate Subtree(t: Node, s: Node)
  {
    || t == s
    || match t
       case Arg(_, _, _) => false
       case Const(_) => false
       case Un(_, a) => Subtree(a, s)
       case Bin(_, a, b) => Subtree(a, s) || Subtree(b, s)
       case IfZero(c, z, n) => Subtree(c, s) || Subtree(z, s) || Subtree(n, s)
  }

  predicate Signs(s: Node) { (s.Un? && s.op.SignExtend?) || (s.Arg? && s.signed) }

  /** A tree is free of signs exactly when it has no sign extension and no signed input. */
  lemma SignFreeExactly(t: Node)
    ensures SignFree(t) <==> forall s :: Subtree(t, s) ==> !Signs(s)
  {
    if SignFree(t) {
      forall s | Subtree(t, s) ensures !Signs(s) {
        SignFreeSubtree(t, s);
      }
    } else {
      var s := SignedSubtree(t);
    }
  }

  lemma {:induction false} SignFreeSubtree(t: Node, s: Node)
    requires SignFree(t) && Subtree(t, s)
    ensures !Signs(s)
    decreases t
  {
    if t != s {
      match t
      case Un(_, a) => SignFreeSubtree(a, s);
      case Bin(_, a, b) => if Subtree(a, s) { SignFreeSubtree(a, s); } else { SignFreeSubtree(b, s); }
      case IfZero(c, z, n) =>
        if Subtree(c, s) {
          SignFreeSubtree(c, s);
        } else if Subtree(z, s) {
          SignFreeSubtree(z, s);
        } else {
          SignFreeSubtree(n, s);
        }
    }
  }

  lemma {:induction false} SignedSubtree(t: Node) returns (s: Node)
    requires !SignFree(t)
    ensures Subtree(t, s) && Signs(s)
    decreases t
  {
    s := t;
    if !Signs(t) {
      match t
      case Un(_, a) => s := SignedSubtree(a);
      case Bin(_, a, b) => if !SignFree(a) { s := SignedSubtree(a); } else { s := SignedSubtree(b); }
      case IfZero(c, z, n) =>
        if !SignFree(c) {
          s := SignedSubtree(c);
        } else if !SignFree(z) {
          s := SignedSubtree(z);
        } else {
          s := SignedSubtree(n);
        }
    }
  }
}
