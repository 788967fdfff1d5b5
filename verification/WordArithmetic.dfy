/** Facts that relate the arithmetic operators on words to their bits. */
module WordArithmetic {
  import opened Arithmetic
  import opened Words

  // ------------------------------------------------------ ring laws on words

  lemma AddOfInt(x: int, y: int)
    ensures WAdd(OfInt(x), OfInt(y)) == OfInt(x + y)
    ensures WSub(OfInt(x), OfInt(y)) == OfInt(x - y)
  {
    ToNatOfInt(x);
    ToNatOfInt(y);
    CongAdd(128, ToNat(OfInt(x)), x, ToNat(OfInt(y)), y);
    OfIntCong(ToNat(OfInt(x)) + ToNat(OfInt(y)), x + y);
    OfIntCong(ToNat(OfInt(x)) - ToNat(OfInt(y)), x - y);
  }

  lemma AddAddRight(a: Word, b: Word, c: Word)
    ensures WAdd(WAdd(a, b), c) == WAdd(WAdd(a, c), b)
    ensures WAdd(WAdd(a, b), c) == WAdd(a, WAdd(b, c))
    ensures WAdd(WSub(a, b), c) == WSub(WAdd(a, c), b)
    ensures WAdd(WSub(a, b), c) == WSub(a, WSub(b, c))
    ensures WSub(WAdd(a, b), c) == WAdd(WSub(a, c), b)
    ensures WSub(WAdd(a, b), c) == WAdd(a, WSub(b, c))
    ensures WSub(WSub(a, b), c) == WSub(WSub(a, c), b)
    ensures WSub(WSub(a, b), c) == WSub(a, WAdd(b, c))
  {
    hide OfInt, ToNat;
    OfIntToNat(a);
    OfIntToNat(b);
    OfIntToNat(c);
    var x: int, y: int, z: int := ToNat(a), ToNat(b), ToNat(c);
    AddOfInt(x, y);
    AddOfInt(x, z);
    AddOfInt(y, z);
    AddOfInt(x + y, z);
    AddOfInt(x + z, y);
    AddOfInt(x, y + z);
    AddOfInt(x - y, z);
    AddOfInt(x, y - z);
    AddOfInt(x - z, y);
  }

  lemma AddCommutes(a: Word, b: Word)
    ensures WAdd(a, b) == WAdd(b, a)
  {
  }

  lemma AddZero(a: Word)
    ensures WAdd(a, Zero()) == a && WAdd(Zero(), a) == a && WSub(a, Zero()) == a
  {
    OfIntToNat(a);
    ToNatZero(Zero());
  }

  lemma ToNatZero(s: seq<bool>)
    requires forall i :: 0 <= i < |s| ==> !s[i]
    ensures ToNat(s) == 0
  {
  }

  /** `-c`, the result of `checked_neg` when it does not overflow. */
  function WNeg(c: Word): Word { OfInt(-ToInt(c)) }

  lemma SubNeg(a: Word, c: Word)
    ensures WSub(a, WNeg(c)) == WAdd(a, c)
    ensures WAdd(a, WNeg(c)) == WSub(a, c)
  {
    OfIntToNat(a);
    ToIntCong(c);
    AddOfInt(ToNat(a), -ToInt(c));
    AddOfInt(ToNat(a), ToInt(c));
  }

  /** Addition and subtraction never send information from high bits to low bits. */
  lemma AddLowBits(k: nat, a: Word, a': Word, b: Word, b': Word)
    requires k <= 128
    requires forall i :: 0 <= i < k ==> a[i] == a'[i]
    requires forall i :: 0 <= i < k ==> b[i] == b'[i]
    ensures forall i :: 0 <= i < k ==> WAdd(a, b)[i] == WAdd(a', b')[i]
    ensures forall i :: 0 <= i < k ==> WSub(a, b)[i] == WSub(a', b')[i]
  {
    forall i | 0 <= i < k
      ensures Bit(ToNat(a), i) == Bit(ToNat(a'), i) && Bit(ToNat(b), i) == Bit(ToNat(b'), i)
    {
      BitOfToNat(a, i);
      BitOfToNat(a', i);
      BitOfToNat(b, i);
      BitOfToNat(b', i);
    }
    BitsToCong(k, ToNat(a), ToNat(a'));
    BitsToCong(k, ToNat(b), ToNat(b'));
    CongAdd(k, ToNat(a), ToNat(a'), ToNat(b), ToNat(b'));
    CongToBits(k, ToNat(a) + ToNat(b), ToNat(a') + ToNat(b'));
    CongToBits(k, ToNat(a) - ToNat(b), ToNat(a') - ToNat(b'));
  }

  lemma ToNatBit0(a: Word)
    ensures ToNat(a) % 2 == if a[0] then 1 else 0
  {
  }

  lemma OfIntBit0(n: int)
    ensures OfInt(n)[0] == (n % 2 == 1)
  {
    assert OfInt(n)[0] == Bit(n, 0);
  }

  /** In bit 0, adding or subtracting one is negation. */
  lemma AddOneBit0(a: Word)
    ensures WAdd(a, OneHot(0))[0] == !a[0]
    ensures WAdd(OneHot(0), a)[0] == !a[0]
    ensures WSub(a, OneHot(0))[0] == !a[0]
  {
    var n: int, one: int := ToNat(a), ToNat(OneHot(0));
    ToNatBit0(a);
    ToNatOneHot(0);
    assert one == 1;
    OfIntBit0(n + one);
    OfIntBit0(one + n);
    OfIntBit0(n - one);
  }

  /** Subtracting words gives zero exactly when they are equal. */
  lemma SubIsZero(a: Word, b: Word)
    ensures WSub(a, b) == Zero() <==> a == b
  {
    hide ToNat, Cong;
    OfIntToNat(a);
    OfIntToNat(b);
    OfIntZero(Zero());
    if a != b {
      DifferenceZero(ToNat(a), ToNat(b));
    }
  }

  lemma OfIntZero(z: Word)
    requires z == Zero()
    ensures OfInt(0) == z
  {
    ToNatZero(z);
    OfIntToNat(z);
  }

  lemma DifferenceZero(x: int, y: int)
    ensures OfInt(x - y) == OfInt(0) ==> OfInt(x) == OfInt(y)
  {
    hide OfInt;
    OfIntCong(x - y, 0);
    OfIntCong(x, y);
    if Cong(128, x - y, 0) {
      CongRefl(128, y);
      CongAdd(128, x - y, 0, y, y);
    }
  }

  // ------------------------------------------------------ widths and bounds

  lemma {:induction false} BoundClearsBit(x: nat, n: nat, i: nat)
    requires x < Pow2(n) && n <= i
    ensures !Bit(x, i)
    decreases i
  {
    if n == 0 {
      BitOfZero(i);
    } else {
      BoundClearsBit(x / 2, n - 1, i - 1);
    }
  }

  lemma {:induction false} ClearTopBitBound(x: nat, n: nat)
    requires x < Pow2(n + 1) && !Bit(x, n)
    ensures x < Pow2(n)
    decreases n
  {
    if n > 0 {
      assert x / 2 < Pow2(n);
      ClearTopBitBound(x / 2, n - 1);
    }
  }

  lemma {:induction false} FitsBound(a: Word, n: nat)
    requires n <= 128 && Fits(a, n)
    ensures ToNat(a) < Pow2(n)
    decreases 128 - n
  {
    if n == 128 {
      ToNatBound(a);
    } else {
      FitsBound(a, n + 1);
      BitOfToNat(a, n);
      ClearTopBitBound(ToNat(a), n);
    }
  }

  lemma BoundFits(x: nat, n: nat)
    requires x < Pow2(n)
    ensures Fits(OfInt(x), n)
  {
    forall i | n <= i < 128 ensures !OfInt(x)[i] {
      BoundClearsBit(x, n, i);
    }
  }

  lemma {:induction false} Pow2Mono(m: nat, n: nat)
    requires m <= n
    ensures Pow2(m) <= Pow2(n)
    decreases n
  {
    if m < n {
      Pow2Mono(m, n - 1);
    }
  }

  lemma {:induction false} Pow2Add(m: nat, n: nat)
    ensures Pow2(m + n) == Pow2(m) * Pow2(n)
    decreases m
  {
    if m > 0 {
      Pow2Add(m - 1, n);
    }
  }

  lemma AddFits(a: Word, b: Word, n: nat)
    requires Fits(a, n) && Fits(b, n)
    ensures Fits(WAdd(a, b), n + 1)
  {
    if n < 128 {
      FitsBound(a, n);
      FitsBound(b, n);
      BoundFits(ToNat(a) + ToNat(b), n + 1);
    }
  }

  lemma MulFits(a: Word, b: Word, m: nat, n: nat)
    requires Fits(a, m) && Fits(b, n)
    ensures Fits(WMul(a, b), m + n)
  {
    if m + n < 128 {
      FitsBound(a, m);
      FitsBound(b, n);
      ProductBound(ToNat(a), ToNat(b), Pow2(m), Pow2(n));
      Pow2Add(m, n);
      BoundFits(ToNat(a) * ToNat(b), m + n);
    }
  }

  lemma ProductBound(x: nat, y: nat, p: nat, q: nat)
    requires x < p && y < q
    ensures x * y < p * q
  {
    assert x * y <= x * q;
    assert x * q < p * q;
  }

  lemma QuotientBound(x: nat, y: int)
    requires y > 0
    ensures 0 <= x / y <= x
  {
    var q := x / y;
    assert x == q * y + x % y;
    if q < 0 {
      MulMono(q, -1, y);
      assert false;
    } else {
      MulMono(0, q, y - 1 + 1);
      assert q * y == q * (y - 1) + q;
      if y > 1 {
        MulMono(0, q, y - 1);
      }
    }
  }

  lemma UnsignedDivFits(a: Word, b: Word, n: nat)
    requires Fits(a, n)
    ensures Fits(WUnsignedDiv(a, b), n)
  {
    if n < 128 && ToNat(b) != 0 {
      FitsBound(a, n);
      QuotientBound(ToNat(a), ToNat(b));
      BoundFits(ToNat(a) / ToNat(b), n);
    }
  }

  lemma DivFits(a: Word, b: Word, n: nat)
    requires Fits(a, n) && Fits(b, n)
    ensures Fits(WDiv(a, b), n)
  {
    if n < 128 {
      FitsBound(a, n);
      SignOfInt(a);
      SignOfInt(b);
    }
    if n < 128 && ToNat(b) != 0 {
      QuotientBound(ToNat(a), ToNat(b));
      BoundFits(ToNat(a) / ToNat(b), n);
    }
  }

  // --------------------------------------------- powers of two and bit shifts

  lemma {:induction false} ToNatOneHot(n: nat)
    requires n < 128
    ensures ToNat(OneHot(n)) == Pow2(n)
  {
    ToNatSingleBit(OneHot(n), n);
  }

  lemma {:induction false} ToNatSingleBit(s: seq<bool>, n: nat)
    requires n < |s| && forall i :: 0 <= i < |s| ==> s[i] == (i == n)
    ensures ToNat(s) == Pow2(n)
    decreases n
  {
    if n == 0 {
      ToNatZero(s[1..]);
    } else {
      ToNatSingleBit(s[1..], n - 1);
    }
  }

  lemma {:induction false} BitOfScaled(x: int, n: nat, i: nat)
    ensures Bit(x * Pow2(n), i) == (n <= i && Bit(x, i - n))
    decreases n
  {
    if n > 0 {
      assert x * Pow2(n) == 2 * (x * Pow2(n - 1));
      if i > 0 {
        BitOfScaled(x, n - 1, i - 1);
      }
    }
  }

  lemma HalveQuotient(x: nat, p: nat)
    requires p > 0
    ensures x / (2 * p) == x / 2 / p
  {
    var q, r := x / 2 / p, x / 2 % p;
    assert x / 2 == q * p + r;
    assert x == q * (2 * p) + (2 * r + x % 2);
    QuotientUnique(x, 2 * p, q, 2 * r + x % 2);
  }

  lemma {:induction false} BitOfQuotient(x: nat, n: nat, i: nat)
    ensures 0 <= x / Pow2(n)
    ensures Bit(x / Pow2(n), i) == Bit(x, i + n)
    decreases n
  {
    QuotientBound(x, Pow2(n));
    if n > 0 {
      HalveQuotient(x, Pow2(n - 1));
      BitOfQuotient(x / 2, n - 1, i);
    }
  }

  /** Multiplying by `2^n` shifts left by `n`. */
  lemma MulOneHot(a: Word, n: nat)
    requires n < 128
    ensures WMul(a, OneHot(n)) == WShl(a, n)
    ensures WMul(OneHot(n), a) == WShl(a, n)
  {
    ToNatOneHot(n);
    forall i | 0 <= i < 128 ensures OfInt(ToNat(a) * Pow2(n))[i] == WShl(a, n)[i] {
      BitOfScaled(ToNat(a), n, i);
      if n <= i {
        BitOfToNat(a, i - n);
      }
    }
    assert WMul(a, OneHot(n)) == WShl(a, n);
  }

  lemma MulOne(a: Word)
    ensures WMul(a, OneHot(0)) == a && WMul(OneHot(0), a) == a
  {
    MulOneHot(a, 0);
    assert WShl(a, 0) == a;
  }

  /** Unsigned division by `2^n` moves every bit down by `n`, with zeros from the top. */
  lemma UnsignedDivOneHot(a: Word, n: nat, i: nat)
    requires n < 128 && i < 128
    ensures WUnsignedDiv(a, OneHot(n))[i] == (i + n < 128 && a[i + n])
  {
    ToNatOneHot(n);
    BitOfQuotient(ToNat(a), n, i);
    BitOfToNat(a, i + n);
  }

  lemma DivOneHot(a: Word, n: nat)
    requires n < 127 && !a[127]
    ensures WDiv(a, OneHot(n)) == WShr(a, n)
  {
    ToNatOneHot(n);
    SignOfInt(OneHot(n));
    SignOfInt(a);
    forall i | 0 <= i < 128 ensures WDiv(a, OneHot(n))[i] == WShr(a, n)[i] {
      UnsignedDivOneHot(a, n, i);
    }
  }

  lemma DivOne(a: Word)
    ensures WDiv(a, OneHot(0)) == a && WUnsignedDiv(a, OneHot(0)) == a
  {
    ToNatOneHot(0);
    SignOfInt(OneHot(0));
    ToIntCong(a);
    OfIntToNat(a);
  }

  // ------------------------------------------------------ addition as union

  lemma {:induction false} DisjointSum(a: seq<bool>, b: seq<bool>, c: seq<bool>)
    requires |a| == |b| == |c|
    requires forall i :: 0 <= i < |a| ==> !(a[i] && b[i]) && c[i] == (a[i] || b[i])
    ensures ToNat(a) + ToNat(b) == ToNat(c)
    decreases |a|
  {
    if |a| > 0 {
      DisjointSum(a[1..], b[1..], c[1..]);
    }
  }

  /** Words without a common set bit add without carries. */
  lemma AddDisjoint(a: Word, b: Word)
    requires forall i :: 0 <= i < 128 ==> !(a[i] && b[i])
    ensures WAdd(a, b) == WOr(a, b)
  {
    DisjointSum(a, b, WOr(a, b));
    OfIntToNat(WOr(a, b));
  }

  // --------------------------------------------------------- shift distances

  lemma {:induction false} ToNatPrefix(s: seq<bool>, k: nat)
    requires k <= |s| && forall i :: k <= i < |s| ==> !s[i]
    ensures ToNat(s[..k]) == ToNat(s)
    decreases k
  {
    if k == 0 {
      ToNatZero(s);
    } else {
      assert s[..k][1..] == s[1..][..k - 1];
      ToNatPrefix(s[1..], k - 1);
    }
  }

  /** The shift distance of a word that fits in at most seven bits is its value. */
  lemma AmountOfNarrow(a: Word, k: nat)
    requires k <= 7 && Fits(a, k)
    ensures Amount(a) == ToNat(a) < Pow2(k)
  {
    ToNatPrefix(a, 7);
    FitsBound(a, k);
  }

  lemma AmountOfSmall(a: Word)
    requires ToNat(a) < 128
    ensures Amount(a) == ToNat(a)
  {
    assert Pow2(7) == 128;
    forall i | 7 <= i < 128 ensures !a[i] {
      BoundClearsBit(ToNat(a), 7, i);
      BitOfToNat(a, i);
    }
    ToNatPrefix(a, 7);
  }

  lemma {:induction false} SignedSplit(s: seq<bool>, k: nat)
    requires k < |s|
    ensures Signed(s) == ToNat(s[..k]) + Pow2(k) * Signed(s[k..])
    decreases k
  {
    if k > 0 {
      SignedSplit(s[1..], k - 1);
      assert s[1..][..k - 1] == s[..k][1..] && s[1..][k - 1..] == s[k..];
      var p, rest := Pow2(k - 1), Signed(s[k..]);
      assert Pow2(k) * rest == 2 * (p * rest);
    } else {
      assert s[0..] == s;
    }
  }

  /** The shift distance is the operand modulo 128, for negative operands too. */
  lemma AmountModulo(a: Word)
    ensures Amount(a) == ToInt(a) % 128
  {
    SignedSplit(a, 7);
    assert Pow2(7) == 128;
    QuotientUnique(ToInt(a), 128, Signed(a[7..]), Amount(a));
  }

  lemma AmountSame(a: Word, b: Word)
    requires Same(Low(7), a, b)
    ensures Amount(a) == Amount(b)
  {
    assert forall i :: 0 <= i < 7 ==> Low(7)[i];
    assert a[..7] == b[..7];
  }

  lemma OfNatSmall(n: nat)
    requires n < 128
    ensures ToNat(OfInt(n)) == n
    ensures ToInt(OfInt(n)) == n
  {
    assert Pow2(7) == 128;
    BoundFits(n, 7);
    FitsBound(OfInt(n), 7);
    SignOfInt(OfInt(n));
    ToNatOfInt(n);
    var q: int :| ToNat(OfInt(n)) == n + q * Pow2(128);
    Pow2Mono(7, 128);
    if q > 0 {
      MulMono(1, q, Pow2(128));
      assert false;
    } else if q < 0 {
      MulMono(q, -1, Pow2(128));
      assert false;
    }
  }

  // --------------------------------------------------------- what parity means

  lemma {:induction false} OneMore(s: seq<bool>, i: nat)
    requires i < |s| && !s[i]
    ensures CountOnes(s[i := true]) == CountOnes(s) + 1
    decreases |s|
  {
    var r := s[i := true];
    if i == 0 {
      assert r[1..] == s[1..];
    } else {
      assert r[1..] == s[1..][i - 1 := true];
      OneMore(s[1..], i - 1);
    }
  }

  lemma {:induction false} NoOnes(s: seq<bool>)
    requires forall i :: 0 <= i < |s| ==> !s[i]
    ensures CountOnes(s) == 0
    decreases |s|
  {
    if |s| > 0 {
      NoOnes(s[1..]);
    }
  }

  /** The parity is one for zero, changes with each of the lowest eight bits, and looks at no other. */
  lemma ParityFlips(a: Word, i: nat)
    requires i < 128 && !a[i]
    ensures WParity(Zero()) == OneHot(0)
    ensures WParity(a)[0] == WParity(a[i := true])[0] <==> i >= 8
    ensures forall j :: 0 < j < 128 ==> !WParity(a)[j]
  {
    NoOnes(Zero()[..8]);
    var b: Word := a[i := true];
    if i < 8 {
      assert b[..8] == a[..8][i := true];
      OneMore(a[..8], i);
    } else {
      assert b[..8] == a[..8];
    }
  }

  // --------------------------------------------- comparison and division, by value

  /** Of two bit sequences the one with the highest bit in which they differ is greater, or smaller if
      that is the sign. */
  lemma {:induction false} SignedOrder(s: seq<bool>, t: seq<bool>, i: nat)
    requires |s| == |t| && i < |s| && s[i] != t[i] && forall j :: i < j < |s| ==> s[j] == t[j]
    ensures Signed(s) < Signed(t) <==> if i == |s| - 1 then s[i] else t[i]
    ensures Signed(s) != Signed(t)
    decreases |s|
  {
    if |s| > 1 {
      if i == 0 {
        assert s[1..] == t[1..];
      } else {
        SignedOrder(s[1..], t[1..], i - 1);
      }
    }
  }

  lemma ComparedByBits(a: Word, b: Word, i: nat)
    requires i < 128 && a[i] != b[i] && forall j :: i < j < 128 ==> a[j] == b[j]
    ensures WCmpLt(a, b) == if (if i == 127 then a[i] else b[i]) then OneHot(0) else Zero()
    ensures WCmpLt(a, a) == Zero()
  {
    SignedOrder(a, b, i);
  }

  lemma {:induction false} SignedRange(s: seq<bool>)
    requires |s| > 0
    ensures 0 - Pow2(|s| - 1) <= Signed(s) < Pow2(|s| - 1)
    decreases |s|
  {
    if |s| > 1 {
      SignedRange(s[1..]);
    }
  }

  lemma TwiceHalf(n: nat)
    ensures Pow2(n + 1) == 2 * Pow2(n)
  {
  }

  /** Two integers in one period that differ by whole periods are the same. */
  lemma NoMultiple(x: int, y: int, r: int, half: nat)
    requires 0 - half <= x < half && 0 - half <= y < half && x == y + r * (2 * half)
    ensures x == y
  {
    if r > 0 {
      MulMono(1, r, 2 * half);
      assert false;
    } else if r < 0 {
      MulMono(r, -1, 2 * half);
      assert false;
    }
  }

  lemma Distributes(q: int, d: int)
    ensures (q - 1) * d == q * d - d
  {
  }

  /** The value of a word that is made from an integer in range. */
  lemma ToIntOfInt(x: int)
    requires 0 - Pow2(127) <= x < Pow2(127)
    ensures ToInt(OfInt(x)) == x
  {
    hide Pow2, ToNat, Signed, OfInt;
    var a := OfInt(x);
    ToNatOfInt(x);
    SignedNat(a);
    SignedRange(a);
    var q: int :| ToNat(a) == x + q * Pow2(128);
    var r := if a[127] then q - 1 else q;
    TwiceHalf(127);
    Distributes(q, Pow2(128));
    NoMultiple(ToInt(a), x, r, Pow2(127));
  }

  /** Division rounds toward zero: what is left is smaller than the divisor and has the sign of the
      dividend.  The one quotient that does not fit wraps around, and dividing by zero gives zero. */
  lemma DivisionTruncates(a: Word, b: Word)
    ensures var x, y, q := ToInt(a), ToInt(b), ToInt(WDiv(a, b));
            if y == 0 then WDiv(a, b) == Zero()
            else if x == 0 - Pow2(127) && y == -1 then WDiv(a, b) == a
            else
              var rest := x - q * y;
              -Abs(y) < rest < Abs(y) && (x >= 0 ==> rest >= 0) && (x <= 0 ==> rest <= 0)
  {
    var x, y := ToInt(a), ToInt(b);
    SignedRange(a);
    if y != 0 {
      TruncMeans(x, y);
      if x == 0 - Pow2(127) && y == -1 {
        LeastQuotient(a);
      } else {
        TruncRange(x, y, Pow2(127));
        ToIntOfInt(TruncDiv(x, y));
      }
    }
  }

  lemma LeastQuotient(a: Word)
    requires ToInt(a) == 0 - Pow2(127)
    ensures OfInt(TruncDiv(ToInt(a), -1)) == a
  {
    SignedNat(a);
    TwiceHalf(127);
    ToNatBound(a);
    assert ToNat(a) == Pow2(127);
    NegativeDivisor(Pow2(127), 1);
    OfIntToNat(a);
  }

  function Abs(x: int): int { if x < 0 then -x else x }

  lemma TruncMeans(x: int, y: int)
    requires y != 0
    ensures var rest := x - TruncDiv(x, y) * y;
            -Abs(y) < rest < Abs(y) && (x >= 0 ==> rest >= 0) && (x <= 0 ==> rest <= 0)
  {
    var z := Abs(x);
    assert z == (z / y) * y + z % y;
  }

  lemma QuotientRange(z: int, d: int)
    requires z >= 0 && d > 0
    ensures 0 <= z / d <= z && (d > 1 && z > 0 ==> z / d < z)
  {
    var q := z / d;
    assert z == q * d + z % d;
    if q < 0 {
      MulMono(q, -1, d);
      assert false;
    }
    MulMono(1, d, q);
    if d > 1 {
      MulMono(2, d, q);
    }
  }

  lemma NegativeDivisor(z: int, d: int)
    requires z >= 0 && d > 0
    ensures z / (-d) == -(z / d)
  {
    var q, q', r' := z / d, z / (-d), z % (-d);
    assert z == q' * (-d) + r' && 0 <= r' < d;
    assert z == (-q') * d + r';
    QuotientUnique(z, d, -q', r');
  }

  lemma TruncRange(x: int, y: int, bound: nat)
    requires y != 0 && 0 - bound <= x < bound && !(x == 0 - bound && y == -1)
    ensures 0 - bound <= TruncDiv(x, y) < bound
  {
    var z := Abs(x);
    QuotientRange(z, Abs(y));
    if y < 0 {
      NegativeDivisor(z, -y);
    }
  }

  lemma QuotientBounds(x: int, y: int)
    requires y > 0
    ensures x / y * y <= x < x / y * y + y
  {
  }

  /** Unsigned division leaves less than the divisor; dividing by zero gives zero. */
  lemma UnsignedDivisionMeans(a: Word, b: Word)
    ensures var q := ToNat(WUnsignedDiv(a, b));
            if ToNat(b) == 0 then WUnsignedDiv(a, b) == Zero() else q * ToNat(b) <= ToNat(a) < q * ToNat(b) + ToNat(b)
  {
    var x, y := ToNat(a), ToNat(b);
    if y != 0 {
      ToNatBound(a);
      QuotientRange(x, y);
      NatOfInt(x / y);
      QuotientBounds(x, y);
    }
  }

  lemma NatOfInt(x: nat)
    requires x < Pow2(128)
    ensures ToNat(OfInt(x)) == x
  {
    ToNatOfInt(x);
    ToNatBound(OfInt(x));
    var q: int :| ToNat(OfInt(x)) == x + q * Pow2(128);
    if q > 0 {
      MulMono(1, q, Pow2(128));
      assert false;
    } else if q < 0 {
      MulMono(q, -1, Pow2(128));
      assert false;
    }
  }
}
