/** 128-bit machine words.

    A `Word` is the sequence of its 128 bits, least significant bit first.  The
    bitwise operators, shifts and field selections of the evaluator are pointwise
    or index-shifting on that sequence; the arithmetic operators go through the
    integers (`ToNat`, `OfInt`) and wrap around by construction, because `OfInt`
    keeps the low 128 bits of a two's-complement integer.
 */
module Words {

  type Word = w: seq<bool> | |w| == 128 witness seq(128, _ => false)

  // ---------------------------------------------------------------- constants

  function Zero(): (r: Word)
    ensures forall i :: 0 <= i < 128 ==> !r[i]
  {
    seq(128, _ => false)
  }

  function Ones(): (r: Word)
    ensures forall i :: 0 <= i < 128 ==> r[i]
  {
    seq(128, _ => true)
  }

  /** The word with the single bit `n` set (`1 << n`). */
  function OneHot(n: nat): (r: Word)
    ensures forall i :: 0 <= i < 128 ==> r[i] == (i == n)
  {
    seq(128, i => i == n)
  }

  /** The lowest `n` bits set (`bitmask_u128`, and `mask` of the normalizer). */
  function Low(n: nat): (r: Word)
    ensures forall i :: 0 <= i < 128 ==> r[i] == (i < n)
  {
    seq(128, i => i < n)
  }

  // ------------------------------------------------------------ bitwise words

  function WNot(a: Word): (r: Word)
    ensures forall i :: 0 <= i < 128 ==> r[i] == !a[i]
  {
    seq(128, i requires 0 <= i < 128 => !a[i])
  }

  function WAnd(a: Word, b: Word): (r: Word)
    ensures forall i :: 0 <= i < 128 ==> r[i] == (a[i] && b[i])
  {
    seq(128, i requires 0 <= i < 128 => a[i] && b[i])
  }

  function WOr(a: Word, b: Word): (r: Word)
    ensures forall i :: 0 <= i < 128 ==> r[i] == (a[i] || b[i])
  {
    seq(128, i requires 0 <= i < 128 => a[i] || b[i])
  }

  function WXor(a: Word, b: Word): (r: Word)
    ensures forall i :: 0 <= i < 128 ==> r[i] == (a[i] != b[i])
  {
    seq(128, i requires 0 <= i < 128 => a[i] != b[i])
  }

  /** Keeps the lowest `n` bits. */
  function WCrop(a: Word, n: nat): (r: Word)
    ensures forall i :: 0 <= i < 128 ==> r[i] == (i < n && a[i])
  {
    seq(128, i requires 0 <= i < 128 => i < n && a[i])
  }

  /** Copies bit `n - 1` over every bit from `n` up. */
  function WSignExtend(a: Word, n: nat): (r: Word)
    requires 0 < n <= 128
    ensures forall i :: 0 <= i < 128 ==> r[i] == (if i < n then a[i] else a[n - 1])
  {
    seq(128, i requires 0 <= i < 128 => if i < n then a[i] else a[n - 1])
  }

  /** The field of `take` bits that starts at bit `skip`. */
  function WSelect(a: Word, skip: nat, take: nat): (r: Word)
    ensures forall i :: 0 <= i < 128 ==> r[i] == (i < take && i + skip < 128 && a[i + skip])
  {
    seq(128, i requires 0 <= i < 128 => i < take && i + skip < 128 && a[i + skip])
  }

  function WShl(a: Word, n: nat): (r: Word)
    ensures forall i :: 0 <= i < 128 ==> r[i] == (n <= i && a[i - n])
  {
    seq(128, i requires 0 <= i < 128 => n <= i && a[i - n])
  }

  /** Arithmetic shift right: bit 127 fills from the top. */
  function WShr(a: Word, n: nat): (r: Word)
    ensures forall i :: 0 <= i < 128 ==> r[i] == (if i + n < 128 then a[i + n] else a[127])
  {
    seq(128, i requires 0 <= i < 128 => if i + n < 128 then a[i + n] else a[127])
  }

  // The evaluator computes these three with shifts whose distance an unchecked build takes
  // modulo 128; within their proper ranges they are the operations above.

  /** `a & ((1 << n) - 1)`. */
  function CropOp(a: Word, n: nat): (r: Word)
    ensures n <= 127 ==> r == WCrop(a, n)
  {
    WCrop(a, n % 128)
  }

  /** `sign_extend(a & ((1 << n) - 1), n)`. */
  function ExtendOp(a: Word, n: nat): (r: Word)
    ensures 1 <= n <= 127 ==> r == WSignExtend(a, n)
  {
    if n % 128 == 0 then Zero() else WSignExtend(a, n % 128)
  }

  /** `(a >> skip) & ((1 << take) - 1)`. */
  function SelectOp(a: Word, skip: nat, take: nat): (r: Word)
    ensures take <= 127 && (take == 0 || skip + take <= 128) ==> r == WSelect(a, skip, take)
  {
    WCrop(WShr(a, skip % 128), take % 128)
  }

  function WIsZero(a: Word): (r: Word)
    ensures forall i :: 0 <= i < 128 ==> r[i] == (i == 0 && a == Zero())
  {
    if a == Zero() then OneHot(0) else Zero()
  }

  lemma ZeroIffNoBit(a: Word)
    ensures a == Zero() <==> forall i :: 0 <= i < 128 ==> !a[i]
  {
    if forall i :: 0 <= i < 128 ==> !a[i] {
      assert a == Zero();
    }
  }

  // --------------------------------------------- agreement under a demand mask

  /** `a` and `b` carry the same value in every bit that `m` demands. */
  predicate Same(m: Word, a: Word, b: Word)
  {
    forall i :: 0 <= i < 128 && m[i] ==> a[i] == b[i]
  }

  lemma SameOnes(a: Word, b: Word)
    ensures Same(Ones(), a, b) <==> a == b
  {
    if Same(Ones(), a, b) {
      assert forall i :: 0 <= i < 128 ==> Ones()[i];
      assert a == b;
    }
  }

  /** Every bit from `n` up is clear. */
  predicate Fits(a: Word, n: nat)
  {
    forall i :: n <= i < 128 ==> !a[i]
  }

  // ------------------------------------------------------- positions of bits

  /** One more than the position of the highest set bit (`128 - leading_zeros`). */
  function Length(s: seq<bool>): (n: nat)
    ensures n <= |s|
    ensures n > 0 ==> s[n - 1]
    ensures forall i :: n <= i < |s| ==> !s[i]
  {
    if |s| == 0 then 0
    else if s[|s| - 1] then |s|
    else Length(s[..|s| - 1])
  }

  /** The number of clear bits below the lowest set bit (`trailing_zeros`). */
  function TrailingZeros(s: seq<bool>): (n: nat)
    ensures n <= |s|
    ensures n < |s| ==> s[n]
    ensures forall i :: 0 <= i < n ==> !s[i]
  {
    if |s| == 0 || s[0] then 0 else 1 + TrailingZeros(s[1..])
  }

  /** The number of set bits below the lowest clear bit (`trailing_ones`). */
  function TrailingOnes(s: seq<bool>): (n: nat)
    ensures n <= |s|
    ensures n < |s| ==> !s[n]
    ensures forall i :: 0 <= i < n ==> s[i]
  {
    if |s| == 0 || !s[0] then 0 else 1 + TrailingOnes(s[1..])
  }

  /** `count_ones`. */
  function CountOnes(s: seq<bool>): (n: nat)
    ensures n <= |s|
  {
    if |s| == 0 then 0 else (if s[0] then 1 else 0) + CountOnes(s[1..])
  }

  // -------------------------------------------------------- words as integers

  function Pow2(n: nat): (p: nat)
    ensures p > 0
  {
    if n == 0 then 1 else 2 * Pow2(n - 1)
  }

  /** Bit `i` of the two's-complement integer `n`. */
  predicate Bit(n: int, i: nat)
    decreases i
  {
    if i == 0 then n % 2 == 1 else Bit(n / 2, i - 1)
  }

  /** The low 128 bits of `n`: the `as i128` / `as u128` truncation. */
  function OfInt(n: int): (r: Word)
    ensures forall i :: 0 <= i < 128 ==> r[i] == Bit(n, i)
  {
    seq(128, i requires 0 <= i < 128 => Bit(n, i))
  }

  /** The unsigned value of a bit sequence. */
  function ToNat(s: seq<bool>): nat
  {
    if |s| == 0 then 0 else (if s[0] then 1 else 0) + 2 * ToNat(s[1..])
  }

  /** The signed value of a nonempty bit sequence: its last bit weighs negatively. */
  function Signed(s: seq<bool>): int
    requires |s| > 0
  {
    if |s| == 1 then (if s[0] then -1 else 0) else (if s[0] then 1 else 0) + 2 * Signed(s[1..])
  }

  /** The signed value of a word. */
  function ToInt(a: Word): int { Signed(a) }

  function WAdd(a: Word, b: Word): Word { OfInt(ToNat(a) + ToNat(b)) }
  function WSub(a: Word, b: Word): Word { OfInt(ToNat(a) - ToNat(b)) }
  function WMul(a: Word, b: Word): Word { OfInt(ToNat(a) * ToNat(b)) }

  function WUnsignedDiv(a: Word, b: Word): Word
  {
    if ToNat(b) == 0 then Zero() else OfInt(ToNat(a) / ToNat(b))
  }

  /** Division that rounds toward zero. */
  function TruncDiv(x: int, y: int): int
    requires y != 0
  {
    if x >= 0 then x / y else -((-x) / y)
  }

  function WDiv(a: Word, b: Word): Word
  {
    if ToInt(b) == 0 then Zero() else OfInt(TruncDiv(ToInt(a), ToInt(b)))
  }

  function WCmpLt(a: Word, b: Word): Word
  {
    if ToInt(a) < ToInt(b) then OneHot(0) else Zero()
  }

  /** The complement of the xor of the lowest eight bits. */
  function WParity(a: Word): Word
  {
    if CountOnes(a[..8]) % 2 == 0 then OneHot(0) else Zero()
  }

  /** The shift distance that `wrapping_shl` and `wrapping_shr` take from their second operand. */
  function Amount(a: Word): (n: nat)
    ensures n < 128
  {
    ToNatBound(a[..7]);
    assert Pow2(7) == 128;
    ToNat(a[..7])
  }

  // ------------------------------------------------------------- integer bits

  lemma ToNatBound(s: seq<bool>)
    ensures ToNat(s) < Pow2(|s|)
  {
  }

  lemma {:induction false} BitOfToNat(s: seq<bool>, i: nat)
    ensures Bit(ToNat(s), i) == (i < |s| && s[i])
    decreases |s|, i
  {
    if |s| == 0 {
      BitOfZero(i);
    } else if i > 0 {
      assert ToNat(s) / 2 == ToNat(s[1..]);
      BitOfToNat(s[1..], i - 1);
    }
  }

  lemma BitOfZero(i: nat)
    ensures !Bit(0, i)
  {
  }

  /** A word is recovered from its unsigned value. */
  lemma OfIntToNat(a: Word)
    ensures OfInt(ToNat(a)) == a
  {
    forall i | 0 <= i < 128 ensures OfInt(ToNat(a))[i] == a[i] {
      BitOfToNat(a, i);
    }
  }

  /** `x` and `y` are congruent modulo `2^k`. */
  ghost predicate Cong(k: nat, x: int, y: int)
  {
    exists q: int :: x == y + q * Pow2(k)
  }

  ghost predicate SameLowBits(k: nat, x: int, y: int)
  {
    forall i :: 0 <= i < k ==> Bit(x, i) == Bit(y, i)
  }

  lemma {:induction false} CongToBits(k: nat, x: int, y: int)
    requires Cong(k, x, y)
    ensures SameLowBits(k, x, y)
    decreases k
  {
    if k > 0 {
      var q: int :| x == y + q * Pow2(k);
      assert q * Pow2(k) == 2 * (q * Pow2(k - 1));
      assert x / 2 == y / 2 + q * Pow2(k - 1);
      CongToBits(k - 1, x / 2, y / 2);
      forall i | 0 <= i < k ensures Bit(x, i) == Bit(y, i) {
        if i > 0 {
          assert Bit(x / 2, i - 1) == Bit(y / 2, i - 1);
        }
      }
    }
  }

  lemma {:induction false} BitsToCong(k: nat, x: int, y: int)
    requires SameLowBits(k, x, y)
    ensures Cong(k, x, y)
    decreases k
  {
    if k == 0 {
      assert x == y + (x - y) * Pow2(0);
    } else {
      assert Bit(x, 0) == Bit(y, 0);
      forall i | 0 <= i < k - 1 ensures Bit(x / 2, i) == Bit(y / 2, i) {
        assert Bit(x, i + 1) == Bit(y, i + 1);
      }
      BitsToCong(k - 1, x / 2, y / 2);
      var q: int :| x / 2 == y / 2 + q * Pow2(k - 1);
      assert q * Pow2(k) == 2 * (q * Pow2(k - 1));
      assert x == y + q * Pow2(k);
    }
  }

  lemma OfIntCong(x: int, y: int)
    ensures OfInt(x) == OfInt(y) <==> Cong(128, x, y)
  {
    if Cong(128, x, y) {
      CongToBits(128, x, y);
      assert OfInt(x) == OfInt(y);
    }
    if OfInt(x) == OfInt(y) {
      forall i | 0 <= i < 128 ensures Bit(x, i) == Bit(y, i) {
        assert OfInt(x)[i] == OfInt(y)[i];
      }
      BitsToCong(128, x, y);
    }
  }

  lemma ToNatOfInt(n: int)
    ensures Cong(128, ToNat(OfInt(n)), n)
  {
    OfIntToNat(OfInt(n));
    OfIntCong(ToNat(OfInt(n)), n);
  }

  lemma {:induction false} SignedNat(s: seq<bool>)
    requires |s| > 0
    ensures Signed(s) == ToNat(s) - if s[|s| - 1] then Pow2(|s|) else 0
    decreases |s|
  {
    if |s| > 1 {
      SignedNat(s[1..]);
    } else {
      assert s[1..] == [];
    }
  }

  lemma ToIntCong(a: Word)
    ensures Cong(128, ToInt(a), ToNat(a))
    ensures OfInt(ToInt(a)) == a
  {
    SignedNat(a);
    if a[127] {
      assert ToInt(a) == ToNat(a) + -1 * Pow2(128);
    } else {
      assert ToInt(a) == ToNat(a) + 0 * Pow2(128);
    }
    OfIntCong(ToInt(a), ToNat(a));
    OfIntToNat(a);
  }

  lemma SignOfInt(a: Word)
    ensures ToInt(a) >= 0 <==> !a[127]
    ensures ToInt(a) >= 0 ==> ToInt(a) == ToNat(a)
  {
    SignedNat(a);
    ToNatBound(a);
  }

  lemma CongRefl(k: nat, x: int)
    ensures Cong(k, x, x)
  {
    assert x == x + 0 * Pow2(k);
  }

  lemma CongAdd(k: nat, x: int, x': int, y: int, y': int)
    requires Cong(k, x, x') && Cong(k, y, y')
    ensures Cong(k, x + y, x' + y')
    ensures Cong(k, x - y, x' - y')
  {
    var q: int :| x == x' + q * Pow2(k);
    var r: int :| y == y' + r * Pow2(k);
    assert x + y == x' + y' + (q + r) * Pow2(k);
    assert x - y == x' - y' + (q - r) * Pow2(k);
  }
}
