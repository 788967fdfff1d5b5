/** Bit extraction and deposition (the x86 PEXT and PDEP operations).

    The reference definitions walk selector and source one bit at a time; the
    methods are the evaluator's loops, which jump from one set selector bit to
    the next with `trailing_zeros`.
 */
module BitFields {
  import opened Words
  import opened WordArithmetic

  /** The bits of `src` at the set positions of `sel`, in order. */
  function Gather(src: seq<bool>, sel: seq<bool>): (r: seq<bool>)
    requires |src| == |sel|
    ensures |r| <= |sel|
  {
    if |sel| == 0 then []
    else (if sel[0] then [src[0]] else []) + Gather(src[1..], sel[1..])
  }

  /** The bits of `x` placed, in order, at the set positions of `sel`. */
  function Scatter(x: seq<bool>, sel: seq<bool>): (r: seq<bool>)
    ensures |r| == |sel|
  {
    if |sel| == 0 then []
    else if !sel[0] then [false] + Scatter(x, sel[1..])
    else if |x| == 0 then [false] + Scatter(x, sel[1..])
    else [x[0]] + Scatter(x[1..], sel[1..])
  }

  /** Extends or truncates a bit sequence to a word. */
  function Pad(s: seq<bool>): (r: Word)
    ensures forall i :: 0 <= i < 128 ==> r[i] == (i < |s| && s[i])
  {
    seq(128, i => i < |s| && 0 <= i && s[i])
  }

  function WExtract(a: Word, sel: Word): Word { Pad(Gather(a, sel)) }
  function WDeposit(x: Word, sel: Word): Word { Scatter(x, sel) }

  // ------------------------------------------------------------- round trips

  lemma {:induction false} GatherLength(src: seq<bool>, sel: seq<bool>)
    requires |src| == |sel|
    ensures |Gather(src, sel)| == CountOnes(sel)
    decreases |sel|
  {
    if |sel| > 0 {
      GatherLength(src[1..], sel[1..]);
    }
  }

  lemma GatherFirst(src: seq<bool>, sel: seq<bool>)
    requires |src| == |sel| > 0
    ensures Gather(src, sel) == (if sel[0] then [src[0]] else []) + Gather(src[1..], sel[1..])
  {
  }

  lemma ScatterFirst(x: seq<bool>, sel: seq<bool>)
    requires |sel| > 0
    ensures sel[0] && |x| > 0 ==> Scatter(x, sel) == [x[0]] + Scatter(x[1..], sel[1..])
    ensures !(sel[0] && |x| > 0) ==> Scatter(x, sel) == [false] + Scatter(x, sel[1..])
  {
  }

  /** Depositing what was extracted gives back exactly the selected bits. */
  lemma {:induction false} ScatterGather(src: seq<bool>, sel: seq<bool>, pad: seq<bool>, i: nat)
    requires |src| == |sel| && i < |sel|
    ensures Scatter(Gather(src, sel) + pad, sel)[i] == (sel[i] && src[i])
    decreases |sel|
  {
    hide Gather, Scatter;
    GatherFirst(src, sel);
    var rest, x := Gather(src[1..], sel[1..]), Gather(src, sel) + pad;
    ScatterFirst(x, sel);
    if sel[0] {
      assert x[1..] == rest + pad;
    } else {
      assert x == rest + pad;
    }
    if i > 0 {
      ScatterGather(src[1..], sel[1..], pad, i - 1);
    }
  }

  /** Extracting what was deposited gives back the low bits of the source. */
  lemma {:induction false} GatherScatter(x: seq<bool>, sel: seq<bool>, i: nat)
    requires i < CountOnes(sel)
    ensures i < |Gather(Scatter(x, sel), sel)|
    ensures Gather(Scatter(x, sel), sel)[i] == (i < |x| && x[i])
    decreases |sel|
  {
    var s := Scatter(x, sel);
    GatherLength(s, sel);
    var x' := if sel[0] && |x| > 0 then x[1..] else x;
    assert s[1..] == Scatter(x', sel[1..]);
    if sel[0] {
      assert Gather(s, sel) == [s[0]] + Gather(s[1..], sel[1..]);
      if i > 0 {
        GatherScatter(x', sel[1..], i - 1);
      }
    } else {
      assert Gather(s, sel) == Gather(s[1..], sel[1..]);
      GatherScatter(x, sel[1..], i);
    }
  }

  lemma DepositExtract(a: Word, sel: Word)
    ensures WDeposit(WExtract(a, sel), sel) == WAnd(a, sel)
  {
    var g := Gather(a, sel);
    var pad := seq(128 - |g|, _ => false);
    assert WExtract(a, sel) == g + pad;
    forall i | 0 <= i < 128 ensures WDeposit(WExtract(a, sel), sel)[i] == WAnd(a, sel)[i] {
      ScatterGather(a, sel, pad, i);
    }
  }

  lemma ExtractDeposit(x: Word, sel: Word)
    ensures WExtract(WDeposit(x, sel), sel) == WCrop(x, CountOnes(sel))
  {
    GatherLength(WDeposit(x, sel), sel);
    forall i | 0 <= i < 128 ensures WExtract(WDeposit(x, sel), sel)[i] == WCrop(x, CountOnes(sel))[i] {
      if i < CountOnes(sel) {
        GatherScatter(x, sel, i);
      }
    }
  }

  /** Deposited bits lie under the selector. */
  lemma {:induction false} ScatterUnder(x: seq<bool>, sel: seq<bool>, i: nat)
    requires i < |sel|
    ensures Scatter(x, sel)[i] ==> sel[i]
    decreases |sel|
  {
    if i > 0 {
      ScatterUnder(if sel[0] && |x| > 0 then x[1..] else x, sel[1..], i - 1);
    }
  }

  lemma DepositUnder(x: Word, sel: Word)
    ensures forall i :: 0 <= i < 128 && WDeposit(x, sel)[i] ==> sel[i]
  {
    forall i | 0 <= i < 128 && WDeposit(x, sel)[i] ensures sel[i] {
      ScatterUnder(x, sel, i);
    }
  }

  /** Extraction looks at no bit outside its selector. */
  lemma {:induction false} GatherDepends(a: seq<bool>, b: seq<bool>, sel: seq<bool>)
    requires |a| == |b| == |sel|
    requires forall i :: 0 <= i < |sel| && sel[i] ==> a[i] == b[i]
    ensures Gather(a, sel) == Gather(b, sel)
    decreases |sel|
  {
    if |sel| > 0 {
      assert sel[0] ==> a[0] == b[0];
      GatherDepends(a[1..], b[1..], sel[1..]);
    }
  }

  // ------------------------------------------------------------------ widths

  lemma ExtractFitsCount(a: Word, sel: Word)
    ensures Fits(WExtract(a, sel), CountOnes(sel))
  {
    GatherLength(a, sel);
  }

  lemma {:induction false} CountBelow(sel: seq<bool>, n: nat)
    requires forall i :: n <= i < |sel| ==> !sel[i]
    ensures CountOnes(sel) <= n
    decreases |sel|
  {
    if |sel| > 0 {
      if n == 0 {
        CountBelow(sel[1..], 0);
      } else {
        CountBelow(sel[1..], n - 1);
      }
    }
  }

  /** An extracted bit never moves up. */
  lemma {:induction false} GatherFits(src: seq<bool>, sel: seq<bool>, n: nat, i: nat)
    requires |src| == |sel| && forall j :: n <= j < |src| ==> !src[j]
    requires n <= i < |Gather(src, sel)|
    ensures !Gather(src, sel)[i]
    decreases |sel|
  {
    var n' := if n == 0 then 0 else n - 1;
    var rest := Gather(src[1..], sel[1..]);
    if sel[0] {
      if i > 0 {
        GatherFits(src[1..], sel[1..], n', i - 1);
      }
    } else {
      assert Gather(src, sel) == rest;
      GatherFits(src[1..], sel[1..], n', i);
    }
  }

  lemma ExtractFits(a: Word, sel: Word, m: nat, n: nat)
    requires Fits(a, m) && Fits(sel, n)
    ensures Fits(WExtract(a, sel), m) && Fits(WExtract(a, sel), n)
  {
    CountBelow(sel, n);
    ExtractFitsCount(a, sel);
    forall i | m <= i < 128 ensures !WExtract(a, sel)[i] {
      if i < |Gather(a, sel)| {
        GatherFits(a, sel, m, i);
      }
    }
  }

  // ---------------------------------------------------- contiguous selectors

  lemma {:induction false} GatherRun(src: seq<bool>, sel: seq<bool>, skip: nat, take: nat)
    requires |src| == |sel| && skip + take <= |sel|
    requires forall i :: 0 <= i < |sel| ==> sel[i] == (skip <= i < skip + take)
    ensures Gather(src, sel) == src[skip..skip + take]
    decreases |sel|
  {
    if |sel| > 0 {
      if skip > 0 {
        GatherRun(src[1..], sel[1..], skip - 1, take);
        assert src[1..][skip - 1..skip - 1 + take] == src[skip..skip + take];
      } else if take > 0 {
        GatherRun(src[1..], sel[1..], 0, take - 1);
        assert src[..take] == [src[0]] + src[1..][..take - 1];
      } else {
        GatherRun(src[1..], sel[1..], 0, 0);
      }
    }
  }

  /** Extraction under a run of selector bits is a field selection. */
  lemma ExtractRun(a: Word, sel: Word, skip: nat, take: nat)
    requires skip + take <= 128
    requires forall i :: 0 <= i < 128 ==> sel[i] == (skip <= i < skip + take)
    ensures WExtract(a, sel) == WSelect(a, skip, take)
  {
    GatherRun(a, sel, skip, take);
    forall i | 0 <= i < 128 ensures WExtract(a, sel)[i] == WSelect(a, skip, take)[i] {
    }
  }

  // ------------------------------------------------------ the evaluator loops

  /** `>>` on an unsigned word: zeros fill from the top. */
  function WLsr(a: Word, n: nat): (r: Word)
    ensures forall i :: 0 <= i < 128 ==> r[i] == (i + n < 128 && a[i + n])
  {
    seq(128, i requires 0 <= i < 128 => i + n < 128 && a[i + n])
  }

  lemma {:induction false} GatherSplit(src: seq<bool>, sel: seq<bool>, k: nat)
    requires |src| == |sel| && k <= |sel|
    ensures Gather(src, sel) == Gather(src[..k], sel[..k]) + Gather(src[k..], sel[k..])
    decreases k
  {
    hide Gather;
    if k == 0 {
      GatherNone(src[..0], sel[..0]);
      assert src[0..] == src && sel[0..] == sel;
    } else {
      GatherSplit(src[1..], sel[1..], k - 1);
      assert src[1..][..k - 1] == src[..k][1..] && sel[1..][..k - 1] == sel[..k][1..];
      assert src[1..][k - 1..] == src[k..] && sel[1..][k - 1..] == sel[k..];
      GatherFirst(src, sel);
      GatherFirst(src[..k], sel[..k]);
    }
  }

  lemma {:induction false} GatherNone(src: seq<bool>, sel: seq<bool>)
    requires |src| == |sel| && forall i :: 0 <= i < |sel| ==> !sel[i]
    ensures Gather(src, sel) == []
    decreases |sel|
  {
    if |sel| > 0 {
      GatherNone(src[1..], sel[1..]);
    }
  }

  /** One round of the loop gathers the zeros up to, and the set bit at, position `k`. */
  lemma GatherNext(src: seq<bool>, sel: seq<bool>, p: nat, k: nat)
    requires |src| == |sel| && p + k < |sel| && sel[p + k]
    requires forall i :: p <= i < p + k ==> !sel[i]
    ensures Gather(src[..p + k + 1], sel[..p + k + 1]) == Gather(src[..p], sel[..p]) + [src[p + k]]
  {
    GatherSkip(src, sel, p, p + k);
    GatherOne(src, sel, p + k);
  }

  lemma GatherSkip(src: seq<bool>, sel: seq<bool>, p: nat, n: nat)
    requires |src| == |sel| && p <= n <= |sel| && forall i :: p <= i < n ==> !sel[i]
    ensures Gather(src[..n], sel[..n]) == Gather(src[..p], sel[..p])
  {
    GatherRange(src, sel, p, n);
    GatherNone(src[p..n], sel[p..n]);
  }

  lemma GatherOne(src: seq<bool>, sel: seq<bool>, n: nat)
    requires |src| == |sel| && n < |sel| && sel[n]
    ensures Gather(src[..n + 1], sel[..n + 1]) == Gather(src[..n], sel[..n]) + [src[n]]
  {
    GatherRange(src, sel, n, n + 1);
    var a, b := src[n..n + 1], sel[n..n + 1];
    assert a[1..] == [] && b[1..] == [];
    assert Gather(a, b) == [src[n]];
  }

  lemma GatherRange(src: seq<bool>, sel: seq<bool>, i: nat, j: nat)
    requires |src| == |sel| && i <= j <= |sel|
    ensures Gather(src[..j], sel[..j]) == Gather(src[..i], sel[..i]) + Gather(src[i..j], sel[i..j])
  {
    GatherSplit(src[..j], sel[..j], i);
    assert src[..j][..i] == src[..i] && sel[..j][..i] == sel[..i];
    assert src[..j][i..] == src[i..j] && sel[..j][i..] == sel[i..j];
  }

  lemma LsrLsr(a: Word, p: nat, k: nat)
    ensures WLsr(WLsr(a, p), k) == WLsr(a, p + k)
  {
  }

  lemma LsrZero(a: Word)
    ensures WLsr(a, 0) == a
  {
  }

  /** The next set selector bit.  Only a selector equal to `1 << 127` can have 127 zeros below it. */
  lemma NextSelected(sel: Word, p: nat, k: nat)
    requires WLsr(sel, p) != Zero() && sel != OneHot(127) && k == TrailingZeros(WLsr(sel, p))
    ensures k < 127 && p + k < 128 && sel[p + k] && forall i :: p <= i < p + k ==> !sel[i]
  {
    var selector := WLsr(sel, p);
    ZeroIffNoBit(selector);
    assert k < 128 && selector[k];
    forall i | p <= i < p + k ensures !sel[i] {
      assert selector[i - p] == sel[i];
    }
    if k == 127 {
      assert false;
    }
  }

  /** No selector bit is left. */
  lemma NoneSelected(sel: Word, p: nat)
    requires WLsr(sel, p) == Zero() && p <= 128
    ensures forall i :: p <= i < 128 ==> !sel[i]
  {
    forall i | p <= i < 128 ensures !sel[i] {
      assert WLsr(sel, p)[i - p] == sel[i];
    }
  }

  lemma PadAppend(g: seq<bool>, bit: bool)
    ensures (if bit then WOr(Pad(g), OneHot(|g|)) else Pad(g)) == Pad(g + [bit])
  {
  }

  /** The `ExtractBits` loop.  A selector whose only set bit is bit 127 makes the loop shift by
      128, which overflows; every other selector is handled. */
  method ExtractBits(a: Word, sel: Word) returns (dest: Word)
    requires sel != OneHot(127)
    ensures dest == WExtract(a, sel)
  {
    var source, selector := a, sel;
    dest := Zero();
    var destBit := 0;
    ghost var p := 0;
    LsrZero(a);
    LsrZero(sel);
    assert a[..0] == [] && sel[..0] == [];
    while selector != Zero()
      invariant 0 <= p <= 128 && selector == WLsr(sel, p) && source == WLsr(a, p)
      invariant destBit == |Gather(a[..p], sel[..p])|
      invariant dest == Pad(Gather(a[..p], sel[..p]))
      decreases 128 - p
    {
      var bitIndex := TrailingZeros(selector);
      NextSelected(sel, p, bitIndex);
      GatherNext(a, sel, p, bitIndex);
      PadAppend(Gather(a[..p], sel[..p]), a[p + bitIndex]);
      source := WLsr(source, bitIndex);
      LsrLsr(a, p, bitIndex);
      var bit := source[0];
      source := WLsr(source, 1);
      LsrLsr(a, p + bitIndex, 1);
      selector := WLsr(selector, bitIndex + 1);
      LsrLsr(sel, p, bitIndex + 1);
      dest := if bit then WOr(dest, OneHot(destBit)) else dest;
      destBit := destBit + 1;
      p := p + bitIndex + 1;
    }
    NoneSelected(sel, p);
    GatherRest(a, sel, p);
  }

  lemma GatherRest(a: Word, sel: Word, p: nat)
    requires p <= 128 && forall i :: p <= i < 128 ==> !sel[i]
    ensures Gather(a, sel) == Gather(a[..p], sel[..p])
  {
    GatherSplit(a, sel, p);
    GatherNone(a[p..], sel[p..]);
  }

  /** Each set selector bit receives the source bit whose rank it has. */
  lemma {:induction false} ScatterAt(x: seq<bool>, sel: seq<bool>, i: nat)
    requires i < |sel|
    ensures var c := CountOnes(sel[..i]); Scatter(x, sel)[i] == (sel[i] && c < |x| && x[c])
    decreases |sel|
  {
    if i > 0 {
      assert sel[1..][..i - 1] == sel[..i][1..];
      ScatterAt(if sel[0] && |x| > 0 then x[1..] else x, sel[1..], i - 1);
    }
  }

  lemma {:induction false} CountStep(sel: seq<bool>, i: nat)
    requires i < |sel|
    ensures CountOnes(sel[..i + 1]) == CountOnes(sel[..i]) + (if sel[i] then 1 else 0)
    decreases i
  {
    if i == 0 {
      assert sel[..1] == [sel[0]] && sel[..0] == [];
    } else {
      CountStep(sel[1..], i - 1);
      assert sel[1..][..i] == sel[..i + 1][1..];
      assert sel[1..][..i - 1] == sel[..i][1..];
    }
  }

  lemma {:induction false} CountSkip(sel: seq<bool>, p: nat, k: nat)
    requires p + k <= |sel| && forall i :: p <= i < p + k ==> !sel[i]
    ensures CountOnes(sel[..p + k]) == CountOnes(sel[..p])
    decreases k
  {
    if k > 0 {
      CountSkip(sel, p, k - 1);
      CountStep(sel, p + k - 1);
    }
  }

  /** How many selector bits below `p` are set. */
  function Rank(sel: Word, p: nat): nat
    requires p <= 128
  {
    CountOnes(sel[..p])
  }

  lemma RankNext(sel: Word, p: nat, k: nat)
    requires p + k < 128 && sel[p + k] && forall i :: p <= i < p + k ==> !sel[i]
    ensures Rank(sel, p + k) == Rank(sel, p) && Rank(sel, p + k + 1) == Rank(sel, p) + 1
  {
    CountSkip(sel, p, k);
    CountStep(sel, p + k);
  }

  /** The `deposit_bits_u128` loop, with the same excluded selector. */
  method DepositBits(x: Word, sel: Word) returns (dest: Word)
    requires sel != OneHot(127)
    ensures dest == WDeposit(x, sel)
  {
    hide WLsr, TrailingZeros, WDeposit, DepositedTo, Rank;
    var source, selector := x, sel;
    dest := Zero();
    var destBit := 0;
    ghost var c := 0;
    DepositStart(x, sel);
    while selector != Zero()
      invariant 0 <= destBit <= 128 && selector == WLsr(sel, destBit)
      invariant c == Rank(sel, destBit) && source == WLsr(x, c)
      invariant DepositedTo(dest, x, sel, destBit)
      decreases 128 - destBit
    {
      var bitIndex := TrailingZeros(selector);
      var bit := source[0];
      NextSelected(sel, destBit, bitIndex);
      DepositStep(dest, x, sel, destBit, bitIndex, bit, c);
      dest := if bit then WOr(dest, OneHot(destBit + bitIndex)) else dest;
      destBit := destBit + bitIndex + 1;
      source := WLsr(source, 1);
      selector := WLsr(selector, bitIndex + 1);
      c := c + 1;
    }
    NoneSelected(sel, destBit);
    DepositRest(dest, x, sel, destBit);
  }

  /** The bits below `p` are deposited, the others still clear. */
  ghost predicate DepositedTo(dest: Word, x: Word, sel: Word, p: nat)
  {
    forall i :: 0 <= i < 128 ==> dest[i] == (i < p && WDeposit(x, sel)[i])
  }

  lemma DepositNext(dest: Word, x: Word, sel: Word, p: nat, k: nat, bit: bool)
    requires DepositedTo(dest, x, sel, p) && p + k < 128 && sel[p + k] && forall i :: p <= i < p + k ==> !sel[i]
    requires bit == (Rank(sel, p + k) < 128 && x[Rank(sel, p + k)])
    ensures DepositedTo(if bit then WOr(dest, OneHot(p + k)) else dest, x, sel, p + k + 1)
  {
    forall i | p <= i < p + k ensures !WDeposit(x, sel)[i] {
      ScatterUnder(x, sel, i);
    }
    ScatterAt(x, sel, p + k);
  }

  lemma DepositStart(x: Word, sel: Word)
    ensures WLsr(x, 0) == x && WLsr(sel, 0) == sel
    ensures Rank(sel, 0) == 0 && DepositedTo(Zero(), x, sel, 0)
  {
    assert sel[..0] == [];
  }

  lemma DepositStep(dest: Word, x: Word, sel: Word, p: nat, k: nat, bit: bool, c: nat)
    requires DepositedTo(dest, x, sel, p) && p + k < 128 && sel[p + k] && forall i :: p <= i < p + k ==> !sel[i]
    requires c == Rank(sel, p) && bit == WLsr(x, c)[0]
    ensures DepositedTo(if bit then WOr(dest, OneHot(p + k)) else dest, x, sel, p + k + 1)
    ensures Rank(sel, p + k + 1) == c + 1
    ensures WLsr(WLsr(x, c), 1) == WLsr(x, c + 1) && WLsr(WLsr(sel, p), k + 1) == WLsr(sel, p + k + 1)
  {
    hide DepositedTo, Rank;
    RankNext(sel, p, k);
    DepositNext(dest, x, sel, p, k, bit);
    LsrLsr(x, c, 1);
    LsrLsr(sel, p, k + 1);
  }

  lemma DepositRest(dest: Word, x: Word, sel: Word, p: nat)
    requires DepositedTo(dest, x, sel, p) && p <= 128 && forall i :: p <= i < 128 ==> !sel[i]
    ensures dest == WDeposit(x, sel)
  {
    forall i | p <= i < 128 ensures !WDeposit(x, sel)[i] {
      ScatterUnder(x, sel, i);
    }
  }

  /** A shift distance of at most 128 reduced modulo 128, as an unchecked build does. */
  function WrappedShift(n: nat): nat
    requires n <= 128
  {
    if n == 128 then 0 else n
  }

  /** In an unchecked build a round of either loop leaves the selector unchanged, and so the loop
      never ends, exactly for the selector `1 << 127`. */
  lemma LoopStallsExactly(sel: Word)
    requires sel != Zero()
    ensures TrailingZeros(sel) < 128
    ensures WLsr(sel, WrappedShift(TrailingZeros(sel) + 1)) == sel <==> sel == OneHot(127)
  {
    ZeroIffNoBit(sel);
    var k := TrailingZeros(sel);
    if k == 127 {
      TopSelectorStalls(sel);
    } else {
      SelectorAdvances(sel, k);
    }
  }

  lemma TopSelectorStalls(sel: Word)
    requires TrailingZeros(sel) == 127
    ensures sel == OneHot(127) && WLsr(sel, 0) == sel
  {
    assert sel[127] && forall i :: 0 <= i < 127 ==> !sel[i];
    LsrZero(sel);
  }

  lemma SelectorAdvances(sel: Word, k: nat)
    requires k < 127 && sel[k]
    ensures sel != OneHot(127) && WLsr(sel, k + 1) != sel
  {
    assert !OneHot(127)[k];
    if WLsr(sel, k + 1) == sel {
      EqualShiftClears(sel, k + 1, k);
      assert false;
    }
  }

  /** A word that a positive shift leaves unchanged has no set bit. */
  lemma {:induction false} EqualShiftClears(a: Word, n: nat, i: nat)
    requires 0 < n < 128 && i < 128
    requires WLsr(a, n) == a
    ensures !a[i]
    decreases 128 - i
  {
    assert WLsr(a, n)[i] == (i + n < 128 && a[i + n]);
    if i + n < 128 {
      EqualShiftClears(a, n, i + n);
    }
  }
}
