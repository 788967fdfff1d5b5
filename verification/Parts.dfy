/** The parts of an encoding, the bits labelled with them, and the instructions that differ in one
    part.
 */
module Parts {
  import opened Options
  import opened Words
  import opened WordArithmetic
  import opened Instructions

  /** What the bits of one part have in common: an immediate value, an immediate in the offset of a
      memory access, or a register or address computation that they select. */
  datatype Base = ValueImm(id: nat) | OffsetImm(targets: seq<Target>) | Choice(id: nat)

  /** What an immediate is added to: an output, or the address of a memory access. */
  datatype Target = ToOutput(index: nat) | ToAccess(index: nat)

  /** The memory accesses among the targets, in their order. */
  function Accesses(targets: seq<Target>): (r: seq<nat>)
    ensures forall m :: m in r <==> ToAccess(m) in targets
  {
    if |targets| == 0 then []
    else
      var n := |targets| - 1;
      assert targets == targets[..n] + [targets[n]];
      Accesses(targets[..n]) + if targets[n].ToAccess? then [targets[n].index] else []
  }

  /** Parts with this base add an immediate to the address of access `m`. */
  predicate Names(base: Base, m: nat) { base.OffsetImm? && m in Accesses(base.targets) }

  predicate Distinct(s: seq<nat>) { forall i, j :: 0 <= i < j < |s| ==> s[i] != s[j] }

  predicate NamesOnce(base: Base) { base.OffsetImm? ==> Distinct(Accesses(base.targets)) }

  /** No memory access holds more than one immediate. */
  ghost predicate Alone(parts: seq<PartInfo>)
  {
    && (forall p :: 0 <= p < |parts| ==> NamesOnce(parts[p].base))
    && (forall p, q, m :: 0 <= p < q < |parts| && Names(parts[p].base, m) ==> !Names(parts[q].base, m))
  }

  datatype Bit = DontCare | Fixed(bit: bool) | Part(index: nat)

  /** The sign and weight of one bit of an immediate in an offset. */
  datatype BitOrder = Positive(bit: nat) | Negative(bit: nat)

  /** What the bit is documented to add to the offset. */
  function Meaning(order: BitOrder, bit: bool): int
  {
    var weight: int := Pow2(order.bit);
    if !bit then 0 else if order.Positive? then weight else -weight
  }

  datatype PartInfo = PartInfo(size: nat, value: nat, base: Base, orders: seq<BitOrder>)

  // -------------------------------------------------------- packing bit values

  predicate Increasing(positions: seq<nat>) { forall i, j :: 0 <= i < j < |positions| ==> positions[i] < positions[j] }

  predicate Within(positions: seq<nat>, n: nat) { forall i :: 0 <= i < |positions| ==> positions[i] < n }

  function BitsAt(instr: Instruction, positions: seq<nat>): (r: seq<bool>)
    requires Within(positions, BitLen(instr))
    ensures |r| == |positions| && forall k :: 0 <= k < |r| ==> r[k] == Nth(instr, positions[k])
  {
    seq(|positions|, k requires 0 <= k < |positions| => Nth(instr, positions[k]))
  }

  /** The number whose bits, from the lowest, are the instruction's bits at the positions. */
  function Packed(instr: Instruction, positions: seq<nat>): nat
    requires Within(positions, BitLen(instr))
  {
    ToNat(BitsAt(instr, positions))
  }

  lemma {:induction false} ToNatAppend(s: seq<bool>, b: bool)
    ensures ToNat(s + [b]) == ToNat(s) + if b then Pow2(|s|) else 0
    decreases |s|
  {
    if |s| == 0 {
      assert s + [b] == [b] && [b][1..] == [];
    } else {
      assert (s + [b])[1..] == s[1..] + [b];
      ToNatAppend(s[1..], b);
    }
  }

  lemma PackedAppend(instr: Instruction, positions: seq<nat>, i: nat)
    requires Within(positions, BitLen(instr)) && i < BitLen(instr)
    ensures Packed(instr, positions + [i]) == Packed(instr, positions) + if Nth(instr, i) then Pow2(|positions|) else 0
  {
    assert BitsAt(instr, positions + [i]) == BitsAt(instr, positions) + [Nth(instr, i)];
    ToNatAppend(BitsAt(instr, positions), Nth(instr, i));
  }

  // ------------------------------------------- sizes and values of labelled bits

  /** The positions labelled with part `p`, in increasing order. */
  function PositionsOf(bits: seq<Bit>, p: nat): (r: seq<nat>)
    ensures Increasing(r) && Within(r, |bits|)
    ensures forall i :: i in r <==> 0 <= i < |bits| && bits[i] == Part(p)
  {
    if |bits| == 0 then []
    else
      var n := |bits| - 1;
      PositionsOf(bits[..n], p) + if bits[n] == Part(p) then [n] else []
  }

  /** Increasing lists with the same elements are equal. */
  lemma {:induction false} IncreasingUnique(a: seq<nat>, b: seq<nat>)
    requires Increasing(a) && Increasing(b) && forall x :: x in a <==> x in b
    ensures a == b
    decreases |a|
  {
    if |b| > 0 {
      assert b[0] in b && b[0] in a;
    }
    if |a| > 0 {
      assert a[0] in a && a[0] in b;
      assert a[0] == b[0];
      forall x ensures x in a[1..] <==> x in b[1..] {
        if x in a[1..] {
          assert x in a && x != a[0];
        }
        if x in b[1..] {
          assert x in b && x != b[0];
        }
      }
      IncreasingUnique(a[1..], b[1..]);
      assert a == [a[0]] + a[1..] && b == [b[0]] + b[1..];
    }
  }

  /** The part's size and value are those of the bits labelled with it. */
  ghost predicate Matches(p: PartInfo, bits: seq<Bit>, index: nat, instr: Instruction)
    requires |bits| <= BitLen(instr)
  {
    p.size == |PositionsOf(bits, index)| && p.value == Packed(instr, PositionsOf(bits, index))
  }

  // ----------------------------------------------------- instruction variants

  /** `instr` with the bits of `v`, from the lowest, at the positions. */
  function Variant(instr: Instruction, positions: seq<nat>, v: int): (r: Instruction)
    requires Within(positions, BitLen(instr))
    ensures |r| == |instr|
  {
    if |positions| == 0 then instr
    else
      var n := |positions| - 1;
      With(Variant(instr, positions[..n], v), positions[n], Words.Bit(v, n))
  }

  lemma {:induction false} VariantBits(instr: Instruction, positions: seq<nat>, v: int)
    requires Within(positions, BitLen(instr)) && Increasing(positions)
    ensures forall k :: 0 <= k < |positions| ==> Nth(Variant(instr, positions, v), positions[k]) == Words.Bit(v, k)
    ensures forall j :: 0 <= j < BitLen(instr) && j !in positions ==>
              Nth(Variant(instr, positions, v), j) == Nth(instr, j)
    decreases |positions|
  {
    hide Nth, With, Words.Bit;
    if |positions| > 0 {
      var n := |positions| - 1;
      VariantBits(instr, positions[..n], v);
      assert positions == positions[..n] + [positions[n]];
    }
  }

  /** The loop that writes the bits of `v` into the labelled positions. */
  method MakeVariant(instr: Instruction, bits: seq<Bit>, part: nat, v: int) returns (r: Instruction)
    requires |bits| <= BitLen(instr)
    ensures r == Variant(instr, PositionsOf(bits, part), v)
  {
    r := instr;
    var k := 0;
    for i := 0 to |bits|
      invariant |r| == |instr|
      invariant k == |PositionsOf(bits[..i], part)| && r == Variant(instr, PositionsOf(bits[..i], part), v)
    {
      ghost var before, after := PositionsOf(bits[..i], part), PositionsOf(bits[..i + 1], part);
      assert bits[..i + 1][..i] == bits[..i];
      if bits[i] == Part(part) {
        assert after == before + [i] && after[..k] == before;
        r := With(r, i, Words.Bit(v, k));
        k := k + 1;
      } else {
        assert after == before;
      }
    }
    assert bits[..|bits|] == bits;
  }

  /** Two values write the same bits exactly when they agree in as many low bits. */
  lemma VariantsEqual(instr: Instruction, positions: seq<nat>, v: nat, w: nat)
    requires Within(positions, BitLen(instr)) && Increasing(positions)
    ensures Variant(instr, positions, v) == Variant(instr, positions, w) <==> SameLowBits(|positions|, v, w)
  {
    var n, a, b := |positions|, Variant(instr, positions, v), Variant(instr, positions, w);
    VariantBits(instr, positions, v);
    VariantBits(instr, positions, w);
    if SameLowBits(n, v, w) {
      forall j | 0 <= j < BitLen(instr) ensures Nth(a, j) == Nth(b, j) {
        if j in positions {
          var k :| 0 <= k < n && positions[k] == j;
          assert Words.Bit(v, k) == Words.Bit(w, k);
        }
      }
      SameBits(a, b);
    } else {
      var k :| 0 <= k < n && Words.Bit(v, k) != Words.Bit(w, k);
      assert Nth(a, positions[k]) != Nth(b, positions[k]);
    }
  }

  lemma {:induction false} BitsDetermine(v: nat, w: nat, n: nat)
    requires v < Pow2(n) && w < Pow2(n) && SameLowBits(n, v, w)
    ensures v == w
    decreases n
  {
    if n > 0 {
      assert Words.Bit(v, 0) == Words.Bit(w, 0);
      forall k | 0 <= k < n - 1 ensures Words.Bit(v / 2, k) == Words.Bit(w / 2, k) {
        assert Words.Bit(v, k + 1) == Words.Bit(w, k + 1);
      }
      BitsDetermine(v / 2, w / 2, n - 1);
    }
  }

  /** The value that the instruction's own bits hold reproduces it. */
  lemma OwnVariant(instr: Instruction, positions: seq<nat>)
    requires Within(positions, BitLen(instr)) && Increasing(positions)
    ensures Packed(instr, positions) < Pow2(|positions|) && Variant(instr, positions, Packed(instr, positions)) == instr
  {
    var v := Packed(instr, positions);
    VariantBits(instr, positions, v);
    ToNatBound(BitsAt(instr, positions));
    forall j | 0 <= j < BitLen(instr) ensures Nth(Variant(instr, positions, v), j) == Nth(instr, j) {
      if j in positions {
        var k :| 0 <= k < |positions| && positions[k] == j;
        BitOfToNat(BitsAt(instr, positions), k);
      }
    }
    SameBits(Variant(instr, positions, v), instr);
  }

  /** What the list of variants looks like: it takes every pattern of the labelled bits in turn,
      starting over after the last, and touches no other bit. */
  ghost predicate VariantsOk(instr: Instruction, bits: seq<Bit>, index: nat, variants: seq<Instruction>)
    requires |bits| <= BitLen(instr)
  {
    var positions := PositionsOf(bits, index);
    && (forall v, w :: 0 <= v < |variants| && 0 <= w < |variants| ==>
          (variants[v] == variants[w] <==> SameLowBits(|positions|, v, w)))
    && (forall v :: 0 <= v < |variants| ==>
          (variants[v] == instr <==> SameLowBits(|positions|, v, Packed(instr, positions))))
    && (forall v, j :: 0 <= v < |variants| && 0 <= j < |bits| && bits[j] != Part(index) ==>
          |variants[v]| == |instr| && Nth(variants[v], j) == Nth(instr, j))
  }

  /** All variants of a part, in the order of their values. */
  method EnumerateVariants(instr: Instruction, bits: seq<Bit>, index: nat, size: nat)
    returns (variants: seq<Instruction>)
    requires |bits| <= BitLen(instr) && size < 64
    ensures |variants| == Pow2(size) && VariantsOk(instr, bits, index, variants)
  {
    ghost var positions := PositionsOf(bits, index);
    variants := [];
    for v := 0 to Pow2(size)
      invariant |variants| == v
      invariant forall w :: 0 <= w < v ==> variants[w] == Variant(instr, positions, w)
    {
      var r := MakeVariant(instr, bits, index, v);
      variants := variants + [r];
    }
    VariantFacts(instr, bits, index, variants);
  }

  lemma VariantFacts(instr: Instruction, bits: seq<Bit>, index: nat, variants: seq<Instruction>)
    requires |bits| <= BitLen(instr)
    requires forall w :: 0 <= w < |variants| ==> variants[w] == Variant(instr, PositionsOf(bits, index), w)
    ensures VariantsOk(instr, bits, index, variants)
  {
    var positions := PositionsOf(bits, index);
    OwnVariant(instr, positions);
    forall v, w | 0 <= v < |variants| && 0 <= w < |variants|
      ensures variants[v] == variants[w] <==> SameLowBits(|positions|, v, w)
    {
      VariantsEqual(instr, positions, v, w);
    }
    forall v | 0 <= v < |variants|
      ensures variants[v] == instr <==> SameLowBits(|positions|, v, Packed(instr, positions))
    {
      VariantsEqual(instr, positions, v, Packed(instr, positions));
    }
    forall v, j | 0 <= v < |variants| && 0 <= j < |bits| && bits[j] != Part(index)
      ensures |variants[v]| == |instr| && Nth(variants[v], j) == Nth(instr, j)
    {
      VariantBits(instr, positions, v);
    }
  }

  /** A part whose size and value are those of its labelled bits has one variant per value, all
      different, and its own value stands for the instruction itself. */
  lemma MatchingVariants(instr: Instruction, bits: seq<Bit>, index: nat, part: PartInfo, variants: seq<Instruction>)
    requires |bits| <= BitLen(instr) && Matches(part, bits, index, instr)
    requires |variants| == Pow2(part.size) && VariantsOk(instr, bits, index, variants)
    ensures forall v, w :: 0 <= v < w < |variants| ==> variants[v] != variants[w]
    ensures part.value < |variants| && forall v :: 0 <= v < |variants| ==> (variants[v] == instr <==> v == part.value)
  {
    var positions := PositionsOf(bits, index);
    OwnVariant(instr, positions);
    forall v, w | 0 <= v < w < |variants| ensures variants[v] != variants[w] {
      if variants[v] == variants[w] {
        BitsDetermine(v, w, |positions|);
        assert false;
      }
    }
    forall v | 0 <= v < |variants| ensures variants[v] == instr <==> v == part.value {
      if variants[v] == instr {
        BitsDetermine(v, part.value, |positions|);
      }
    }
  }
}
