/** The constant offset of a memory access once an immediate part contributes to its address: it is
    chosen so that the analysed instruction still accesses what it did.
 */
module MemoryOffsets {
  import opened Options
  import opened MachineInts
  import opened Words
  import opened WordArithmetic
  import opened Instructions
  import opened Parts
  import opened PartCreation
  import PartRemoval

  /** Equal in 64-bit arithmetic. */
  ghost predicate Cong64(x: int, y: int) { (x - y) % U64_MOD == 0 }

  lemma Multiples(x: int, y: int)
    requires x % U64_MOD == 0 && y % U64_MOD == 0
    ensures (x + y) % U64_MOD == 0 && (x - y) % U64_MOD == 0
  {
    var q, r := x / U64_MOD, y / U64_MOD;
    assert x + y == (q + r) * U64_MOD && x - y == (q - r) * U64_MOD;
  }

  lemma Cong64Sum(x: int, y: int, u: int, v: int)
    requires Cong64(x, y) && Cong64(u, v)
    ensures Cong64(x + u, y + v) && Cong64(x - u, y - v) && Cong64(y, x)
  {
    Multiples(x - y, u - v);
    Multiples(y - y, x - y);
  }

  lemma Cong64Trans(x: int, y: int, z: int)
    requires Cong64(x, y) && Cong64(y, z)
    ensures Cong64(x, z)
  {
    Multiples(x - y, y - z);
  }

  lemma Wrapped(x: int)
    ensures Cong64(AsU64(x), x) && Cong64(AsI64(x), x) && Cong64(x, x)
  {
  }

  /** `as_offset`: the bit times its weight, negated by complement and increment.  An unchecked build
      takes the distance of the shift modulo 64. */
  function AsOffset(order: BitOrder, bit: bool): int
  {
    var shifted := AsU64(if bit then Pow2(order.bit % 64) else 0);
    match order
    case Positive(_) => shifted
    case Negative(_) => AsU64(U64_MOD - 1 - shifted + 1)
  }

  /** What the bit is taken for. */
  function Taken(order: BitOrder, bit: bool): int { Meaning(order.(bit := order.bit % 64), bit) }

  lemma OffsetTaken(order: BitOrder, bit: bool)
    ensures Cong64(AsOffset(order, bit), Taken(order, bit))
  {
    var x := if bit then Pow2(order.bit % 64) else 0;
    Wrapped(x);
    if order.Negative? {
      Wrapped(U64_MOD - AsU64(x));
      Wrapped(0);
      Cong64Sum(0, 0, AsU64(x), x);
      Cong64Trans(U64_MOD - AsU64(x), -AsU64(x), -x);
      Cong64Trans(AsOffset(order, bit), U64_MOD - AsU64(x), -x);
    }
  }

  lemma PowModulus()
    ensures Pow2(64) == U64_MOD
  {
    assert Pow2(8) == 256;
    Pow2Add(8, 8);
    Pow2Add(16, 16);
    Pow2Add(32, 32);
  }

  /** Weights below 64 are below the modulus, those from 64 on are multiples of it. */
  lemma WeightModulo(n: nat)
    ensures n < 64 ==> 0 < Pow2(n) < U64_MOD
    ensures n >= 64 ==> Pow2(n) % U64_MOD == 0
  {
    PowModulus();
    if n < 64 {
      Pow2Below(n, 64);
    } else {
      Pow2Add(64, n - 64);
      assert Pow2(n) == U64_MOD * Pow2(n - 64);
    }
  }

  lemma {:induction false} Pow2Below(n: nat, k: nat)
    requires n < k
    ensures 0 < Pow2(n) < Pow2(k)
    decreases k
  {
    if n < k - 1 {
      Pow2Below(n, k - 1);
    }
  }

  /** A set bit gives the documented offset exactly when its number is below 64. */
  lemma OffsetMeans(order: BitOrder, bit: bool)
    ensures !bit ==> Cong64(AsOffset(order, bit), Meaning(order, bit))
    ensures bit ==> (Cong64(AsOffset(order, bit), Meaning(order, bit)) <==> order.bit < 64)
  {
    OffsetTaken(order, bit);
    if bit {
      if order.bit < 64 {
        assert order.bit % 64 == order.bit;
      } else {
        WeightModulo(order.bit);
        WeightModulo(order.bit % 64);
        SmallIsNot(Pow2(order.bit % 64), Pow2(order.bit));
        if Cong64(AsOffset(order, bit), Meaning(order, bit)) {
          Cong64Sum(AsOffset(order, bit), Taken(order, bit), 0, 0);
          Cong64Trans(Taken(order, bit), AsOffset(order, bit), Meaning(order, bit));
        }
      }
    }
  }

  lemma SmallIsNot(x: int, y: int)
    requires 0 < x < U64_MOD && y % U64_MOD == 0
    ensures !Cong64(x, y) && !Cong64(-x, -y)
  {
  }

  /** What all bits together are taken for, the shorter of the lists deciding how many. */
  function Offset(orders: seq<BitOrder>, values: seq<bool>): int
  {
    if |orders| == 0 || |values| == 0 then 0
    else Taken(orders[0], values[0]) + Offset(orders[1..], values[1..])
  }

  /** What they are documented to stand for. */
  function Documented(orders: seq<BitOrder>, values: seq<bool>): int
  {
    if |orders| == 0 || |values| == 0 then 0
    else Meaning(orders[0], values[0]) + Documented(orders[1..], values[1..])
  }

  predicate BelowWidth(orders: seq<BitOrder>) { forall k :: 0 <= k < |orders| ==> orders[k].bit < 64 }

  lemma {:induction false} TakenAsDocumented(orders: seq<BitOrder>, values: seq<bool>)
    requires BelowWidth(orders)
    ensures Offset(orders, values) == Documented(orders, values)
    decreases |orders|
  {
    if |orders| > 0 && |values| > 0 {
      assert orders[0].bit % 64 == orders[0].bit;
      TakenAsDocumented(orders[1..], values[1..]);
    }
  }

  lemma {:induction false} OffsetAppend(orders: seq<BitOrder>, values: seq<bool>, order: BitOrder, value: bool)
    requires |orders| == |values|
    ensures Offset(orders + [order], values + [value]) == Offset(orders, values) + Taken(order, value)
    decreases |orders|
  {
    if |orders| == 0 {
      assert (orders + [order])[1..] == [] && (values + [value])[1..] == [];
    } else {
      assert (orders + [order])[1..] == orders[1..] + [order] && (values + [value])[1..] == values[1..] + [value];
      OffsetAppend(orders[1..], values[1..], order, value);
    }
  }

  /** One more bit in a running 64-bit sum. */
  lemma NextBit(acc: int, orders: seq<BitOrder>, values: seq<bool>, k: nat)
    requires k < |orders| && k < |values| && Summed(acc, orders, values, k)
    ensures Summed(AsU64(acc + AsOffset(orders[k], values[k])), orders, values, k + 1)
  {
    assert orders[..k + 1] == orders[..k] + [orders[k]] && values[..k + 1] == values[..k] + [values[k]];
    OffsetAppend(orders[..k], values[..k], orders[k], values[k]);
    OffsetTaken(orders[k], values[k]);
    var next := acc + AsOffset(orders[k], values[k]);
    Cong64Sum(acc, Offset(orders[..k], values[..k]), AsOffset(orders[k], values[k]), Taken(orders[k], values[k]));
    Wrapped(next);
    Cong64Trans(AsU64(next), next, Offset(orders[..k + 1], values[..k + 1]));
  }

  function Bits(value: nat, n: nat): (r: seq<bool>)
    ensures |r| == n && forall k :: 0 <= k < n ==> r[k] == Words.Bit(value, k)
  {
    seq(n, k requires 0 <= k < n => Words.Bit(value, k))
  }

  /** The address value of an immediate when an encoding is instantiated with `value` for the part. */
  method MemValue(orders: seq<BitOrder>, value: nat) returns (r: int)
    ensures Cong64(r, Offset(orders, Bits(value, |orders|)))
    ensures BelowWidth(orders) ==> Cong64(r, Documented(orders, Bits(value, |orders|)))
  {
    r := 0;
    Wrapped(0);
    ghost var values := Bits(value, |orders|);
    for k := 0 to |orders|
      invariant Summed(r, orders, values, k)
    {
      NextBit(r, orders, values, k);
      r := AsU64(r + AsOffset(orders[k], Words.Bit(value, k)));
    }
    assert orders[..|orders|] == orders && values[..|orders|] == values;
    if BelowWidth(orders) {
      TakenAsDocumented(orders, values);
    }
  }

  /** The offset that the instruction's own bits of a part contribute. */
  method ExpectedOffset(instr: Instruction, bits: seq<Parts.Bit>, part: nat, orders: seq<BitOrder>) returns (r: int)
    requires |bits| <= BitLen(instr)
    ensures Cong64(r, Offset(orders, BitsAt(instr, PositionsOf(bits, part))))
    ensures BelowWidth(orders) ==> Cong64(r, Documented(orders, BitsAt(instr, PositionsOf(bits, part))))
  {
    hide Offset, Documented, BelowWidth, AsOffset, Cong64, Taken;
    r := 0;
    ghost var values := BitsAt(instr, PositionsOf(bits, part));
    NothingSummed(orders, values);
    var k := 0;
    for i := 0 to |bits|
      invariant Summed(r, orders, values, k)
      invariant k == |orders| || k == CountBefore(bits, part, i)
    {
      PositionBefore(bits, part, i);
      if bits[i] == Part(part) && k < |orders| {
        assert values[k] == Nth(instr, i);
        NextBit(r, orders, values, k);
        r := AsU64(r + AsOffset(orders[k], Nth(instr, i)));
        k := k + 1;
      }
    }
    assert bits[..|bits|] == bits;
    Truncated(orders, values, k);
    Wrapped(r);
    Cong64Trans(AsI64(r), r, Offset(orders, values));
    r := AsI64(r);
    if BelowWidth(orders) {
      TakenAsDocumented(orders, values);
    }
  }

  /** A running 64-bit sum of the first `k` bits. */
  ghost predicate Summed(acc: int, orders: seq<BitOrder>, values: seq<bool>, k: nat)
  {
    k <= |orders| && k <= |values| && Cong64(acc, Offset(orders[..k], values[..k]))
  }

  /** How many of the first `i` bits belong to the part. */
  function CountBefore(bits: seq<Parts.Bit>, part: nat, i: nat): nat
    requires i <= |bits|
  {
    |PositionsOf(bits[..i], part)|
  }

  lemma NothingSummed(orders: seq<BitOrder>, values: seq<bool>)
    ensures Summed(0, orders, values, 0)
  {
  }

  lemma {:induction false} PositionBefore(bits: seq<Parts.Bit>, part: nat, i: nat)
    requires i < |bits|
    ensures CountBefore(bits, part, i + 1) == CountBefore(bits, part, i) + if bits[i] == Part(part) then 1 else 0
    ensures CountBefore(bits, part, i + 1) <= |PositionsOf(bits, part)|
    ensures bits[i] == Part(part) ==> PositionsOf(bits, part)[CountBefore(bits, part, i)] == i
    decreases |bits|
  {
    assert bits[..i + 1][..i] == bits[..i];
    var n := |bits| - 1;
    if i < n {
      PositionBefore(bits[..n], part, i);
      assert bits[..n][..i + 1] == bits[..i + 1] && bits[..n][..i] == bits[..i];
    } else {
      assert bits[..i + 1] == bits;
    }
  }

  lemma {:induction false} Truncated(orders: seq<BitOrder>, values: seq<bool>, k: nat)
    requires k <= |orders| && k <= |values| && (k == |orders| || k == |values|)
    ensures Offset(orders, values) == Offset(orders[..k], values[..k])
    decreases k
  {
    if k > 0 {
      assert orders[..k][1..] == orders[1..][..k - 1] && values[..k][1..] == values[1..][..k - 1];
      Truncated(orders[1..], values[1..], k - 1);
    }
  }

  // ------------------------------------------------------ the offsets of all accesses

  /** A part with a bit order: its number and the memory accesses it contributes to. */
  datatype ImmPart = ImmPart(index: nat, orders: seq<BitOrder>, accesses: seq<nat>)

  /** What a part is worth in the analysed instruction, and where. */
  datatype Contribution = Contribution(worth: int, accesses: seq<nat>)

  function Worth(p: ImmPart, instr: Instruction, bits: seq<Parts.Bit>): Contribution
    requires |bits| <= BitLen(instr)
  {
    Contribution(Offset(p.orders, BitsAt(instr, PositionsOf(bits, p.index))), p.accesses)
  }

  function Worths(parts: seq<ImmPart>, instr: Instruction, bits: seq<Parts.Bit>): seq<Contribution>
    requires |bits| <= BitLen(instr)
  {
    seq(|parts|, k requires 0 <= k < |parts| => Worth(parts[k], instr, bits))
  }

  lemma WorthsPrefix(parts: seq<ImmPart>, instr: Instruction, bits: seq<Parts.Bit>, k: nat)
    requires |bits| <= BitLen(instr) && k < |parts|
    ensures Worths(parts, instr, bits)[..k + 1] == Worths(parts, instr, bits)[..k] + [Worth(parts[k], instr, bits)]
  {
    hide Worth;
  }

  /** `x` added up `n` times. */
  function Times(n: nat, x: int): int { if n == 0 then 0 else Times(n - 1, x) + x }

  function Occurrences(accesses: seq<nat>, m: nat): nat
  {
    if |accesses| == 0 then 0
    else Occurrences(accesses[..|accesses| - 1], m) + if accesses[|accesses| - 1] == m then 1 else 0
  }

  /** How many contributions access `m` gets, and what they add up to. */
  function Count(cs: seq<Contribution>, m: nat): nat
  {
    if |cs| == 0 then 0 else Count(cs[..|cs| - 1], m) + Occurrences(cs[|cs| - 1].accesses, m)
  }

  function Total(cs: seq<Contribution>, m: nat): int
  {
    if |cs| == 0 then 0 else Total(cs[..|cs| - 1], m) + Times(Occurrences(cs[|cs| - 1].accesses, m), cs[|cs| - 1].worth)
  }

  /** The new offset of an access, with all its contributions added, is as often the old one as
      there are contributions; without any there is no new offset. */
  ghost predicate OffsetOk(offset: Option<int>, base: int, count: nat, total: int)
  {
    && (offset.None? <==> count == 0) && (count == 0 ==> total == 0)
    && (offset.Some? ==> Cong64(offset.value + total, Times(count, base)))
  }

  /** The new offset of an access that one more contribution is made to. */
  function Contribute(offset: Option<int>, base: int, expected: int): Option<int>
  {
    Some(AsI64((if offset.None? then 0 else offset.value) + AsI64(base - expected)))
  }

  lemma OffsetStep(offset: Option<int>, base: int, count: nat, total: int, expected: int, e: int)
    requires OffsetOk(offset, base, count, total) && Cong64(expected, e)
    ensures OffsetOk(Contribute(offset, base, expected), base, count + 1, total + e)
  {
    var o := if offset.None? then 0 else offset.value;
    var diff, all := AsI64(base - expected), Times(count, base);
    assert Cong64(o + total, all);
    Wrapped(base - expected);
    Cong64Trans(diff, base - expected, base - e);
    Cong64Sum(o + total, all, diff, base - e);
    Wrapped(o + diff);
    Cong64Trans(AsI64(o + diff) + total + e, o + diff + total + e, all + base);
    assert Times(count + 1, base) == all + base;
  }

  /** The state of access `m` when all of `cs` and, each worth `e`, the accesses in `more` have
      contributed. */
  ghost predicate AccessOk(offset: Option<int>, base: int, cs: seq<Contribution>, m: nat, more: seq<nat>, e: int)
  {
    OffsetOk(offset, base, Count(cs, m) + Occurrences(more, m), Total(cs, m) + Times(Occurrences(more, m), e))
  }

  ghost predicate OffsetsOk(offsets: seq<Option<int>>, bases: seq<int>, cs: seq<Contribution>, more: seq<nat>, e: int)
  {
    |offsets| == |bases| && forall m :: 0 <= m < |bases| ==> AccessOk(offsets[m], bases[m], cs, m, more, e)
  }

  lemma AccessStep(offset: Option<int>, base: int, cs: seq<Contribution>, m: nat, more: seq<nat>, e: int,
                   at: nat, expected: int)
    requires AccessOk(offset, base, cs, m, more, e) && Cong64(expected, e)
    ensures AccessOk(if at == m then Contribute(offset, base, expected) else offset, base, cs, m, more + [at], e)
  {
    assert (more + [at])[..|more|] == more;
    if at == m {
      OffsetStep(offset, base, Count(cs, m) + Occurrences(more, m),
                 Total(cs, m) + Times(Occurrences(more, m), e), expected, e);
      assert Times(Occurrences(more, m) + 1, e) == Times(Occurrences(more, m), e) + e;
    }
  }

  lemma PartDone(offset: Option<int>, base: int, cs: seq<Contribution>, m: nat, c: Contribution)
    requires AccessOk(offset, base, cs, m, c.accesses, c.worth)
    ensures AccessOk(offset, base, cs + [c], m, [], 0)
  {
    assert (cs + [c])[..|cs|] == cs;
  }

  lemma NothingAdded(offsets: seq<Option<int>>, bases: seq<int>, cs: seq<Contribution>, e: int)
    requires OffsetsOk(offsets, bases, cs, [], 0)
    ensures OffsetsOk(offsets, bases, cs, [], e)
  {
    forall m | 0 <= m < |bases| ensures AccessOk(offsets[m], bases[m], cs, m, [], e) {
      assert AccessOk(offsets[m], bases[m], cs, m, [], 0);
    }
  }

  /** One part's contributions to the accesses it names. */
  method AddPart(offsets: seq<Option<int>>, instr: Instruction, bits: seq<Parts.Bit>, bases: seq<int>,
                 ghost cs: seq<Contribution>, p: ImmPart)
    returns (r: seq<Option<int>>)
    requires |bits| <= BitLen(instr) && Within(p.accesses, |bases|) && OffsetsOk(offsets, bases, cs, [], 0)
    ensures OffsetsOk(r, bases, cs + [Worth(p, instr, bits)], [], 0)
  {
    hide Offset, Documented, BelowWidth, AccessOk, Cong64, PositionsOf;
    r := offsets;
    ghost var c := Worth(p, instr, bits);
    NothingAdded(offsets, bases, cs, c.worth);
    for i := 0 to |p.accesses|
      invariant OffsetsOk(r, bases, cs, p.accesses[..i], c.worth)
    {
      var at := p.accesses[i];
      var expected := ExpectedOffset(instr, bits, p.index, p.orders);
      ghost var was := r;
      r := r[at := Contribute(r[at], bases[at], expected)];
      forall m | 0 <= m < |bases| ensures AccessOk(r[m], bases[m], cs, m, p.accesses[..i + 1], c.worth) {
        assert AccessOk(was[m], bases[m], cs, m, p.accesses[..i], c.worth);
        AccessStep(was[m], bases[m], cs, m, p.accesses[..i], c.worth, at, expected);
        assert p.accesses[..i + 1] == p.accesses[..i] + [at];
      }
    }
    assert p.accesses[..|p.accesses|] == p.accesses;
    forall m | 0 <= m < |bases| ensures AccessOk(r[m], bases[m], cs + [c], m, [], 0) {
      PartDone(r[m], bases[m], cs, m, c);
    }
  }

  lemma AllDone(offset: Option<int>, base: int, cs: seq<Contribution>, m: nat)
    requires AccessOk(offset, base, cs, m, [], 0)
    ensures OffsetOk(offset, base, Count(cs, m), Total(cs, m))
  {
  }

  lemma NothingDone(bases: seq<int>)
    ensures OffsetsOk(seq(|bases|, _ => None), bases, [], [], 0)
  {
  }

  ghost predicate NewOffsetsOk(r: seq<Option<int>>, parts: seq<ImmPart>, instr: Instruction, bits: seq<Parts.Bit>,
                               bases: seq<int>)
    requires |bits| <= BitLen(instr)
  {
    var cs := Worths(parts, instr, bits);
    |r| == |bases| && forall m :: 0 <= m < |bases| ==> OffsetOk(r[m], bases[m], Count(cs, m), Total(cs, m))
  }

  /** The new offset of every access. */
  method NewOffsets(parts: seq<ImmPart>, instr: Instruction, bits: seq<Parts.Bit>, bases: seq<int>)
    returns (r: seq<Option<int>>)
    requires |bits| <= BitLen(instr)
    requires forall k :: 0 <= k < |parts| ==> Within(parts[k].accesses, |bases|)
    ensures NewOffsetsOk(r, parts, instr, bits, bases)
  {
    r := seq(|bases|, _ => None);
    NothingDone(bases);
    ghost var all := Worths(parts, instr, bits);
    assert all[..0] == [];
    for k := 0 to |parts|
      invariant OffsetsOk(r, bases, all[..k], [], 0)
    {
      r := AddPart(r, instr, bits, bases, all[..k], parts[k]);
      WorthsPrefix(parts, instr, bits, k);
    }
    assert all[..|parts|] == all;
    forall m | 0 <= m < |bases| ensures OffsetOk(r[m], bases[m], Count(all, m), Total(all, m)) {
      AllDone(r[m], bases[m], all, m);
    }
  }

  /** The instruction's own address is kept exactly when the old offset, once for every contribution
      beyond the first, adds up to nothing: in particular when there is one contribution, which is
      what building the parts insists on. */
  lemma OffsetRestoredExactly(offset: Option<int>, base: int, count: nat, total: int)
    requires OffsetOk(offset, base, count, total) && offset.Some?
    ensures Cong64(offset.value + total, base) <==> Cong64(Times(count - 1, base), 0)
    ensures count == 1 ==> Cong64(offset.value + total, base)
  {
    assert Times(count, base) == Times(count - 1, base) + base;
  }

  /** Instantiating the part with the value of its own bits gives the offset that was expected. */
  lemma OwnValueOffset(instr: Instruction, bits: seq<Parts.Bit>, part: nat, orders: seq<BitOrder>)
    requires |bits| <= BitLen(instr) && |orders| == |PositionsOf(bits, part)|
    ensures Offset(orders, Bits(Packed(instr, PositionsOf(bits, part)), |orders|))
            == Offset(orders, BitsAt(instr, PositionsOf(bits, part)))
  {
    var values := BitsAt(instr, PositionsOf(bits, part));
    forall k | 0 <= k < |orders| ensures Words.Bit(ToNat(values), k) == values[k] {
      BitOfToNat(values, k);
    }
    assert Bits(ToNat(values), |orders|) == values;
  }

  /** An encoding instantiated with the analysed instruction's own part value accesses the address
      that was analysed. */
  lemma AddressKept(offset: Option<int>, base: int, p: ImmPart, instr: Instruction, bits: seq<Parts.Bit>, v: int)
    requires |bits| <= BitLen(instr) && |p.orders| == |PositionsOf(bits, p.index)|
    requires OffsetOk(offset, base, 1, Worth(p, instr, bits).worth)
    requires Cong64(v, Offset(p.orders, Bits(Packed(instr, PositionsOf(bits, p.index)), |p.orders|)))
    ensures offset.Some? && Cong64(offset.value + v, base)
  {
    hide Cong64, Offset, Bits, Packed, PositionsOf;
    var worth := Worth(p, instr, bits).worth;
    OwnValueOffset(instr, bits, p.index, p.orders);
    OffsetRestoredExactly(offset, base, 1, worth);
    Wrapped(offset.value);
    Cong64Sum(offset.value, offset.value, v, worth);
    Cong64Trans(offset.value + v, offset.value + worth, base);
  }

  // ------------------------------------------------------- one contribution each

  /** The parts that add to addresses, with their numbers. */
  function ImmParts(parts: seq<PartInfo>): (r: seq<ImmPart>)
  {
    if |parts| == 0 then []
    else
      var n := |parts| - 1;
      ImmParts(parts[..n]) + if parts[n].base.OffsetImm? then [AsImmPart(parts[n], n)] else []
  }

  function AsImmPart(p: PartInfo, index: nat): ImmPart
    requires p.base.OffsetImm?
  {
    ImmPart(index, p.orders, Accesses(p.base.targets))
  }

  lemma {:induction false} OccurrencesNone(s: seq<nat>, m: nat)
    requires m !in s
    ensures Occurrences(s, m) == 0
    decreases |s|
  {
    if |s| > 0 {
      OccurrencesNone(s[..|s| - 1], m);
    }
  }

  lemma {:induction false} OccurrencesOnce(s: seq<nat>, m: nat)
    requires m in s && Distinct(s)
    ensures Occurrences(s, m) == 1
    decreases |s|
  {
    var n := |s| - 1;
    assert s == s[..n] + [s[n]];
    if s[n] == m {
      OccurrencesNone(s[..n], m);
    } else {
      OccurrencesOnce(s[..n], m);
    }
  }

  /** How the last part changes what an access gets. */
  lemma WorthsNext(parts: seq<PartInfo>, instr: Instruction, bits: seq<Parts.Bit>, m: nat)
    requires |parts| > 0 && |bits| <= BitLen(instr)
    ensures var n := |parts| - 1;
            var before, after := Worths(ImmParts(parts[..n]), instr, bits), Worths(ImmParts(parts), instr, bits);
            if !parts[n].base.OffsetImm? then after == before
            else
              var c := Worth(AsImmPart(parts[n], n), instr, bits);
              && Count(after, m) == Count(before, m) + Occurrences(c.accesses, m)
              && Total(after, m) == Total(before, m) + Times(Occurrences(c.accesses, m), c.worth)
  {
    hide Worth;
    var n := |parts| - 1;
    if parts[n].base.OffsetImm? {
      var before, p := ImmParts(parts[..n]), AsImmPart(parts[n], n);
      var after := Worths(ImmParts(parts), instr, bits);
      assert after == Worths(before, instr, bits) + [Worth(p, instr, bits)];
      assert after[..|before|] == Worths(before, instr, bits);
    }
  }

  lemma {:induction false} NoContribution(parts: seq<PartInfo>, instr: Instruction, bits: seq<Parts.Bit>, m: nat)
    requires |bits| <= BitLen(instr) && forall k :: 0 <= k < |parts| ==> !Names(parts[k].base, m)
    ensures Count(Worths(ImmParts(parts), instr, bits), m) == 0
    decreases |parts|
  {
    hide Worths, Worth;
    if |parts| == 0 {
      NoWorths(instr, bits);
    } else {
      var n := |parts| - 1;
      WorthsNext(parts, instr, bits, m);
      NoContribution(parts[..n], instr, bits, m);
      if parts[n].base.OffsetImm? {
        WorthAccesses(parts[n], n, instr, bits);
        OccurrencesNone(Accesses(parts[n].base.targets), m);
      }
    }
  }

  lemma NoWorths(instr: Instruction, bits: seq<Parts.Bit>)
    requires |bits| <= BitLen(instr)
    ensures Worths([], instr, bits) == []
  {
  }

  lemma WorthAccesses(p: PartInfo, index: nat, instr: Instruction, bits: seq<Parts.Bit>)
    requires |bits| <= BitLen(instr) && p.base.OffsetImm?
    ensures Worth(AsImmPart(p, index), instr, bits).accesses == Accesses(p.base.targets)
  {
  }

  /** Each access gets at most one contribution, that of the part that names it. */
  lemma {:induction false} OneContribution(parts: seq<PartInfo>, instr: Instruction, bits: seq<Parts.Bit>, k: nat,
                                           m: nat)
    requires |bits| <= BitLen(instr) && Alone(parts) && k < |parts| && Names(parts[k].base, m)
    ensures var cs := Worths(ImmParts(parts), instr, bits);
            Count(cs, m) == 1 && Total(cs, m) == Worth(AsImmPart(parts[k], k), instr, bits).worth
    decreases |parts|
  {
    hide Worths, Worth;
    var n := |parts| - 1;
    WorthsNext(parts, instr, bits, m);
    if k < n {
      OneContribution(parts[..n], instr, bits, k, m);
      if parts[n].base.OffsetImm? {
        WorthAccesses(parts[n], n, instr, bits);
        OccurrencesNone(Accesses(parts[n].base.targets), m);
      }
    } else {
      NoContribution(parts[..n], instr, bits, m);
      NoTotal(Worths(ImmParts(parts[..n]), instr, bits), m);
      WorthAccesses(parts[n], n, instr, bits);
      OccurrencesOnce(Accesses(parts[n].base.targets), m);
      OneTime(Worth(AsImmPart(parts[n], n), instr, bits).worth);
    }
  }

  lemma OneTime(x: int)
    ensures Times(1, x) == x
  {
  }

  lemma {:induction false} NoTotal(cs: seq<Contribution>, m: nat)
    requires Count(cs, m) == 0
    ensures Total(cs, m) == 0
    decreases |cs|
  {
    if |cs| > 0 {
      NoTotal(cs[..|cs| - 1], m);
    }
  }

  /** Removing parts gives no access a second immediate. */
  lemma AloneSurvives(parts: seq<PartInfo>, invalid: seq<nat>)
    requires Alone(parts)
    ensures Alone(PartRemoval.Survivors(parts, invalid))
  {
    hide PartRemoval.Survivors, PartRemoval.Kept, Names, NamesOnce;
    var r := PartRemoval.Survivors(parts, invalid);
    forall p | 0 <= p < |r| ensures NamesOnce(r[p].base) {
      var i := PartRemoval.SurvivorOrigin(parts, invalid, p);
      PartRemoval.SurvivorAt(parts, invalid, i);
    }
    forall p, q, m | 0 <= p < q < |r| && Names(r[p].base, m) ensures !Names(r[q].base, m) {
      var i := PartRemoval.SurvivorOrigin(parts, invalid, p);
      var j := PartRemoval.SurvivorOrigin(parts, invalid, q);
      PartRemoval.SurvivorAt(parts, invalid, i);
      PartRemoval.SurvivorAt(parts, invalid, j);
      assert i != j && Names(parts[i].base, m);
    }
  }

  /** A part that is not removed is found under its new number, with one order entry for every bit
      labelled with it. */
  lemma KeptAsBuilt(b: Build, changes: seq<Change>, instr: Instruction, invalid: seq<nat>, bits: seq<Parts.Bit>, p: nat)
    requires |b.bits| == |changes| && LoopOk(b, changes, instr) && p < |b.parts| && p !in invalid
    requires PartRemoval.Relabelled(b.bits, bits, invalid, instr) && b.parts[p].base.OffsetImm?
    ensures var parts, q := PartRemoval.Survivors(b.parts, invalid), PartRemoval.Kept(invalid, p);
            && q < |parts| && parts[q] == b.parts[p] && Alone(parts)
            && |bits| <= BitLen(instr) && |b.parts[p].orders| == |PositionsOf(bits, q)|
  {
    hide PartOk, BitOk, Open, Grouped, Gathered, Alone, PositionsOf;
    PartRemoval.SurvivorAt(b.parts, invalid, p);
    PartRemoval.PositionsKept(b.bits, bits, invalid, instr, p);
    OrdersMatchLabels(b, changes, instr, p);
    AloneSurvives(b.parts, invalid);
  }

  lemma NamedAddressKept(parts: seq<PartInfo>, instr: Instruction, bits: seq<Parts.Bit>, bases: seq<int>,
                         r: seq<Option<int>>, q: nat, m: nat)
    requires |bits| <= BitLen(instr) && Alone(parts) && NewOffsetsOk(r, ImmParts(parts), instr, bits, bases)
    requires m < |bases| && q < |parts| && Names(parts[q].base, m) && |parts[q].orders| == |PositionsOf(bits, q)|
    ensures var orders := parts[q].orders;
            && r[m].Some?
            && Cong64(r[m].value + Offset(orders, Bits(Packed(instr, PositionsOf(bits, q)), |orders|)), bases[m])
  {
    hide Alone, Offset, Bits, Packed, Count, Total, ImmParts, Worths, PositionsOf;
    var part := AsImmPart(parts[q], q);
    OneContribution(parts, instr, bits, q, m);
    AddressKept(r[m], bases[m], part, instr, bits,
                Offset(part.orders, Bits(Packed(instr, PositionsOf(bits, q)), |part.orders|)));
  }

  /** The encoding as it is built, also after parts were removed: an access that a part adds to gets a
      new offset with which the part's own value gives the analysed address, whatever the numbers of
      its bits and however many guesses failed. */
  lemma BuiltAddressKept(b: Build, changes: seq<Change>, instr: Instruction, invalid: seq<nat>,
                         bits: seq<Parts.Bit>, bases: seq<int>, r: seq<Option<int>>, p: nat, m: nat)
    requires |b.bits| == |changes| && LoopOk(b, changes, instr)
    requires PartRemoval.Relabelled(b.bits, bits, invalid, instr)
    requires NewOffsetsOk(r, ImmParts(PartRemoval.Survivors(b.parts, invalid)), instr, bits, bases)
    requires m < |bases| && p < |b.parts| && p !in invalid && Names(b.parts[p].base, m)
    ensures var orders, own := b.parts[p].orders, PositionsOf(bits, PartRemoval.Kept(invalid, p));
            r[m].Some? && Cong64(r[m].value + Offset(orders, Bits(Packed(instr, own), |orders|)), bases[m])
  {
    hide LoopOk, Alone, Offset, Bits, Packed, ImmParts, PositionsOf, PartRemoval.Relabelled, PartRemoval.Survivors;
    KeptAsBuilt(b, changes, instr, invalid, bits, p);
    NamedAddressKept(PartRemoval.Survivors(b.parts, invalid), instr, bits, bases, r, PartRemoval.Kept(invalid, p), m);
  }

  /** An access that no part left adds to keeps the offset it had. */
  lemma UntouchedAccess(parts: seq<PartInfo>, instr: Instruction, bits: seq<Parts.Bit>, bases: seq<int>,
                        r: seq<Option<int>>, m: nat)
    requires |bits| <= BitLen(instr) && NewOffsetsOk(r, ImmParts(parts), instr, bits, bases) && m < |bases|
    requires forall k :: 0 <= k < |parts| ==> !Names(parts[k].base, m)
    ensures r[m].None?
  {
    NoContribution(parts, instr, bits, m);
  }
}
