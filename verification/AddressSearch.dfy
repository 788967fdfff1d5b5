/** The enumeration of address computations: an odometer over all choices of one term per
    register, and for each choice the offsets consistent with every observed access.
 */
module AddressSearch {
  import opened Arithmetic
  import opened MachineInts
  import opened OffsetConstraints

  // ---------------------------------------------------------------- odometer

  /** Each digit is below its radix. */
  predicate Digits(counter: seq<nat>, radices: seq<nat>)
  {
    |counter| == |radices| && forall i :: 0 <= i < |radices| ==> counter[i] < radices[i]
  }

  /** The number of combinations. */
  function Product(radices: seq<nat>): nat
  {
    if |radices| == 0 then 1 else radices[0] * Product(radices[1..])
  }

  /** The position of a combination in counting order, least significant digit first. */
  function Rank(counter: seq<nat>, radices: seq<nat>): nat
    requires |counter| == |radices|
  {
    if |radices| == 0 then 0 else counter[0] + radices[0] * Rank(counter[1..], radices[1..])
  }

  /** One step: carry until a digit does not wrap around. */
  function Next(counter: seq<nat>, radices: seq<nat>): (r: seq<nat>)
    requires |counter| == |radices|
    ensures |r| == |radices|
  {
    if |radices| == 0 then []
    else if counter[0] + 1 >= radices[0] then [0] + Next(counter[1..], radices[1..])
    else [counter[0] + 1] + counter[1..]
  }

  function Zeros(n: nat): (r: seq<nat>)
    ensures |r| == n && forall i :: 0 <= i < n ==> r[i] == 0
  {
    seq(n, _ => 0)
  }

  /** A leading digit and a rank below `p` make a rank below `d * p`. */
  lemma DigitBound(c: nat, d: nat, r: nat, p: nat)
    requires c < d && r < p
    ensures c + d * r < d * p
  {
    MulNext(r, d);
    MulMono(r + 1, p, d);
  }

  lemma {:induction false} RankBound(counter: seq<nat>, radices: seq<nat>)
    requires Digits(counter, radices)
    ensures Rank(counter, radices) < Product(radices)
    decreases |radices|
  {
    if |radices| > 0 {
      RankBound(counter[1..], radices[1..]);
      DigitBound(counter[0], radices[0], Rank(counter[1..], radices[1..]), Product(radices[1..]));
    }
  }

  lemma DigitUnique(c: nat, c': nat, d: nat, r: nat, r': nat)
    requires c < d && c' < d && c + d * r == c' + d * r'
    ensures c == c' && r == r'
  {
    if r < r' {
      DigitBound(c, d, r, r');
    } else if r' < r {
      DigitBound(c', d, r', r);
    }
  }

  lemma {:induction false} RankInjective(a: seq<nat>, b: seq<nat>, radices: seq<nat>)
    requires Digits(a, radices) && Digits(b, radices) && Rank(a, radices) == Rank(b, radices)
    ensures a == b
    decreases |radices|
  {
    if |radices| > 0 {
      DigitUnique(a[0], b[0], radices[0], Rank(a[1..], radices[1..]), Rank(b[1..], radices[1..]));
      RankInjective(a[1..], b[1..], radices[1..]);
      assert a == [a[0]] + a[1..] && b == [b[0]] + b[1..];
    }
  }

  lemma {:induction false} RankZeros(radices: seq<nat>)
    ensures Rank(Zeros(|radices|), radices) == 0
    decreases |radices|
  {
    if |radices| > 0 {
      assert Zeros(|radices|)[1..] == Zeros(|radices| - 1);
      RankZeros(radices[1..]);
    }
  }

  /** Adding one to a two-part rank, with and without a carry. */
  lemma CarryRank(c: nat, d: nat, r: nat, p: nat, next: nat)
    requires c < d && r < p && next == (if r + 1 == p then 0 else r + 1)
    ensures c + 1 >= d ==> 0 + d * next == if c + d * r + 1 == d * p then 0 else c + d * r + 1
    ensures c + 1 < d ==> c + d * r + 1 < d * p
  {
    MulNext(r, d);
    if c + 1 < d {
      DigitBound(c + 1, d, r, p);
    } else if r + 1 < p {
      DigitBound(0, d, r + 1, p);
    }
  }

  /** A step adds one to the rank; only the last combination wraps around to the first. */
  lemma {:induction false} NextRank(counter: seq<nat>, radices: seq<nat>)
    requires Digits(counter, radices)
    ensures Digits(Next(counter, radices), radices)
    ensures var r := Rank(counter, radices);
            Rank(Next(counter, radices), radices) == if r + 1 == Product(radices) then 0 else r + 1
    decreases |radices|
  {
    if |radices| > 0 {
      var rest, tail := counter[1..], radices[1..];
      NextRank(rest, tail);
      RankBound(rest, tail);
      var next := Next(counter, radices);
      CarryRank(counter[0], radices[0], Rank(rest, tail), Product(tail), Rank(Next(rest, tail), tail));
      if counter[0] + 1 >= radices[0] {
        assert next[1..] == Next(rest, tail);
      } else {
        assert next[1..] == rest;
      }
    }
  }

  /** A step in closed form: the digits below `i` wrap, digit `i` does not. */
  lemma {:induction false} NextShape(counter: seq<nat>, radices: seq<nat>, i: nat)
    requires |counter| == |radices| && i <= |radices|
    requires forall j :: 0 <= j < i ==> counter[j] + 1 >= radices[j]
    requires i < |radices| ==> counter[i] + 1 < radices[i]
    ensures forall j :: 0 <= j < |radices| ==>
              Next(counter, radices)[j] == if j < i then 0 else if j == i then counter[j] + 1 else counter[j]
    decreases i
  {
    if i > 0 {
      NextShape(counter[1..], radices[1..], i - 1);
      forall j | 0 <= j < |radices|
        ensures Next(counter, radices)[j] == if j < i then 0 else if j == i then counter[j] + 1 else counter[j]
      {
        if j > 0 {
          assert Next(counter, radices)[j] == Next(counter[1..], radices[1..])[j - 1];
        }
      }
    }
  }

  /** The increment loop: it stops at the first digit that does not wrap. */
  method Advance(counter: array<nat>, radices: seq<nat>)
    requires |radices| <= counter.Length && Digits(counter[..|radices|], radices)
    modifies counter
    ensures counter[..|radices|] == Next(old(counter[..|radices|]), radices)
    ensures forall j :: |radices| <= j < counter.Length ==> counter[j] == old(counter[j])
  {
    var n := |radices|;
    ghost var start := counter[..n];
    var i := 0;
    while i < n
      invariant 0 <= i <= n
      invariant forall j :: 0 <= j < i ==> counter[j] == 0 && start[j] + 1 >= radices[j]
      invariant forall j :: i <= j < counter.Length ==> counter[j] == old(counter[j])
    {
      counter[i] := counter[i] + 1;
      if counter[i] >= radices[i] {
        counter[i] := 0;
      } else {
        NextShape(start, radices, i);
        return;
      }
      i := i + 1;
    }
    NextShape(start, radices, n);
  }

  // ----------------------------------------------------- one choice of terms

  const PAGE_SIZE: int := 4096

  /** An observation: the accessed address, the start of every mapped page, and what is needed to
      compute the address that a choice of terms gives without an offset. */
  datatype Base = Base(address: int, pages: seq<int>, registers: seq<int>)

  function PageConstraint(page: int, computed: int): Constraint
  {
    Constraint(AsI64(page - computed), PAGE_SIZE - 1)
  }

  /** The offsets one observation allows: the observed one, or any that lands in a mapped page. */
  function BaseConstraints(b: Base, computed: int): (items: seq<Constraint>)
    ensures ValidItems(items) && |items| == 1 + |b.pages|
    ensures items[0] == Fixed(AsI64(b.address - computed))
  {
    [Fixed(AsI64(b.address - computed))]
    + seq(|b.pages|, i requires 0 <= i < |b.pages| => PageConstraint(b.pages[i], computed))
  }

  /** The constraint lists of all observations, for one choice of terms. */
  function Calls(bases: seq<Base>, choice: seq<nat>, compute: (seq<nat>, Base) -> int): (calls: seq<seq<Constraint>>)
    ensures |calls| == |bases|
    ensures forall k :: 0 <= k < |bases| ==> calls[k] == BaseConstraints(bases[k], compute(choice, bases[k]))
    ensures ValidCalls(calls)
  {
    seq(|bases|, k requires 0 <= k < |bases| => BaseConstraints(bases[k], compute(choice, bases[k])))
  }

  /** The offsets that are tried for a choice of terms. */
  ghost predicate Candidate(bases: seq<Base>, choice: seq<nat>, compute: (seq<nat>, Base) -> int, x: int)
  {
    RealOffset(AndMany(Calls(bases, choice, compute)), x)
  }

  /** Addresses are 64-bit numbers and pages are aligned. */
  predicate ValidBase(b: Base)
  {
    && 0 <= b.address < U64_MOD
    && forall i :: 0 <= i < |b.pages| ==> ValidPage(b.pages[i])
  }

  predicate ValidPage(page: int) { 0 <= page < U64_MOD && page % PAGE_SIZE == 0 }

  predicate InPage(page: int, address: int) { page <= address < page + 4096 }

  /** With offset `x` the computed address is the observed one or lies in a mapped page. */
  ghost predicate Lands(b: Base, computed: int, x: int)
  {
    var address := AsU64(computed + x);
    address == b.address || exists i :: 0 <= i < |b.pages| && InPage(b.pages[i], address)
  }

  /** The offsets of a page, as an interval of `i64`, do not pass the largest one. */
  predicate Whole(page: int, computed: int) { AsI64(page - computed) + PAGE_SIZE - 1 <= I64_MAX }

  /** An offset in the interval of a page lands in it. */
  lemma PageSound(page: int, computed: int, x: int)
    requires ValidPage(page) && Contains(PageConstraint(page, computed), x)
    ensures InPage(page, AsU64(computed + x))
  {
    var start := AsI64(page - computed);
    var d := x - start;
    assert (computed + x - (page + d)) % U64_MOD == 0;
    assert page + d < U64_MOD;
    Congruent(computed + x, page + d);
  }

  lemma Congruent(x: int, y: int)
    requires (x - y) % U64_MOD == 0 && 0 <= y < U64_MOD
    ensures AsU64(x) == y
  {
  }

  /** A conversion takes away a multiple of the modulus. */
  lemma Unsigned(x: int) returns (q: int)
    ensures AsU64(x) == x - q * U64_MOD
  {
    q := x / U64_MOD;
  }

  lemma Signed(x: int) returns (q: int)
    ensures AsI64(x) == x - q * U64_MOD
  {
    q := Unsigned(x);
    if AsI64(x) != AsU64(x) {
      q := q + 1;
    }
  }

  lemma NearMultiple(x: int, q: int)
    requires x == q * U64_MOD && -U64_MOD < x < 2 * U64_MOD
    ensures x == 0 || x == U64_MOD
  {
  }

  /** An offset that lands in a page is in its interval exactly when the interval reaches it without
      passing the largest `i64`. */
  lemma PageExact(page: int, computed: int, x: int)
    requires ValidPage(page) && I64_MIN <= x <= I64_MAX && InPage(page, AsU64(computed + x))
    ensures Contains(PageConstraint(page, computed), x)
       <==> AsI64(page - computed) + (AsU64(computed + x) - page) <= I64_MAX
  {
    hide AsU64, AsI64;
    var start, d := AsI64(page - computed), AsU64(computed + x) - page;
    var j := Signed(page - computed);
    var k := Unsigned(computed + x);
    assert start + d == x - (j + k) * U64_MOD;
    NearMultiple(start + d - x, -(j + k));
  }

  lemma FixedLands(address: int, computed: int)
    requires 0 <= address < U64_MOD
    ensures AsU64(computed + AsI64(address - computed)) == address
  {
    Congruent(computed + AsI64(address - computed), address);
  }

  /** Every allowed offset lands. */
  lemma AllowedLands(b: Base, computed: int, x: int)
    requires ValidBase(b) && Allows(BaseConstraints(b, computed), x)
    ensures Lands(b, computed, x)
  {
    hide AsU64, AsI64;
    var items := BaseConstraints(b, computed);
    var k :| 0 <= k < |items| && Contains(items[k], x);
    if k == 0 {
      FixedLands(b.address, computed);
    } else {
      PageSound(b.pages[k - 1], computed, x);
    }
  }

  /** Every offset that lands is allowed, if no page's interval passes the largest `i64`. */
  lemma LandingAllowed(b: Base, computed: int, x: int)
    requires ValidBase(b) && I64_MIN <= x <= I64_MAX && Lands(b, computed, x)
    requires forall i :: 0 <= i < |b.pages| ==> Whole(b.pages[i], computed)
    ensures Allows(BaseConstraints(b, computed), x)
  {
    var items := BaseConstraints(b, computed);
    if AsU64(computed + x) == b.address {
      FixedIsOffset(b.address, computed, x);
      assert Contains(items[0], x);
    } else {
      var i :| 0 <= i < |b.pages| && InPage(b.pages[i], AsU64(computed + x));
      PageExact(b.pages[i], computed, x);
      assert Whole(b.pages[i], computed);
      assert Contains(items[i + 1], x);
    }
  }

  lemma FixedIsOffset(address: int, computed: int, x: int)
    requires I64_MIN <= x <= I64_MAX && AsU64(computed + x) == address
    ensures AsI64(address - computed) == x
  {
    assert (address - computed - x) % U64_MOD == 0;
  }

  /** An offset that lands in the first page, beyond the largest `i64` of its interval, and is not
      allowed. */
  lemma LandsUnallowed()
    ensures var b, computed := Base(0x2000, [0], []), 0x8000_0000_0000_0001;
            ValidBase(b) && Lands(b, computed, I64_MIN) && !Allows(BaseConstraints(b, computed), I64_MIN)
  {
    var b, computed := Base(0x2000, [0], []), 0x8000_0000_0000_0001;
    assert AsU64(computed + I64_MIN) == 1;
    assert InPage(b.pages[0], 1);
    var items := BaseConstraints(b, computed);
    assert items[1] == PageConstraint(0, computed);
    assert AsI64(0 - computed) == I64_MAX;
    assert AsI64(0x2000 - computed) == I64_MIN + 0x1fff;
  }

  /** With every candidate offset, every observation computes its address or one in a mapped page. */
  lemma CandidateSound(bases: seq<Base>, choice: seq<nat>, compute: (seq<nat>, Base) -> int, x: int)
    requires Candidate(bases, choice, compute, x) && forall k :: 0 <= k < |bases| ==> ValidBase(bases[k])
    ensures forall k :: 0 <= k < |bases| ==> Lands(bases[k], compute(choice, bases[k]), x)
  {
    var calls := Calls(bases, choice, compute);
    RealOffsetSound(calls, x);
    forall k | 0 <= k < |bases| ensures Lands(bases[k], compute(choice, bases[k]), x) {
      assert Allows(calls[k], x);
      AllowedLands(bases[k], compute(choice, bases[k]), x);
    }
  }

  /** An offset that some observation gave exactly and with which every observation lands is a
      candidate, if no page's interval passes the largest `i64`. */
  lemma CandidateComplete(bases: seq<Base>, choice: seq<nat>, compute: (seq<nat>, Base) -> int, x: int, k: nat)
    requires k < |bases| && x == AsI64(bases[k].address - compute(choice, bases[k]))
    requires forall j :: 0 <= j < |bases| ==> ValidBase(bases[j]) && Lands(bases[j], compute(choice, bases[j]), x)
    requires forall j, i :: 0 <= j < |bases| && 0 <= i < |bases[j].pages| ==>
               Whole(bases[j].pages[i], compute(choice, bases[j]))
    ensures Candidate(bases, choice, compute, x)
  {
    var calls := Calls(bases, choice, compute);
    forall j | 0 <= j < |calls| ensures Allows(calls[j], x) {
      LandingAllowed(bases[j], compute(choice, bases[j]), x);
    }
    assert calls[k][0] == Fixed(x);
    RealOffsetComplete(calls, x, k);
  }

  /** Adds the observations one by one, giving up as soon as no offset is left. */
  method FindConstraints(bases: seq<Base>, choice: seq<nat>, compute: (seq<nat>, Base) -> int)
    returns (found: Constraints)
    ensures fresh(found) && found.constraints == AndMany(Calls(bases, choice, compute))
  {
    ghost var calls := Calls(bases, choice, compute);
    found := new Constraints();
    var k := 0;
    assert calls[..0] == [];
    while k < |bases|
      invariant 0 <= k <= |bases| && fresh(found) && found.Ok()
      invariant found.constraints == AndMany(calls[..k])
    {
      assert calls[..k + 1][..k] == calls[..k];
      found.AndAlso(BaseConstraints(bases[k], compute(choice, bases[k])));
      k := k + 1;
      if found.constraints == {} {
        NothingLeft(calls, k);
        return;
      }
    }
    assert calls[..|bases|] == calls;
  }

  lemma {:induction false} NothingLeft(calls: seq<seq<Constraint>>, k: nat)
    requires k <= |calls| && AndMany(calls[..k]) == {}
    ensures AndMany(calls) == {}
    decreases |calls| - k
  {
    if k == |calls| {
      assert calls[..k] == calls;
    } else {
      assert calls[..k + 1][..k] == calls[..k];
      AndNone(calls[k]);
      NothingLeft(calls, k + 1);
    }
  }

  // ---------------------------------------------------------------- the search

  datatype Computation = Computation(choice: seq<nat>, offset: int)

  /** The computations the search returns: an accepted candidate of some choice of terms. */
  ghost predicate Wanted(bases: seq<Base>, radices: seq<nat>, compute: (seq<nat>, Base) -> int,
                         accept: Computation -> bool, c: Computation)
  {
    Digits(c.choice, radices) && Candidate(bases, c.choice, compute, c.offset) && accept(c)
  }

  predicate Distinct(cs: seq<Computation>) { forall i, j :: 0 <= i < j < |cs| ==> cs[i] != cs[j] }

  /** Tries every real offset of one choice. */
  method TryOffsets(found: Constraints, choice: seq<nat>, accept: Computation -> bool, results: seq<Computation>)
    returns (r: seq<Computation>)
    requires Distinct(results) && forall c :: c in results ==> c.choice != choice
    ensures Distinct(r)
    ensures forall c :: c in r <==>
              c in results || (c.choice == choice && RealOffset(found.constraints, c.offset) && accept(c))
  {
    r := results;
    var seen: set<int> := {};
    var todo := found.constraints;
    while todo != {}
      invariant todo <= found.constraints && Distinct(r)
      invariant forall x :: x in seen <==> Fixed(x) in found.constraints - todo
      invariant forall c :: c in r <==> c in results || (c.choice == choice && c.offset in seen && accept(c))
      decreases |todo|
    {
      var k :| k in todo;
      todo := todo - {k};
      if k.length == 0 {
        var c := Computation(choice, k.start);
        assert k == Fixed(c.offset);
        assert c.offset !in seen;
        seen := seen + {c.offset};
        if accept(c) {
          assert c !in r;
          r := r + [c];
        }
      }
    }
  }

  /** The results are the wanted computations whose choice comes before position `bound`. */
  ghost predicate Collected(bases: seq<Base>, radices: seq<nat>, compute: (seq<nat>, Base) -> int,
                            accept: Computation -> bool, results: seq<Computation>, bound: nat)
  {
    && Distinct(results)
    && forall c :: c in results <==> Wanted(bases, radices, compute, accept, c) && Rank(c.choice, radices) < bound
  }

  /** The choices visited so far, in counting order from the first one. */
  ghost predicate InOrder(visited: seq<seq<nat>>, radices: seq<nat>)
  {
    forall k :: 0 <= k < |visited| ==> Digits(visited[k], radices) && Rank(visited[k], radices) == k
  }

  /** One round of the search. */
  method Visit(bases: seq<Base>, radices: seq<nat>, compute: (seq<nat>, Base) -> int, accept: Computation -> bool,
               choice: seq<nat>, results: seq<Computation>) returns (r: seq<Computation>)
    requires Digits(choice, radices)
    requires Collected(bases, radices, compute, accept, results, Rank(choice, radices))
    ensures Collected(bases, radices, compute, accept, r, Rank(choice, radices) + 1)
  {
    var found := FindConstraints(bases, choice, compute);
    r := TryOffsets(found, choice, accept, results);
    ExtendResults(bases, radices, compute, accept, choice, results, r);
  }

  /** The whole search.  Every choice of terms is visited exactly once, in counting order, and the
      loop ends; the result lists every wanted computation once and nothing else. */
  method Search(bases: seq<Base>, radices: seq<nat>, compute: (seq<nat>, Base) -> int, accept: Computation -> bool)
    returns (results: seq<Computation>, ghost visited: seq<seq<nat>>)
    requires |radices| <= 4 && forall i :: 0 <= i < |radices| ==> radices[i] > 0
    ensures |visited| == Product(radices) && InOrder(visited, radices)
    ensures Distinct(results)
    ensures forall c :: c in results <==> Wanted(bases, radices, compute, accept, c)
  {
    var n := |radices|;
    results, visited := [], [];
    var counter := new nat[4](_ => 0);
    assert counter[..n] == Zeros(n);
    RankZeros(radices);
    RankBound(counter[..n], radices);
    var running := true;
    while running
      invariant Digits(counter[..n], radices) && forall j :: n <= j < 4 ==> counter[j] == 0
      invariant Rank(counter[..n], radices) == if running then |visited| else 0
      invariant running <==> |visited| < Product(radices)
      invariant |visited| <= Product(radices) && InOrder(visited, radices)
      invariant Collected(bases, radices, compute, accept, results, |visited|)
      decreases Product(radices) - |visited|
    {
      var choice := counter[..n];
      results := Visit(bases, radices, compute, accept, choice, results);
      visited := visited + [choice];
      NextRank(choice, radices);
      Advance(counter, radices);
      ZeroIffFirst(counter[..n], radices);
      var zero := AllZero(counter);
      running := !zero;
    }
    AllCollected(bases, radices, compute, accept, results);
  }

  method AllZero(counter: array<nat>) returns (zero: bool)
    ensures zero <==> forall j :: 0 <= j < counter.Length ==> counter[j] == 0
  {
    for i := 0 to counter.Length
      invariant forall j :: 0 <= j < i ==> counter[j] == 0
    {
      if counter[i] != 0 {
        return false;
      }
    }
    return true;
  }

  lemma AllCollected(bases: seq<Base>, radices: seq<nat>, compute: (seq<nat>, Base) -> int,
                     accept: Computation -> bool, results: seq<Computation>)
    requires Collected(bases, radices, compute, accept, results, Product(radices))
    ensures forall c :: c in results <==> Wanted(bases, radices, compute, accept, c)
  {
    forall c | Wanted(bases, radices, compute, accept, c) ensures Rank(c.choice, radices) < Product(radices) {
      RankBound(c.choice, radices);
    }
  }

  /** Only the first combination consists of zeros. */
  lemma ZeroIffFirst(counter: seq<nat>, radices: seq<nat>)
    requires Digits(counter, radices)
    ensures (forall i :: 0 <= i < |counter| ==> counter[i] == 0) <==> Rank(counter, radices) == 0
  {
    RankZeros(radices);
    if forall i :: 0 <= i < |counter| ==> counter[i] == 0 {
      assert counter == Zeros(|radices|);
    }
    if Rank(counter, radices) == 0 {
      RankInjective(counter, Zeros(|radices|), radices);
    }
  }

  lemma ExtendResults(bases: seq<Base>, radices: seq<nat>, compute: (seq<nat>, Base) -> int,
                      accept: Computation -> bool, choice: seq<nat>,
                      before: seq<Computation>, after: seq<Computation>)
    requires Digits(choice, radices)
    requires forall c :: c in before <==>
               Wanted(bases, radices, compute, accept, c) && Rank(c.choice, radices) < Rank(choice, radices)
    requires forall c :: c in after <==>
               c in before || (c.choice == choice && Candidate(bases, choice, compute, c.offset) && accept(c))
    ensures forall c :: c in after <==>
              Wanted(bases, radices, compute, accept, c) && Rank(c.choice, radices) < Rank(choice, radices) + 1
  {
    forall c | Wanted(bases, radices, compute, accept, c) && Rank(c.choice, radices) == Rank(choice, radices)
      ensures c.choice == choice
    {
      RankInjective(c.choice, choice, radices);
    }
  }
}
