/** Guessing the position that an instruction bit has inside a memory offset, from the
    positions of other bits whose differences repeat with some period.
 */
module BitOrder {
  import opened Options
  import opened Arithmetic
  import opened MachineInts

  /** An instruction bit and, unless it has to be guessed, its position in the offset. */
  type KnownBits = seq<(nat, Option<int>)>

  predicate ValidBits(bits: KnownBits)
  {
    forall i :: 0 <= i < |bits| && bits[i].1.Some? ==> 0 <= bits[i].1.value < U64_MOD
  }

  function NumDeltas(bits: KnownBits): nat { if |bits| == 0 then 0 else |bits| - 1 }

  /** The difference of two neighbouring positions, when both are known. */
  function Delta(bits: KnownBits, i: nat): Option<int>
    requires i < NumDeltas(bits)
  {
    if bits[i].1.Some? && bits[i + 1].1.Some? then Some(AsI64(AsI64(bits[i + 1].1.value) - AsI64(bits[i].1.value)))
    else None
  }

  /** No two known differences a period apart contradict each other. */
  predicate Repeats(bits: KnownBits, period: nat)
  {
    forall i :: period <= i < NumDeltas(bits) && Delta(bits, i).Some? && Delta(bits, i - period).Some? ==>
      Delta(bits, i - period) == Delta(bits, i)
  }

  /** The first known difference at `i`, `i + period`, ... */
  function FirstDelta(bits: KnownBits, period: nat, i: nat): Option<int>
    requires period > 0
    decreases (NumDeltas(bits) as int) - (i as int)
  {
    if i >= NumDeltas(bits) then None
    else if Delta(bits, i).Some? then Delta(bits, i)
    else FirstDelta(bits, period, i + period)
  }

  /** Element `i` of the endlessly repeated list of differences. */
  function Stream(bits: KnownBits, period: nat, i: nat): Option<int>
    requires period > 0
  {
    FirstDelta(bits, period, i % period)
  }

  /** Adds the differences from position `from` up to position `to`. */
  function Forward(bits: KnownBits, period: nat, from: nat, to: nat, value: int): (r: Option<int>)
    requires period > 0 && from <= to
    ensures r.Some? && 0 <= value < U64_MOD ==> 0 <= r.value < U64_MOD
    decreases (to as int) - (from as int)
  {
    if from == to then Some(value)
    else
      var d := Stream(bits, period, from);
      if d.None? then None else Forward(bits, period, from + 1, to, AsU64(value + AsU64(d.value)))
  }

  /** Subtracts the differences from position `from` down to position `to`. */
  function Backward(bits: KnownBits, period: nat, from: nat, to: nat, value: int): (r: Option<int>)
    requires period > 0 && to <= from
    ensures r.Some? && 0 <= value < U64_MOD ==> 0 <= r.value < U64_MOD
    decreases (from as int) - (to as int)
  {
    if from == to then Some(value)
    else
      var d := Stream(bits, period, from - 1);
      if d.None? then None else Backward(bits, period, from - 1, to, AsU64(value - AsU64(d.value)))
  }

  /** The guess for position `index` that starts at the known position `from`. */
  function GuessFrom(bits: KnownBits, period: nat, from: nat, index: nat): (r: Option<int>)
    requires period > 0 && from < |bits| && index < |bits|
    ensures r.Some? && ValidBits(bits) ==> 0 <= r.value < U64_MOD
  {
    if from == index || bits[from].1.None? then None
    else if from < index then Forward(bits, period, from, index, bits[from].1.value)
    else Backward(bits, period, from, index, bits[from].1.value)
  }

  predicate NoGuess(bits: KnownBits, period: nat, index: nat)
    requires period > 0 && index < |bits|
  {
    forall from :: 0 <= from < |bits| ==> GuessFrom(bits, period, from, index).None?
  }

  /** The guess from the nearest position below `from` that leads to one. */
  function GuessBelow(bits: KnownBits, period: nat, from: nat, index: nat): (r: Option<int>)
    requires period > 0 && from <= |bits| && index < |bits|
    ensures r.Some? && ValidBits(bits) ==> 0 <= r.value < U64_MOD
  {
    if from == 0 then None
    else
      var guess := GuessFrom(bits, period, from - 1, index);
      if guess.Some? then guess else GuessBelow(bits, period, from - 1, index)
  }

  /** The guess from the nearest position at or above `from` that leads to one. */
  function GuessAbove(bits: KnownBits, period: nat, from: nat, index: nat): (r: Option<int>)
    requires period > 0 && from <= |bits| && index < |bits|
    ensures r.Some? && ValidBits(bits) ==> 0 <= r.value < U64_MOD
    decreases |bits| - from
  {
    if from == |bits| then None
    else
      var guess := GuessFrom(bits, period, from, index);
      if guess.Some? then guess else GuessAbove(bits, period, from + 1, index)
  }

  function GuessAt(bits: KnownBits, period: nat, index: nat): (r: Option<int>)
    requires period > 0 && index < |bits|
    ensures r.Some? && ValidBits(bits) ==> 0 <= r.value < U64_MOD
  {
    var below := GuessBelow(bits, period, index, index);
    if below.Some? then below else GuessAbove(bits, period, index + 1, index)
  }

  /** The guess with the first fitting period, from `period` on, that leads to one. */
  function GuessSince(bits: KnownBits, period: nat, index: nat): (r: Option<int>)
    requires period > 0 && index < |bits|
    ensures r.Some? && ValidBits(bits) ==> 0 <= r.value < U64_MOD
    decreases (NumDeltas(bits) as int) - (period as int)
  {
    if period >= NumDeltas(bits) then None
    else if Repeats(bits, period) && GuessAt(bits, period, index).Some? then GuessAt(bits, period, index)
    else GuessSince(bits, period + 1, index)
  }

  function Guess(bits: KnownBits, index: nat): (r: Option<int>)
    requires index < |bits|
    ensures r.Some? && ValidBits(bits) ==> 0 <= r.value < U64_MOD
  {
    GuessSince(bits, 2, index)
  }

  // -------------------------------------------------------- hidden positions

  function HiddenDelta(h: seq<int>, i: nat): int
    requires i + 1 < |h|
  {
    AsI64(AsI64(h[i + 1]) - AsI64(h[i]))
  }

  /** `h` gives every bit a position, agrees with the known ones, and its differences repeat. */
  ghost predicate Explains(h: seq<int>, bits: KnownBits, period: nat)
  {
    && |h| == |bits|
    && (forall i :: 0 <= i < |h| ==> 0 <= h[i] < U64_MOD)
    && (forall i :: 0 <= i < |h| && bits[i].1.Some? ==> bits[i].1.value == h[i])
    && (forall i, j :: 0 <= i < |h| - 1 && j == i + period && j < |h| - 1 ==> HiddenDelta(h, j) == HiddenDelta(h, i))
  }

  lemma {:induction false} PeriodicDelta(h: seq<int>, bits: KnownBits, period: nat, i: nat, j: nat)
    requires Explains(h, bits, period) && period > 0
    requires i <= j && j + 1 < |h| && i % period == j % period
    ensures HiddenDelta(h, i) == HiddenDelta(h, j)
    decreases j
  {
    if i < j {
      StepBack(i, j, period);
      PeriodicDelta(h, bits, period, i, j - period);
      assert HiddenDelta(h, j) == HiddenDelta(h, j - period);
    }
  }

  lemma StepBack(i: nat, j: nat, period: nat)
    requires period > 0 && i < j && i % period == j % period
    ensures i + period <= j && (j - period) % period == j % period
  {
    var a, b, r := i / period, j / period, i % period;
    assert i == a * period + r && j == b * period + r;
    if b <= a {
      MulMono(b, a, period);
      assert false;
    }
    MulNext(a, period);
    MulMono(a + 1, b, period);
    MulNext(b - 1, period);
    QuotientUnique(j - period, period, b - 1, r);
  }

  /** A known difference is the hidden difference at every position of its residue class. */
  lemma {:induction false} FirstDeltaHidden(h: seq<int>, bits: KnownBits, period: nat, i: nat, j: nat)
    requires Explains(h, bits, period) && period > 0
    requires FirstDelta(bits, period, i).Some? && j + 1 < |h| && i % period == j % period
    ensures FirstDelta(bits, period, i).value == HiddenDelta(h, j)
    decreases (NumDeltas(bits) as int) - (i as int)
  {
    if Delta(bits, i).Some? {
      assert Delta(bits, i).value == HiddenDelta(h, i);
      if i <= j {
        PeriodicDelta(h, bits, period, i, j);
      } else {
        PeriodicDelta(h, bits, period, j, i);
      }
    } else {
      RemainderNext(i, period);
      FirstDeltaHidden(h, bits, period, i + period, j);
    }
  }

  lemma StreamHidden(h: seq<int>, bits: KnownBits, period: nat, j: nat)
    requires Explains(h, bits, period) && period > 0
    requires Stream(bits, period, j).Some? && j + 1 < |h|
    ensures Stream(bits, period, j).value == HiddenDelta(h, j)
  {
    QuotientUnique(j % period, period, 0, j % period);
    FirstDeltaHidden(h, bits, period, j % period, j);
  }

  /** Adding or subtracting a wrapped difference moves between neighbouring hidden positions. */
  lemma NeighbourStep(h: seq<int>, i: nat)
    requires i + 1 < |h| && 0 <= h[i] < U64_MOD && 0 <= h[i + 1] < U64_MOD
    ensures AsU64(h[i] + AsU64(HiddenDelta(h, i))) == h[i + 1]
    ensures AsU64(h[i + 1] - AsU64(HiddenDelta(h, i))) == h[i]
  {
    var d := HiddenDelta(h, i);
    DifferenceWraps(h[i], h[i + 1]);
  }

  lemma DifferenceWraps(a: int, b: int)
    requires 0 <= a < U64_MOD && 0 <= b < U64_MOD
    ensures AsU64(AsI64(AsI64(b) - AsI64(a))) == if b >= a then b - a else b - a + U64_MOD
  {
    var x := AsI64(b) - AsI64(a);
    assert x == b - a || x == b - a + U64_MOD || x == b - a - U64_MOD;
    assert AsU64(x) == if b >= a then b - a else b - a + U64_MOD;
  }

  lemma {:induction false} ForwardHidden(h: seq<int>, bits: KnownBits, period: nat, from: nat, to: nat)
    requires Explains(h, bits, period) && period > 0 && from <= to < |h|
    requires Forward(bits, period, from, to, h[from]).Some?
    ensures Forward(bits, period, from, to, h[from]).value == h[to]
    decreases (to as int) - (from as int)
  {
    hide AsU64, AsI64, HiddenDelta, Stream;
    if from < to {
      StreamHidden(h, bits, period, from);
      NeighbourStep(h, from);
      ForwardHidden(h, bits, period, from + 1, to);
    }
  }

  lemma {:induction false} BackwardHidden(h: seq<int>, bits: KnownBits, period: nat, from: nat, to: nat)
    requires Explains(h, bits, period) && period > 0 && to <= from < |h|
    requires Backward(bits, period, from, to, h[from]).Some?
    ensures Backward(bits, period, from, to, h[from]).value == h[to]
    decreases (from as int) - (to as int)
  {
    hide AsU64, AsI64, HiddenDelta, Stream;
    if to < from {
      StreamHidden(h, bits, period, from - 1);
      NeighbourStep(h, from - 1);
      BackwardHidden(h, bits, period, from - 1, to);
    }
  }

  lemma GuessHidden(bits: KnownBits, period: nat, from: nat, index: nat)
    requires period > 0 && from < |bits| && index < |bits| && GuessFrom(bits, period, from, index).Some?
    ensures forall h :: Explains(h, bits, period) ==> h[index] == GuessFrom(bits, period, from, index).value
  {
    forall h | Explains(h, bits, period) ensures h[index] == GuessFrom(bits, period, from, index).value {
      if from < index {
        ForwardHidden(h, bits, period, from, index);
      } else {
        BackwardHidden(h, bits, period, from, index);
      }
    }
  }

  // ------------------------------------------------ periods, by positions alone

  predicate KnownPair(bits: KnownBits, i: nat) { i + 1 < |bits| && bits[i].1.Some? && bits[i + 1].1.Some? }

  /** Four known positions, in two neighbouring pairs a period apart, whose differences are not the
      same modulo 2^64. */
  predicate FourDiffer(bits: KnownBits, period: nat, i: nat)
  {
    && KnownPair(bits, i) && KnownPair(bits, i + period)
    && AsU64(bits[i + 1].1.value - bits[i].1.value) !=
       AsU64(bits[i + period + 1].1.value - bits[i + period].1.value)
  }

  ghost predicate Contradicted(bits: KnownBits, period: nat) { exists i: nat :: FourDiffer(bits, period, i) }

  lemma DeltaIsGap(bits: KnownBits, i: nat)
    requires ValidBits(bits) && KnownPair(bits, i)
    ensures Delta(bits, i).Some?
    ensures AsU64(Delta(bits, i).value) == AsU64(bits[i + 1].1.value - bits[i].1.value)
    ensures I64_MIN <= Delta(bits, i).value <= I64_MAX
  {
    DifferenceWraps(bits[i].1.value, bits[i + 1].1.value);
  }

  lemma UnsignedInjective(x: int, y: int)
    requires I64_MIN <= x <= I64_MAX && I64_MIN <= y <= I64_MAX && AsU64(x) == AsU64(y)
    ensures x == y
  {
  }

  /** A period fits exactly when no four positions contradict it. */
  lemma RepeatsExactly(bits: KnownBits, period: nat)
    requires ValidBits(bits)
    ensures Repeats(bits, period) <==> !Contradicted(bits, period)
  {
    hide AsU64, AsI64;
    if Repeats(bits, period) {
      forall i: nat ensures !FourDiffer(bits, period, i) {
        if KnownPair(bits, i) && KnownPair(bits, i + period) {
          DeltaIsGap(bits, i);
          DeltaIsGap(bits, i + period);
          assert Delta(bits, i + period - period) == Delta(bits, i + period);
        }
      }
    }
    if !Contradicted(bits, period) {
      forall i | period <= i < NumDeltas(bits) && Delta(bits, i).Some? && Delta(bits, i - period).Some?
        ensures Delta(bits, i - period) == Delta(bits, i)
      {
        DeltaIsGap(bits, i);
        DeltaIsGap(bits, i - period);
        assert !FourDiffer(bits, period, i - period);
        UnsignedInjective(Delta(bits, i).value, Delta(bits, i - period).value);
      }
    }
  }

  /** Some pair of neighbouring known positions lies whole periods away from position `k`. */
  ghost predicate Bridged(bits: KnownBits, period: nat, k: nat)
    requires period > 0
  {
    exists j: nat :: KnownPair(bits, j) && j % period == k % period
  }

  lemma {:induction false} FirstDeltaFound(bits: KnownBits, period: nat, i: nat, j: nat)
    requires period > 0 && KnownPair(bits, j) && i <= j && i % period == j % period
    ensures FirstDelta(bits, period, i).Some?
    decreases (NumDeltas(bits) as int) - (i as int)
  {
    if Delta(bits, i).None? {
      StepBack(i, j, period);
      RemainderNext(i, period);
      FirstDeltaFound(bits, period, i + period, j);
    }
  }

  lemma {:induction false} FirstDeltaAt(bits: KnownBits, period: nat, i: nat) returns (j: nat)
    requires period > 0 && FirstDelta(bits, period, i).Some?
    ensures KnownPair(bits, j) && j % period == i % period
    decreases (NumDeltas(bits) as int) - (i as int)
  {
    if Delta(bits, i).Some? {
      j := i;
    } else {
      RemainderNext(i, period);
      j := FirstDeltaAt(bits, period, i + period);
    }
  }

  lemma BridgedExactly(bits: KnownBits, period: nat, k: nat)
    requires period > 0
    ensures Stream(bits, period, k).Some? <==> Bridged(bits, period, k)
  {
    RemainderSmall(k, period);
    if Stream(bits, period, k).Some? {
      var j := FirstDeltaAt(bits, period, k % period);
    }
    if Bridged(bits, period, k) {
      var j: nat :| KnownPair(bits, j) && j % period == k % period;
      RemainderSmall(j, period);
      FirstDeltaFound(bits, period, k % period, j);
    }
  }

  /** Position `from` is known, and so is every difference between it and the wanted one, somewhere
      whole periods away. */
  ghost predicate Linked(bits: KnownBits, period: nat, from: nat, index: nat)
    requires period > 0
  {
    && from < |bits| && from != index && bits[from].1.Some?
    && (forall k :: from <= k < index ==> Bridged(bits, period, k))
    && (forall k :: index <= k < from ==> Bridged(bits, period, k))
  }

  lemma {:induction false} ForwardExactly(bits: KnownBits, period: nat, from: nat, to: nat, value: int)
    requires period > 0 && from <= to
    ensures Forward(bits, period, from, to, value).Some? <==> forall k :: from <= k < to ==> Bridged(bits, period, k)
    decreases (to as int) - (from as int)
  {
    hide Stream, Bridged, AsU64;
    if from < to {
      BridgedExactly(bits, period, from);
      var d := Stream(bits, period, from);
      if d.Some? {
        ForwardExactly(bits, period, from + 1, to, AsU64(value + AsU64(d.value)));
      }
    }
  }

  lemma {:induction false} BackwardExactly(bits: KnownBits, period: nat, from: nat, to: nat, value: int)
    requires period > 0 && to <= from
    ensures Backward(bits, period, from, to, value).Some? <==> forall k :: to <= k < from ==> Bridged(bits, period, k)
    decreases (from as int) - (to as int)
  {
    hide Stream, Bridged, AsU64;
    if to < from {
      BridgedExactly(bits, period, from - 1);
      var d := Stream(bits, period, from - 1);
      if d.Some? {
        BackwardExactly(bits, period, from - 1, to, AsU64(value - AsU64(d.value)));
      }
    }
  }

  /** A position leads to a guess exactly when it is linked with the wanted one. */
  lemma GuessFromExactly(bits: KnownBits, period: nat, from: nat, index: nat)
    requires period > 0 && from < |bits| && index < |bits|
    ensures GuessFrom(bits, period, from, index).Some? <==> Linked(bits, period, from, index)
  {
    hide Forward, Backward, Bridged;
    if from != index && bits[from].1.Some? {
      if from < index {
        ForwardExactly(bits, period, from, index, bits[from].1.value);
      } else {
        BackwardExactly(bits, period, from, index, bits[from].1.value);
      }
    }
  }

  /** A guess can be made with the period: nothing contradicts it, and some position is linked. */
  ghost predicate CanGuess(bits: KnownBits, period: nat, index: nat)
    requires period > 0
  {
    !Contradicted(bits, period) && exists from: nat :: Linked(bits, period, from, index)
  }

  lemma CanGuessExactly(bits: KnownBits, period: nat, index: nat)
    requires period > 0 && ValidBits(bits) && index < |bits|
    ensures CanGuess(bits, period, index) <==> Repeats(bits, period) && !NoGuess(bits, period, index)
  {
    hide Repeats, Contradicted, Linked, GuessFrom;
    RepeatsExactly(bits, period);
    forall from | 0 <= from < |bits|
      ensures GuessFrom(bits, period, from, index).Some? <==> Linked(bits, period, from, index)
    {
      GuessFromExactly(bits, period, from, index);
    }
    forall from: nat | Linked(bits, period, from, index) ensures from < |bits| {
      LinkedBelow(bits, period, from, index);
    }
  }

  lemma LinkedBelow(bits: KnownBits, period: nat, from: nat, index: nat)
    requires period > 0 && Linked(bits, period, from, index)
    ensures from < |bits|
  {
  }

  // ---------------------------------------------------------------- the search

  /** The known position that a guess starts from: the nearest below the wanted one that leads to a
      guess, or else the nearest above it. */
  ghost predicate FirstStart(bits: KnownBits, period: nat, from: nat, index: nat)
    requires period > 0 && index < |bits|
  {
    && from < |bits| && GuessFrom(bits, period, from, index).Some?
    && (from < index ==> forall k :: from < k < index ==> GuessFrom(bits, period, k, index).None?)
    && (index < from ==> forall k :: 0 <= k < from ==> GuessFrom(bits, period, k, index).None?)
  }

  ghost predicate StartsAt(bits: KnownBits, period: nat, from: nat, index: nat, guess: int)
    requires period > 0 && index < |bits|
  {
    FirstStart(bits, period, from, index) && GuessFrom(bits, period, from, index) == Some(guess)
  }

  /** Tries the known positions below the wanted one, nearest first, then those above it. */
  method GuessWith(bits: KnownBits, period: nat, index: nat) returns (guess: Option<int>)
    requires period > 0 && index < |bits|
    ensures guess == GuessAt(bits, period, index)
    ensures guess.None? <==> NoGuess(bits, period, index)
    ensures guess.Some? ==> exists from :: StartsAt(bits, period, from, index, guess.value)
    ensures guess.Some? ==> forall h :: Explains(h, bits, period) ==> h[index] == guess.value
  {
    var from := index;
    while from > 0
      invariant 0 <= from <= index
      invariant GuessBelow(bits, period, from, index) == GuessBelow(bits, period, index, index)
      invariant forall k :: from <= k < index ==> GuessFrom(bits, period, k, index).None?
    {
      from := from - 1;
      guess := GuessFrom(bits, period, from, index);
      if guess.Some? {
        GuessHidden(bits, period, from, index);
        assert StartsAt(bits, period, from, index, guess.value);
        return;
      }
    }
    from := index + 1;
    while from < |bits|
      invariant index < from <= |bits|
      invariant GuessAbove(bits, period, from, index) == GuessAt(bits, period, index)
      invariant forall k :: 0 <= k < from ==> GuessFrom(bits, period, k, index).None?
    {
      guess := GuessFrom(bits, period, from, index);
      if guess.Some? {
        GuessHidden(bits, period, from, index);
        assert StartsAt(bits, period, from, index, guess.value);
        return;
      }
      from := from + 1;
    }
    guess := None;
  }

  /** The smallest period with which a guess can be made. */
  ghost predicate FirstPeriod(bits: KnownBits, period: nat, index: nat)
  {
    && 2 <= period < NumDeltas(bits) && CanGuess(bits, period, index)
    && forall p :: 2 <= p < period ==> !CanGuess(bits, p, index)
  }

  /** The guess made with a period, which is the true position under it. */
  ghost predicate IsGuess(bits: KnownBits, period: nat, index: nat, guess: int)
    requires period > 0 && index < |bits|
  {
    && (exists from :: StartsAt(bits, period, from, index, guess))
    && forall h :: Explains(h, bits, period) ==> h[index] == guess
  }

  /** Uses the first period that contradicts no known difference and yields a guess.  If the true
      positions repeat with that period, the guess is the true position of the bit. */
  method GuessBitOrder(bits: KnownBits, index: nat) returns (guess: Option<int>)
    requires ValidBits(bits) && index < |bits|
    ensures guess == Guess(bits, index)
    ensures guess.None? <==> forall p :: 2 <= p < NumDeltas(bits) ==> !CanGuess(bits, p, index)
    ensures guess.Some? ==>
              exists period :: FirstPeriod(bits, period, index) && IsGuess(bits, period, index, guess.value)
  {
    hide Repeats, CanGuess, NoGuess, GuessAt, Explains, StartsAt;
    var p := 2;
    while p < NumDeltas(bits)
      invariant 2 <= p && (p <= NumDeltas(bits) || p == 2) && GuessSince(bits, p, index) == Guess(bits, index)
      invariant forall q :: 2 <= q < p ==> !CanGuess(bits, q, index)
    {
      CanGuessExactly(bits, p, index);
      if Repeats(bits, p) {
        guess := GuessWith(bits, p, index);
        if guess.Some? {
          assert FirstPeriod(bits, p, index) && IsGuess(bits, p, index, guess.value);
          return;
        }
      }
      p := p + 1;
    }
    guess := None;
  }

  lemma {:induction false} SkipsPeriods(bits: KnownBits, p: nat, period: nat, index: nat)
    requires 2 <= p <= period < NumDeltas(bits) && index < |bits|
    requires forall q :: p <= q < period ==> !Repeats(bits, q)
    requires Repeats(bits, period) && GuessAt(bits, period, index).Some?
    ensures GuessSince(bits, p, index) == GuessAt(bits, period, index)
    decreases period - p
  {
    if p < period {
      SkipsPeriods(bits, p + 1, period, index);
    }
  }

  lemma {:induction false} BelowFound(bits: KnownBits, period: nat, from: nat, start: nat, index: nat)
    requires period > 0 && start < from <= |bits| && index < |bits|
    requires GuessFrom(bits, period, start, index).Some?
    ensures GuessBelow(bits, period, from, index).Some?
    decreases from
  {
    if start < from - 1 {
      BelowFound(bits, period, from - 1, start, index);
    }
  }

  lemma {:induction false} AboveFound(bits: KnownBits, period: nat, from: nat, start: nat, index: nat)
    requires period > 0 && from <= start < |bits| && index < |bits|
    requires GuessFrom(bits, period, start, index).Some?
    ensures GuessAbove(bits, period, from, index).Some?
    decreases |bits| - from
  {
    if from < start {
      AboveFound(bits, period, from + 1, start, index);
    }
  }

  lemma {:induction false} BelowHidden(bits: KnownBits, period: nat, from: nat, index: nat, h: seq<int>)
    requires period > 0 && from <= |bits| && index < |bits| && Explains(h, bits, period)
    ensures var r := GuessBelow(bits, period, from, index); r.Some? ==> r.value == h[index]
    decreases from
  {
    if from > 0 {
      if GuessFrom(bits, period, from - 1, index).Some? {
        GuessHidden(bits, period, from - 1, index);
      }
      BelowHidden(bits, period, from - 1, index, h);
    }
  }

  lemma {:induction false} AboveHidden(bits: KnownBits, period: nat, from: nat, index: nat, h: seq<int>)
    requires period > 0 && from <= |bits| && index < |bits| && Explains(h, bits, period)
    ensures var r := GuessAbove(bits, period, from, index); r.Some? ==> r.value == h[index]
    decreases |bits| - from
  {
    if from < |bits| {
      if GuessFrom(bits, period, from, index).Some? {
        GuessHidden(bits, period, from, index);
      }
      AboveHidden(bits, period, from + 1, index, h);
    }
  }

  /** Positions that repeat contradict no four of the known ones. */
  lemma ExplainedUncontradicted(h: seq<int>, bits: KnownBits, period: nat)
    requires period > 0 && Explains(h, bits, period)
    ensures !Contradicted(bits, period)
  {
    hide AsI64;
    forall i: nat ensures !FourDiffer(bits, period, i) {
      if KnownPair(bits, i) && KnownPair(bits, i + period) {
        assert HiddenDelta(h, i + period) == HiddenDelta(h, i);
        DifferenceWraps(h[i], h[i + 1]);
        DifferenceWraps(h[i + period], h[i + period + 1]);
      }
    }
  }

  /** The guess is right: if the true positions repeat with some period, all smaller ones from two on
      are contradicted by known positions, and some known position is linked with the wanted one, then
      the guess is the true position. */
  lemma GuessRight(bits: KnownBits, period: nat, from: nat, index: nat, h: seq<int>)
    requires ValidBits(bits) && index < |bits| && 2 <= period < NumDeltas(bits)
    requires Explains(h, bits, period) && forall q :: 2 <= q < period ==> Contradicted(bits, q)
    requires Linked(bits, period, from, index)
    ensures Guess(bits, index) == Some(h[index])
  {
    hide Explains, Linked, Contradicted, GuessFrom, Repeats;
    LinkedBelow(bits, period, from, index);
    ExplainedUncontradicted(h, bits, period);
    RepeatsExactly(bits, period);
    GuessFromExactly(bits, period, from, index);
    LinkedApart(bits, period, from, index);
    if from < index {
      BelowFound(bits, period, index, from, index);
    } else {
      AboveFound(bits, period, index + 1, from, index);
    }
    BelowHidden(bits, period, index, index, h);
    AboveHidden(bits, period, index + 1, index, h);
    forall q | 2 <= q < period ensures !Repeats(bits, q) {
      RepeatsExactly(bits, q);
    }
    SkipsPeriods(bits, 2, period, index);
    ExplainedLength(h, bits, period);
  }

  lemma LinkedApart(bits: KnownBits, period: nat, from: nat, index: nat)
    requires period > 0 && Linked(bits, period, from, index)
    ensures from != index
  {
  }

  lemma ExplainedLength(h: seq<int>, bits: KnownBits, period: nat)
    requires Explains(h, bits, period)
    ensures |h| == |bits|
  {
  }

  // ------------------------------------------------ when positions can be explained

  /** How far the differences `d`, repeated without end, lead from the first position to position `n`. */
  function Ahead(d: seq<int>, n: nat): int
    requires |d| > 0
  {
    if n == 0 then 0 else Ahead(d, n - 1) + d[(n - 1) % |d|]
  }

  /** The differences lead from position `i` to position `j`, if both are known. */
  predicate Connects(d: seq<int>, bits: KnownBits, i: nat, j: nat)
    requires |d| > 0 && i < |bits| && j < |bits|
  {
    bits[i].1.Some? && bits[j].1.Some? ==> AsU64(bits[i].1.value + Ahead(d, j) - Ahead(d, i)) == bits[j].1.value
  }

  ghost predicate ConnectsAll(d: seq<int>, bits: KnownBits)
    requires |d| > 0
  {
    forall i, j :: 0 <= i <= j < |bits| ==> Connects(d, bits, i, j)
  }

  /** A multiple of the modulus is lost. */
  lemma Wraps(x: int, k: int)
    ensures AsU64(x + k * U64_MOD) == AsU64(x) && AsI64(x + k * U64_MOD) == AsI64(x)
  {
    QuotientUnique(x + k * U64_MOD, U64_MOD, x / U64_MOD + k, x % U64_MOD);
  }

  lemma AddWraps(x: int, y: int)
    ensures AsU64(AsU64(x) + y) == AsU64(x + y) && AsU64(x + AsU64(y)) == AsU64(x + y)
  {
    Wraps(x + y, -(x / U64_MOD));
    Wraps(x + y, -(y / U64_MOD));
  }

  /** The difference of two wrapped positions. */
  lemma DeltaWraps(x: int, d: int)
    ensures AsI64(AsI64(AsU64(x + d)) - AsI64(AsU64(x))) == AsI64(d)
  {
    var q := SignedQuotient(AsU64(x + d));
    var r := SignedQuotient(AsU64(x));
    var a, b := (x + d) / U64_MOD, x / U64_MOD;
    assert AsI64(AsU64(x + d)) - AsI64(AsU64(x)) == d + (b + r - a - q) * U64_MOD;
    Wraps(d, b + r - a - q);
  }

  lemma SignedQuotient(x: int) returns (q: int)
    ensures AsI64(x) == x - q * U64_MOD
  {
    q := if AsI64(x) == AsU64(x) then x / U64_MOD else x / U64_MOD + 1;
  }

  /** Positions that follow the differences from a start. */
  function Positions(start: int, d: seq<int>, n: nat): (h: seq<int>)
    requires |d| > 0
    ensures |h| == n && forall i :: 0 <= i < n ==> h[i] == AsU64(start + Ahead(d, i))
  {
    seq(n, i requires 0 <= i < n => AsU64(start + Ahead(d, i)))
  }

  lemma AheadNext(d: seq<int>, n: nat)
    requires |d| > 0
    ensures Ahead(d, n + 1) == Ahead(d, n) + d[n % |d|]
  {
  }

  lemma PositionsDelta(start: int, d: seq<int>, n: nat, i: nat)
    requires |d| > 0 && i + 1 < n
    ensures HiddenDelta(Positions(start, d, n), i) == AsI64(d[i % |d|])
  {
    hide AsU64, AsI64, Ahead;
    AheadNext(d, i);
    DeltaWraps(start + Ahead(d, i), d[i % |d|]);
  }

  /** Where the first known position is, or the number of bits if there is none. */
  function FirstKnown(bits: KnownBits, i: nat): (k: nat)
    requires i <= |bits|
    ensures i <= k <= |bits| && (k < |bits| ==> bits[k].1.Some?)
    ensures forall j :: i <= j < k ==> bits[j].1.None?
    decreases |bits| - i
  {
    if i == |bits| || bits[i].1.Some? then i else FirstKnown(bits, i + 1)
  }

  /** Differences that connect the known positions give positions that explain them. */
  lemma ConnectedExplained(d: seq<int>, bits: KnownBits) returns (h: seq<int>)
    requires |d| > 0 && ValidBits(bits) && ConnectsAll(d, bits)
    ensures Explains(h, bits, |d|)
  {
    hide AsU64, AsI64, Ahead, HiddenDelta;
    var k := FirstKnown(bits, 0);
    var start := if k < |bits| then bits[k].1.value - Ahead(d, k) else 0;
    h := Positions(start, d, |bits|);
    forall j | 0 <= j < |h| && bits[j].1.Some? ensures bits[j].1.value == h[j] {
      assert Connects(d, bits, k, j);
    }
    forall i, j | 0 <= i < |h| - 1 && j == i + |d| && j < |h| - 1 ensures HiddenDelta(h, j) == HiddenDelta(h, i) {
      PositionsDelta(start, d, |bits|, i);
      PositionsDelta(start, d, |bits|, j);
      RemainderNext(i, |d|);
    }
  }

  lemma RemainderNext(x: int, d: nat)
    requires d > 0
    ensures (x + d) % d == x % d
  {
    MulNext(x / d, d);
    QuotientUnique(x + d, d, x / d + 1, x % d);
  }

  /** The differences of the first period. */
  function FirstPeriodOf(h: seq<int>, period: nat): (d: seq<int>)
    ensures |d| == period && forall r :: 0 <= r < period && r + 1 < |h| ==> d[r] == HiddenDelta(h, r)
  {
    seq(period, r requires 0 <= r < period => if r + 1 < |h| then HiddenDelta(h, r) else 0)
  }

  lemma {:induction false} ExplainedConnected(h: seq<int>, bits: KnownBits, period: nat, i: nat, j: nat)
    requires period > 0 && Explains(h, bits, period) && i <= j < |h|
    ensures var d := FirstPeriodOf(h, period);
            AsU64(h[i] + Ahead(d, j) - Ahead(d, i)) == h[j]
    decreases j
  {
    hide AsU64, AsI64, Ahead, HiddenDelta;
    var d := FirstPeriodOf(h, period);
    if i < j {
      var r := (j - 1) % period;
      RemainderSmall(j - 1, period);
      ExplainedConnected(h, bits, period, i, j - 1);
      PeriodicDelta(h, bits, period, r, j - 1);
      NeighbourStep(h, j - 1);
      AheadNext(d, j - 1);
      AddWraps(h[i] + Ahead(d, j - 1) - Ahead(d, i), d[r]);
      AddWraps(h[j - 1], d[r]);
    }
  }

  lemma RemainderSmall(x: nat, d: nat)
    requires d > 0
    ensures x % d <= x && x % d % d == x % d
  {
    QuotientUnique(x % d, d, 0, x % d);
    MulMono(0, x / d, d);
  }

  /** Some positions explain the known ones, for a period, exactly when the differences of one period
      can be chosen so that they connect all known positions. */
  lemma ExplainedExactly(bits: KnownBits, period: nat)
    requires period > 0 && ValidBits(bits)
    ensures (exists h :: Explains(h, bits, period)) <==> exists d: seq<int> :: |d| == period && ConnectsAll(d, bits)
  {
    if h :| Explains(h, bits, period) {
      var d := FirstPeriodOf(h, period);
      forall i, j | 0 <= i <= j < |bits| ensures Connects(d, bits, i, j) {
        ExplainedConnected(h, bits, period, i, j);
      }
      assert ConnectsAll(d, bits);
    }
    if d: seq<int> :| |d| == period && ConnectsAll(d, bits) {
      var h := ConnectedExplained(d, bits);
    }
  }

  /** Every difference of the period is known somewhere. */
  predicate AllStreamed(bits: KnownBits, period: nat)
    requires period > 0
  {
    forall i :: 0 <= i < NumDeltas(bits) ==> Stream(bits, period, i).Some?
  }

  /** The code's own differences lead from position `i` to position `j`, if both are known. */
  predicate Reaches(bits: KnownBits, period: nat, i: nat, j: nat)
    requires period > 0 && i <= j < |bits|
  {
    bits[i].1.Some? && bits[j].1.Some? ==> Forward(bits, period, i, j, bits[i].1.value) == bits[j].1
  }

  function Streamed(bits: KnownBits, period: nat): (d: seq<int>)
    requires period > 0
    ensures |d| == period
    ensures forall r :: 0 <= r < period && Stream(bits, period, r).Some? ==> d[r] == Stream(bits, period, r).value
  {
    seq(period, r requires 0 <= r < period =>
          if Stream(bits, period, r).Some? then Stream(bits, period, r).value else 0)
  }

  lemma StreamedAt(bits: KnownBits, period: nat, i: nat)
    requires period > 0 && AllStreamed(bits, period) && i < NumDeltas(bits)
    ensures Stream(bits, period, i) == Some(Streamed(bits, period)[i % period])
  {
    RemainderSmall(i, period);
    var r := i % period;
    assert Stream(bits, period, r) == Stream(bits, period, i);
  }

  lemma {:induction false} ForwardAhead(bits: KnownBits, period: nat, i: nat, j: nat, value: int)
    requires period > 0 && AllStreamed(bits, period) && i <= j < |bits| && 0 <= value < U64_MOD
    ensures var d := Streamed(bits, period);
            Forward(bits, period, i, j, value) == Some(AsU64(value + Ahead(d, j) - Ahead(d, i)))
    decreases j - i
  {
    hide AsU64, Ahead, Stream;
    var d := Streamed(bits, period);
    if i < j {
      var r := i % period;
      StreamedAt(bits, period, i);
      var next := AsU64(value + AsU64(d[r]));
      ForwardAhead(bits, period, i + 1, j, next);
      AheadNext(d, i);
      AddWraps(value, d[r]);
      AddWraps(value + d[r], Ahead(d, j) - Ahead(d, i + 1));
    }
  }

  /** Where every difference of the period is known, some positions explain the known ones exactly
      when the differences lead from each known position to every later one. */
  lemma StreamedExactly(bits: KnownBits, period: nat)
    requires period > 0 && ValidBits(bits) && AllStreamed(bits, period)
    ensures (exists h :: Explains(h, bits, period)) <==>
            forall i, j :: 0 <= i <= j < |bits| ==> Reaches(bits, period, i, j)
  {
    if h :| Explains(h, bits, period) {
      forall i, j | 0 <= i <= j < |bits| ensures Reaches(bits, period, i, j) {
        ForwardAhead(bits, period, i, j, h[i]);
        ForwardHidden(h, bits, period, i, j);
      }
    }
    if forall i, j :: 0 <= i <= j < |bits| ==> Reaches(bits, period, i, j) {
      var d := Streamed(bits, period);
      forall i, j | 0 <= i <= j < |bits| ensures Connects(d, bits, i, j) {
        assert Reaches(bits, period, i, j);
        if bits[i].1.Some? {
          ForwardAhead(bits, period, i, j, bits[i].1.value);
        }
      }
      var h := ConnectedExplained(d, bits);
    }
  }

  // ------------------------------------------------------- what a guess can miss

  /** Two known differences that should repeat, with any number of periods between them, differ. */
  ghost predicate Clashes(bits: KnownBits, period: nat)
    requires period > 0
  {
    exists i, j :: 0 <= i < j < NumDeltas(bits) && i % period == j % period && Differ(bits, i, j)
  }

  predicate Differ(bits: KnownBits, i: nat, j: nat)
    requires i < NumDeltas(bits) && j < NumDeltas(bits)
  {
    Delta(bits, i).Some? && Delta(bits, j).Some? && Delta(bits, i) != Delta(bits, j)
  }

  lemma PeriodAgrees(h: seq<int>, bits: KnownBits, period: nat, i: nat, j: nat)
    requires period > 0 && Explains(h, bits, period)
    requires i <= j < NumDeltas(bits) && i % period == j % period
    ensures !Differ(bits, i, j)
  {
    PeriodicDelta(h, bits, period, i, j);
  }

  /** One way to fail: then no positions repeat with that period, and a guess made with it says
      nothing. */
  lemma ClashUnexplained(h: seq<int>, bits: KnownBits, period: nat)
    requires period > 0 && Clashes(bits, period)
    ensures !Explains(h, bits, period)
  {
    hide Differ, Explains;
    if Explains(h, bits, period) {
      var i, j :| 0 <= i < j < NumDeltas(bits) && i % period == j % period && Differ(bits, i, j);
      PeriodAgrees(h, bits, period, i, j);
      assert false;
    }
  }

  function Known(positions: seq<Option<int>>): (bits: KnownBits)
    ensures |bits| == |positions| && forall i :: 0 <= i < |bits| ==> bits[i] == (i, positions[i])
  {
    seq(|positions|, i requires 0 <= i < |positions| => (i, positions[i]))
  }

  /** Only differences one period apart are compared: here the first and the last known difference
      clash, yet the period two is taken and the missing position is guessed to be 5. */
  lemma ClashingGuess()
    ensures var bits := Known([Some(0), Some(1), Some(4), None, Some(10), Some(12)]);
            && ValidBits(bits) && Clashes(bits, 2)
            && FirstPeriod(bits, 2, 3) && StartsAt(bits, 2, 2, 3, 5)
  {
    var bits := Known([Some(0), Some(1), Some(4), None, Some(10), Some(12)]);
    assert Delta(bits, 0) == Some(1) && Delta(bits, 4) == Some(2);
    assert Delta(bits, 2).None? && Delta(bits, 3).None?;
    assert Differ(bits, 0, 4);
    assert FirstDelta(bits, 2, 0) == Some(1);
    assert Forward(bits, 2, 3, 3, 5) == Some(5);
    assert GuessFrom(bits, 2, 2, 3) == Some(5);
    assert Repeats(bits, 2);
    CanGuessExactly(bits, 2, 3);
  }

  /** Without a clash: the differences one and two lead from 4 over 6 to 7 where 50 is known.  No
      positions explain that, yet 6 is guessed. */
  lemma UnreachedGuess()
    ensures var bits := Known([Some(0), Some(1), Some(3), Some(4), None, Some(50)]);
            && ValidBits(bits) && !Clashes(bits, 2) && (forall h :: !Explains(h, bits, 2))
            && FirstPeriod(bits, 2, 4) && StartsAt(bits, 2, 3, 4, 6)
  {
    hide Explains, Clashes, FirstStart, Forward;
    var bits := Known([Some(0), Some(1), Some(3), Some(4), None, Some(50)]);
    UnreachedDeltas(bits);
    UnreachedSteps(bits);
    assert !Reaches(bits, 2, 3, 5);
    StreamedExactly(bits, 2);
    NoClash(bits);
    UnreachedStart(bits);
  }

  lemma UnreachedDeltas(bits: KnownBits)
    requires bits == Known([Some(0), Some(1), Some(3), Some(4), None, Some(50)])
    ensures Delta(bits, 0) == Some(1) && Delta(bits, 1) == Some(2) && Delta(bits, 2) == Some(1)
    ensures Delta(bits, 3).None? && Delta(bits, 4).None?
    ensures Repeats(bits, 2) && AllStreamed(bits, 2)
    ensures FirstDelta(bits, 2, 0) == Some(1) && FirstDelta(bits, 2, 1) == Some(2)
  {
    assert FirstDelta(bits, 2, 0) == Some(1) && FirstDelta(bits, 2, 1) == Some(2);
  }

  lemma UnreachedSteps(bits: KnownBits)
    requires bits == Known([Some(0), Some(1), Some(3), Some(4), None, Some(50)])
    ensures Forward(bits, 2, 3, 4, 4) == Some(6) && Forward(bits, 2, 3, 5, 4) == Some(7)
  {
    UnreachedDeltas(bits);
    assert Forward(bits, 2, 4, 4, 6) == Some(6);
    assert Forward(bits, 2, 5, 5, 7) == Some(7);
    assert Forward(bits, 2, 4, 5, 6) == Some(7);
  }

  lemma NoClash(bits: KnownBits)
    requires bits == Known([Some(0), Some(1), Some(3), Some(4), None, Some(50)])
    ensures !Clashes(bits, 2)
  {
    UnreachedDeltas(bits);
  }

  lemma UnreachedStart(bits: KnownBits)
    requires bits == Known([Some(0), Some(1), Some(3), Some(4), None, Some(50)])
    ensures FirstPeriod(bits, 2, 4) && StartsAt(bits, 2, 3, 4, 6)
  {
    hide Forward;
    UnreachedDeltas(bits);
    UnreachedSteps(bits);
    assert GuessFrom(bits, 2, 3, 4) == Some(6);
    CanGuessExactly(bits, 2, 4);
  }

  /** A guess need not be a bit number of a 64-bit offset. */
  lemma GuessBeyondWidth()
    ensures var bits := Known([Some(40), Some(50), Some(52), Some(62), None]);
            && ValidBits(bits) && FirstPeriod(bits, 2, 4) && StartsAt(bits, 2, 3, 4, 64)
  {
    var bits := Known([Some(40), Some(50), Some(52), Some(62), None]);
    assert Delta(bits, 0) == Some(10) && Delta(bits, 1) == Some(2) && Delta(bits, 2) == Some(10);
    assert Delta(bits, 3).None?;
    assert FirstDelta(bits, 2, 1) == Some(2);
    assert Forward(bits, 2, 4, 4, 64) == Some(64);
    assert GuessFrom(bits, 2, 3, 4) == Some(64);
    assert Repeats(bits, 2);
    CanGuessExactly(bits, 2, 4);
  }
}
