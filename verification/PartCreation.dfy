/** Building the parts of an encoding from the changes that single bits cause. */
module PartCreation {
  import opened Options
  import opened Words
  import opened Instructions
  import opened MachineInts
  import opened Parts
  import Guessing = BitOrder

  /** What flipping one bit changed: nothing, nothing that can be used, an immediate value, the choice
      of a register or an address computation, or an offset, at a place that was observed or is not
      known.  The offset is that of the analysed instruction. */
  datatype Sighting =
    | Same
    | Useless
    | Value(id: nat)
    | Selects(id: nat)
    | Offset(targets: seq<Target>, offset: int, evidence: Evidence)

  /** The observed place in the offset and the direction in which flipping the bit moved the address. */
  datatype Evidence = At(bit: Usize, decreasing: bool) | Hidden

  predicate IsPeer(s: Sighting, targets: seq<Target>, offset: int)
  {
    s.Offset? && s.targets == targets && s.offset == offset
  }

  predicate Listed(order: Guessing.KnownBits, bit: nat) { exists k :: 0 <= k < |order| && order[k].0 == bit }

  /** Those of the first `n` bits that are in the same offset, with their places as far as observed. */
  function Peers(s: seq<Sighting>, targets: seq<Target>, offset: int, n: nat): (r: Guessing.KnownBits)
    requires n <= |s|
    ensures Guessing.ValidBits(r)
    ensures forall i :: 0 <= i < n && IsPeer(s[i], targets, offset) ==> Listed(r, i)
  {
    if n == 0 then []
    else
      var before, last := Peers(s, targets, offset, n - 1), s[n - 1];
      if !IsPeer(last, targets, offset) then before
      else
        var entry := (n - 1, if last.evidence.At? then Some(last.evidence.bit) else None);
        ListedAppend(before, entry);
        before + [entry]
  }

  lemma ListedAppend(order: Guessing.KnownBits, entry: (nat, Option<int>))
    ensures Listed(order + [entry], entry.0)
    ensures forall i :: Listed(order, i) ==> Listed(order + [entry], i)
  {
    var r := order + [entry];
    assert r[|order|] == entry;
    forall i | Listed(order, i) ensures Listed(r, i) {
      var k :| 0 <= k < |order| && order[k].0 == i;
      assert r[k] == order[k];
    }
  }

  /** The first entry for a bit. */
  function Find(order: Guessing.KnownBits, bit: nat, k: nat): (r: nat)
    requires k <= |order| && exists j :: k <= j < |order| && order[j].0 == bit
    ensures k <= r < |order| && order[r].0 == bit
    decreases |order| - k
  {
    if order[k].0 == bit then k else Find(order, bit, k + 1)
  }

  /** The place of a bit of an offset, guessed from those of its peers. */
  function GuessFor(s: seq<Sighting>, i: nat): Option<nat>
    requires i < |s| && s[i].Offset?
  {
    var order := Peers(s, s[i].targets, s[i].offset, |s|);
    assert Listed(order, i);
    var guess := Guessing.Guess(order, Find(order, i, 0));
    if guess.Some? then Some(guess.value) else None
  }

  /** The peers are exactly the bits in the same offset of the same accesses, each once, in order, with
      the places that were observed. */
  lemma {:induction false} PeersExactly(s: seq<Sighting>, targets: seq<Target>, offset: int, n: nat, k: nat)
    requires n <= |s| && k < |Peers(s, targets, offset, n)|
    ensures var r := Peers(s, targets, offset, n);
            && r[k].0 < n && s[r[k].0].Offset? && s[r[k].0].targets == targets && s[r[k].0].offset == offset
            && r[k].1 == (match s[r[k].0].evidence case At(bit, _) => Some(bit) case Hidden => None)
            && forall j :: 0 <= j < k ==> r[j].0 < r[k].0
    decreases n
  {
    if IsPeer(s[n - 1], targets, offset) && k == |Peers(s, targets, offset, n - 1)| {
      forall j | 0 <= j < k ensures Peers(s, targets, offset, n)[j].0 < n - 1 {
        PeersExactly(s, targets, offset, n - 1, j);
      }
    } else {
      PeersExactly(s, targets, offset, n - 1, k);
    }
  }

  /** The place guessed for a bit is the true one, where the places of its peers pin it down. */
  lemma PlaceRight(s: seq<Sighting>, i: nat, period: nat, from: nat, k: nat, h: seq<int>)
    requires i < |s| && s[i].Offset? && s[i].evidence.Hidden?
    requires var order := Peers(s, s[i].targets, s[i].offset, |s|);
             && k < |order| && order[k].0 == i && 2 <= period < Guessing.NumDeltas(order)
             && Guessing.Explains(h, order, period) && Guessing.Linked(order, period, from, k)
             && forall q :: 2 <= q < period ==> Guessing.Contradicted(order, q)
    ensures Resolve(s)[i] == Changes(OffsetImm(s[i].targets), Guessed(Some(h[k])))
  {
    hide Peers, Guessing.Explains, Guessing.Linked, Guessing.Contradicted;
    var order := Peers(s, s[i].targets, s[i].offset, |s|);
    Guessing.GuessRight(order, period, from, k, h);
    FoundOnce(s, s[i].targets, s[i].offset, i, k);
  }

  lemma FoundOnce(s: seq<Sighting>, targets: seq<Target>, offset: int, i: nat, k: nat)
    requires i < |s| && k < |Peers(s, targets, offset, |s|)| && Peers(s, targets, offset, |s|)[k].0 == i
    ensures Find(Peers(s, targets, offset, |s|), i, 0) == k
  {
    hide Peers;
    var order := Peers(s, targets, offset, |s|);
    var j := Find(order, i, 0);
    PeersExactly(s, targets, offset, |s|, k);
    PeersExactly(s, targets, offset, |s|, j);
  }

  /** Where in the offset a bit is: observed, with the direction in which flipping the bit moved the
      address, or guessed from its neighbours, perhaps in vain. */
  datatype Place = Nowhere | Known(bit: nat, decreasing: bool) | Guessed(guess: Option<nat>)

  /** The effect of one bit. */
  datatype Change = Unchanged | Unusable | Changes(base: Base, place: Place)

  /** The bit can be labelled: only a bit of an offset whose place was guessed in vain cannot. */
  predicate Placed(c: Change)
  {
    c.Changes? && (c.base.OffsetImm? ==> c.place.Known? || (c.place.Guessed? && c.place.guess.Some?))
  }

  /** What the bit at `i` changes, with a guess for a place that is not known. */
  function Resolved(s: seq<Sighting>, i: nat): Change
    requires i < |s|
  {
    match s[i]
    case Same => Unchanged
    case Useless => Unusable
    case Value(id) => Changes(ValueImm(id), Nowhere)
    case Selects(id) => Changes(Choice(id), Nowhere)
    case Offset(targets, _, At(bit, decreasing)) => Changes(OffsetImm(targets), Known(bit, decreasing))
    case Offset(targets, _, Hidden) => Changes(OffsetImm(targets), Guessed(GuessFor(s, i)))
  }

  function Resolve(s: seq<Sighting>): (r: seq<Change>)
    ensures |r| == |s| && forall i :: 0 <= i < |s| ==> r[i] == Resolved(s, i)
  {
    seq(|s|, i requires 0 <= i < |s| => Resolved(s, i))
  }

  /** The order entry of a bit of an offset that has the given value in the instruction. */
  function OrderOf(c: Change, bit: bool): BitOrder
    requires Placed(c) && c.base.OffsetImm?
  {
    match c.place
    case Known(n, decreasing) => if decreasing != bit then Negative(n) else Positive(n)
    case Guessed(g) => Positive(g.value)
  }

  /** The sign is right: by its entry, flipping the bit moves the address as it was observed to. */
  lemma OrderMovesAsObserved(c: Change, bit: bool)
    requires Placed(c) && c.base.OffsetImm? && c.place.Known?
    ensures var order, weight: int := OrderOf(c, bit), Pow2(c.place.bit);
            Meaning(order, !bit) - Meaning(order, bit) == if c.place.decreasing then -weight else weight
  {
  }

  /** A guessed place counts upwards: setting the bit moves the address up by its weight. */
  lemma GuessMovesUp(c: Change, bit: bool)
    requires Placed(c) && c.base.OffsetImm? && c.place.Guessed?
    ensures Meaning(OrderOf(c, bit), true) == Pow2(c.place.guess.value) && Meaning(OrderOf(c, bit), false) == 0
  {
  }

  // ------------------------------------------------------- what the loop builds

  /** The order entries of the bits at the positions, as far as they can be labelled. */
  function OrdersOf(changes: seq<Change>, instr: Instruction, positions: seq<nat>): seq<BitOrder>
    requires Within(positions, |changes|) && Within(positions, BitLen(instr))
  {
    if |positions| == 0 then []
    else
      var n := |positions| - 1;
      var i := positions[n];
      OrdersOf(changes, instr, positions[..n])
      + if Placed(changes[i]) && changes[i].base.OffsetImm? then [OrderOf(changes[i], Nth(instr, i))] else []
  }

  /** The state of the loop.  `collected` lists, for every part, the bits that went into it, and
      `mapping` the parts that the next bit may join. */
  datatype Build = Build(bits: seq<Bit>, parts: seq<PartInfo>, collected: seq<seq<nat>>, mapping: map<Base, nat>)

  /** A part collects the bits at `positions`: they share its base, and its size, its value and its
      order entries are theirs. */
  ghost predicate Collects(p: PartInfo, positions: seq<nat>, changes: seq<Change>, instr: Instruction)
  {
    && Increasing(positions) && Within(positions, BitLen(instr)) && Within(positions, |changes|)
    && p.size == |positions| && p.value == Packed(instr, positions)
    && p.orders == OrdersOf(changes, instr, positions)
    && forall k :: 0 <= k < |positions| ==> changes[positions[k]].Changes? && changes[positions[k]].base == p.base
  }

  /** Bit `i` is labelled with a part exactly when it was collected and its place is known. */
  ghost predicate Labelled(bits: seq<Bit>, collected: seq<seq<nat>>, changes: seq<Change>, i: nat)
    requires i < |bits| && i < |changes|
  {
    && (forall p :: 0 <= p < |collected| && i in collected[p] ==>
          if Placed(changes[i]) then bits[i] == Part(p) else bits[i].Fixed?)
    && (bits[i].Part? ==> bits[i].index < |collected| && i in collected[bits[i].index])
  }

  /** What the unlabelled bits carry. */
  ghost predicate Unlabelled(bits: seq<Bit>, changes: seq<Change>, instr: Instruction, i: nat)
    requires i < |bits| && i < |changes| && i < BitLen(instr)
  {
    && (changes[i].Unchanged? <==> bits[i] == DontCare)
    && (changes[i].Unusable? ==> bits[i] == Fixed(Nth(instr, i)))
    && (bits[i].Fixed? ==> bits[i].bit == Nth(instr, i))
    && (Placed(changes[i]) ==> bits[i].Part?)
  }

  ghost predicate PartsOk(b: Build, changes: seq<Change>, instr: Instruction)
  {
    && |b.bits| <= |changes| <= BitLen(instr) && |b.parts| == |b.collected|
    && (forall p :: 0 <= p < |b.parts| ==> PartOk(b, changes, instr, p))
    && (forall i :: 0 <= i < |b.bits| ==> BitOk(b, changes, instr, i))
  }

  ghost predicate PartOk(b: Build, changes: seq<Change>, instr: Instruction, p: nat)
    requires p < |b.parts| == |b.collected|
  {
    Collects(b.parts[p], b.collected[p], changes, instr) && Within(b.collected[p], |b.bits|)
  }

  ghost predicate BitOk(b: Build, changes: seq<Change>, instr: Instruction, i: nat)
    requires i < |b.bits| <= |changes| <= BitLen(instr)
  {
    Labelled(b.bits, b.collected, changes, i) && Unlabelled(b.bits, changes, instr, i)
  }

  predicate Consecutive(positions: seq<nat>) { forall k :: 0 <= k < |positions| ==> positions[k] == positions[0] + k }

  function Last(positions: seq<nat>): int { if |positions| == 0 then -1 else positions[|positions| - 1] }

  /** Parts with an immediate value are runs of consecutive bits, and two with the same base have a
      gap between them; any other base has one part. */
  ghost predicate Grouped(parts: seq<PartInfo>, collected: seq<seq<nat>>)
    requires |parts| == |collected|
  {
    && (forall p :: 0 <= p < |parts| ==> |collected[p]| > 0 && (parts[p].base.ValueImm? ==> Consecutive(collected[p])))
    && (forall p, q :: 0 <= p < q < |parts| && parts[p].base == parts[q].base ==>
          parts[p].base.ValueImm? && Last(collected[p]) + 1 < collected[q][0])
  }

  /** A part is opened by a bit that can be labelled, and one that is not an immediate value collects
      every later bit with its base. */
  ghost predicate Gathers(base: Base, positions: seq<nat>, changes: seq<Change>, n: nat)
  {
    && |positions| > 0 && Within(positions, |changes|) && Placed(changes[positions[0]])
    && (!base.ValueImm? ==> forall j :: positions[0] <= j < n && j < |changes| && HasBase(changes[j], base) ==>
                              j in positions)
  }

  predicate HasBase(c: Change, base: Base) { c.Changes? && c.base == base }

  ghost predicate Gathered(b: Build, changes: seq<Change>)
    requires |b.parts| == |b.collected|
  {
    forall p :: 0 <= p < |b.parts| ==> Gathers(b.parts[p].base, b.collected[p], changes, |b.bits|)
  }

  /** Open parts: bases that the next bit may join.  An immediate part is open only right after its
      last bit, the others stay open. */
  ghost predicate Open(b: Build)
    requires |b.parts| == |b.collected|
  {
    && (forall x :: x in b.mapping ==> b.mapping[x] < |b.parts| && b.parts[b.mapping[x]].base == x)
    && (forall p :: 0 <= p < |b.parts| ==> OpenOk(b.mapping, b.parts[p].base, b.collected[p], p, |b.bits|))
  }

  ghost predicate OpenOk(mapping: map<Base, nat>, base: Base, positions: seq<nat>, p: nat, i: nat)
  {
    && (!base.ValueImm? ==> base in mapping && mapping[base] == p)
    && (base.ValueImm? && base in mapping && mapping[base] == p ==> Last(positions) == i - 1)
    && (base.ValueImm? && !(base in mapping && mapping[base] == p) ==> Last(positions) + 1 < i)
  }

  /** What the loop of `create_parts` keeps. */
  ghost predicate LoopOk(b: Build, changes: seq<Change>, instr: Instruction)
  {
    && PartsOk(b, changes, instr) && Open(b) && Grouped(b.parts, b.collected) && Gathered(b, changes)
    && Alone(b.parts)
  }

  // ------------------------------------------------------------ one bit at a time

  /** Immediate values are forgotten as soon as a bit does not belong to them. */
  function Retain(mapping: map<Base, nat>, change: Change): map<Base, nat>
  {
    map b | b in mapping && (b.ValueImm? ==> HasBase(change, b)) :: mapping[b]
  }

  /** The next bit belongs to no part. */
  function Lose(b: Build, change: Change, mark: Bit): Build
  {
    b.(bits := b.bits + [mark], mapping := Retain(b.mapping, change))
  }

  /** A part after the bit at `i` was added to it. */
  function Joined(p: PartInfo, change: Change, instr: Instruction, i: nat): PartInfo
    requires i < BitLen(instr)
  {
    p.(size := p.size + 1,
       value := p.value + if Nth(instr, i) then Pow2(p.size) else 0,
       orders := p.orders + if Placed(change) && change.base.OffsetImm? then [OrderOf(change, Nth(instr, i))] else [])
  }

  /** The next bit joins the open part of its base; it is labelled only if its place is known. */
  function Join(b: Build, change: Change, instr: Instruction): Build
    requires change.Changes? && change.base in b.mapping && |b.bits| < BitLen(instr)
    requires b.mapping[change.base] < |b.parts| == |b.collected|
  {
    var i, p := |b.bits|, b.mapping[change.base];
    Build(b.bits + [if Placed(change) then Part(p) else Fixed(Nth(instr, i))],
          b.parts[p := Joined(b.parts[p], change, instr, i)],
          b.collected[p := b.collected[p] + [i]],
          Retain(b.mapping, change))
  }

  function NewPart(change: Change, instr: Instruction, i: nat): PartInfo
    requires Placed(change) && i < BitLen(instr)
  {
    PartInfo(1, if Nth(instr, i) then 1 else 0, change.base,
             if change.base.OffsetImm? then [OrderOf(change, Nth(instr, i))] else [])
  }

  /** The next bit opens a part. */
  function OpenNew(b: Build, change: Change, instr: Instruction): Build
    requires Placed(change) && |b.bits| < BitLen(instr)
  {
    Build(b.bits + [Part(|b.parts|)],
          b.parts + [NewPart(change, instr, |b.bits|)],
          b.collected + [[|b.bits|]],
          Retain(b.mapping, change)[change.base := |b.parts|])
  }

  lemma LoseParts(b: Build, changes: seq<Change>, instr: Instruction, mark: Bit)
    requires PartsOk(b, changes, instr) && |b.bits| < |changes|
    requires !mark.Part? && (mark.Fixed? ==> mark.bit == Nth(instr, |b.bits|))
    requires !Placed(changes[|b.bits|]) && (mark == DontCare <==> changes[|b.bits|].Unchanged?)
    ensures PartsOk(Lose(b, changes[|b.bits|], mark), changes, instr)
  {
    var n := |b.bits|;
    var b' := Lose(b, changes[n], mark);
    forall p | 0 <= p < |b'.parts| ensures PartOk(b', changes, instr, p) {
      assert PartOk(b, changes, instr, p);
    }
    forall i | 0 <= i < |b'.bits| ensures BitOk(b', changes, instr, i) {
      if i < n {
        assert BitOk(b, changes, instr, i);
      } else {
        NotYetCollected(b, changes, instr);
      }
    }
  }

  lemma NotYetCollected(b: Build, changes: seq<Change>, instr: Instruction)
    requires PartsOk(b, changes, instr)
    ensures forall p :: 0 <= p < |b.collected| ==> |b.bits| !in b.collected[p]
  {
    forall p | 0 <= p < |b.collected| ensures |b.bits| !in b.collected[p] {
      assert PartOk(b, changes, instr, p);
    }
  }

  lemma LoseOpen(b: Build, change: Change, mark: Bit)
    requires |b.parts| == |b.collected| && Open(b) && (change.Changes? ==> change.base !in b.mapping)
    ensures Open(Lose(b, change, mark))
  {
    var b' := Lose(b, change, mark);
    forall p | 0 <= p < |b.parts| ensures OpenOk(b'.mapping, b'.parts[p].base, b'.collected[p], p, |b'.bits|) {
      assert OpenOk(b.mapping, b.parts[p].base, b.collected[p], p, |b.bits|);
    }
  }

  /** A base that is not open has no part that gathers. */
  lemma LoseGathered(b: Build, changes: seq<Change>, mark: Bit)
    requires |b.parts| == |b.collected| && Open(b) && Gathered(b, changes) && |b.bits| < |changes|
    requires changes[|b.bits|].Changes? ==> changes[|b.bits|].base !in b.mapping
    ensures Gathered(Lose(b, changes[|b.bits|], mark), changes)
  {
    var n := |b.bits|;
    forall p | 0 <= p < |b.parts| ensures Gathers(b.parts[p].base, b.collected[p], changes, n + 1) {
      assert OpenOk(b.mapping, b.parts[p].base, b.collected[p], p, n);
      assert Gathers(b.parts[p].base, b.collected[p], changes, n);
    }
  }

  lemma LoseOk(b: Build, changes: seq<Change>, instr: Instruction, mark: Bit)
    requires LoopOk(b, changes, instr) && |b.bits| < |changes|
    requires !mark.Part? && (mark.Fixed? ==> mark.bit == Nth(instr, |b.bits|))
    requires !Placed(changes[|b.bits|]) && (mark == DontCare <==> changes[|b.bits|].Unchanged?)
    requires changes[|b.bits|].Changes? ==> changes[|b.bits|].base !in b.mapping
    ensures LoopOk(Lose(b, changes[|b.bits|], mark), changes, instr)
  {
    LoseParts(b, changes, instr, mark);
    LoseOpen(b, changes[|b.bits|], mark);
    LoseGathered(b, changes, mark);
  }

  lemma JoinCollects(p: PartInfo, positions: seq<nat>, changes: seq<Change>, instr: Instruction, i: nat)
    requires Collects(p, positions, changes, instr) && Within(positions, i)
    requires i < |changes| && i < BitLen(instr) && HasBase(changes[i], p.base)
    ensures Collects(Joined(p, changes[i], instr, i), positions + [i], changes, instr)
  {
    hide Packed, Nth, OrderOf, Pow2;
    PackedAppend(instr, positions, i);
    assert (positions + [i])[..|positions|] == positions;
  }

  /** What joining asks of the state and the next bit. */
  ghost predicate CanJoin(b: Build, changes: seq<Change>, instr: Instruction)
  {
    && PartsOk(b, changes, instr) && Open(b) && |b.bits| < |changes|
    && changes[|b.bits|].Changes? && changes[|b.bits|].base in b.mapping
  }

  lemma JoinParts(b: Build, changes: seq<Change>, instr: Instruction)
    requires CanJoin(b, changes, instr)
    ensures PartsOk(Join(b, changes[|b.bits|], instr), changes, instr)
  {
    var n := |b.bits|;
    var p := b.mapping[changes[n].base];
    var b' := Join(b, changes[n], instr);
    forall q | 0 <= q < |b'.parts| ensures PartOk(b', changes, instr, q) {
      assert PartOk(b, changes, instr, q);
      if q == p {
        JoinCollects(b.parts[p], b.collected[p], changes, instr, n);
      }
    }
    forall i | 0 <= i < |b'.bits| ensures BitOk(b', changes, instr, i) {
      JoinBit(b, changes, instr, i);
    }
  }

  lemma JoinBit(b: Build, changes: seq<Change>, instr: Instruction, i: nat)
    requires CanJoin(b, changes, instr) && i <= |b.bits|
    ensures BitOk(Join(b, changes[|b.bits|], instr), changes, instr, i)
  {
    var n := |b.bits|;
    var p := b.mapping[changes[n].base];
    var b' := Join(b, changes[n], instr);
    if i < n {
      assert BitOk(b, changes, instr, i);
      assert forall q :: 0 <= q < |b.collected| ==> (i in b'.collected[q] <==> i in b.collected[q]);
    } else {
      NotYetCollected(b, changes, instr);
      assert b'.collected[p][|b.collected[p]|] == n;
    }
  }

  lemma JoinOpen(b: Build, changes: seq<Change>, instr: Instruction)
    requires CanJoin(b, changes, instr)
    ensures Open(Join(b, changes[|b.bits|], instr))
  {
    var b' := Join(b, changes[|b.bits|], instr);
    forall q | 0 <= q < |b.parts| ensures OpenOk(b'.mapping, b'.parts[q].base, b'.collected[q], q, |b'.bits|) {
      assert OpenOk(b.mapping, b.parts[q].base, b.collected[q], q, |b.bits|);
    }
  }

  lemma JoinGrouped(b: Build, changes: seq<Change>, instr: Instruction)
    requires CanJoin(b, changes, instr) && Grouped(b.parts, b.collected)
    ensures var b' := Join(b, changes[|b.bits|], instr); Grouped(b'.parts, b'.collected)
  {
    var n := |b.bits|;
    var p := b.mapping[changes[n].base];
    var b' := Join(b, changes[n], instr);
    assert OpenOk(b.mapping, b.parts[p].base, b.collected[p], p, n);
    forall q, r | 0 <= q < r < |b.parts| && b'.parts[q].base == b'.parts[r].base
      ensures b'.parts[q].base.ValueImm? && Last(b'.collected[q]) + 1 < b'.collected[r][0]
    {
      assert b.parts[q].base == b.parts[r].base;
      assert OpenOk(b.mapping, b.parts[r].base, b.collected[r], r, n);
      if q == p {
        // A later part with the same base would have the base's open entry.
        LastAfterFirst(b.collected[r]);
        assert false;
      }
    }
  }

  lemma LastAfterFirst(positions: seq<nat>)
    requires |positions| > 0 && Consecutive(positions)
    ensures positions[0] <= Last(positions)
  {
  }

  lemma JoinGathered(b: Build, changes: seq<Change>, instr: Instruction)
    requires CanJoin(b, changes, instr) && Gathered(b, changes)
    ensures Gathered(Join(b, changes[|b.bits|], instr), changes)
  {
    var n := |b.bits|;
    var b' := Join(b, changes[n], instr);
    forall q | 0 <= q < |b'.parts| ensures Gathers(b'.parts[q].base, b'.collected[q], changes, |b'.bits|) {
      assert Gathers(b.parts[q].base, b.collected[q], changes, n);
      assert OpenOk(b.mapping, b.parts[q].base, b.collected[q], q, n);
      assert forall j :: j in b.collected[q] ==> j in b'.collected[q];
    }
  }

  lemma JoinOk(b: Build, changes: seq<Change>, instr: Instruction)
    requires LoopOk(b, changes, instr) && CanJoin(b, changes, instr)
    ensures b.mapping[changes[|b.bits|].base] < |b.parts| == |b.collected|
    ensures LoopOk(Join(b, changes[|b.bits|], instr), changes, instr)
  {
    JoinParts(b, changes, instr);
    JoinOpen(b, changes, instr);
    JoinGrouped(b, changes, instr);
    JoinGathered(b, changes, instr);
  }

  ghost predicate CanOpen(b: Build, changes: seq<Change>, instr: Instruction)
  {
    && PartsOk(b, changes, instr) && Open(b) && |b.bits| < |changes|
    && Placed(changes[|b.bits|]) && changes[|b.bits|].base !in b.mapping
  }

  lemma NewCollects(changes: seq<Change>, instr: Instruction, i: nat)
    requires i < |changes| <= BitLen(instr) && Placed(changes[i])
    ensures Collects(NewPart(changes[i], instr, i), [i], changes, instr)
  {
    var bit := Nth(instr, i);
    assert BitsAt(instr, [i]) == [bit];
    assert [bit][1..] == [];
    assert ToNat([bit]) == if bit then 1 else 0;
    assert [i][..0] == [];
  }

  lemma OpenParts(b: Build, changes: seq<Change>, instr: Instruction)
    requires CanOpen(b, changes, instr)
    ensures PartsOk(OpenNew(b, changes[|b.bits|], instr), changes, instr)
  {
    hide Collects, NewPart, Retain, Nth;
    var n := |b.bits|;
    var b' := OpenNew(b, changes[n], instr);
    NewCollects(changes, instr, n);
    forall q | 0 <= q < |b'.parts| ensures PartOk(b', changes, instr, q) {
      if q < |b.parts| {
        assert PartOk(b, changes, instr, q);
      }
    }
    forall i | 0 <= i < |b'.bits| ensures BitOk(b', changes, instr, i) {
      if i < n {
        assert BitOk(b, changes, instr, i);
        assert i !in b'.collected[|b.parts|];
      } else {
        NotYetCollected(b, changes, instr);
        assert n in b'.collected[|b.parts|];
      }
    }
  }

  lemma OpenOpen(b: Build, changes: seq<Change>, instr: Instruction)
    requires CanOpen(b, changes, instr)
    ensures Open(OpenNew(b, changes[|b.bits|], instr))
  {
    var b' := OpenNew(b, changes[|b.bits|], instr);
    forall q | 0 <= q < |b'.parts| ensures OpenOk(b'.mapping, b'.parts[q].base, b'.collected[q], q, |b'.bits|) {
      if q < |b.parts| {
        assert OpenOk(b.mapping, b.parts[q].base, b.collected[q], q, |b.bits|);
      }
    }
  }

  lemma OpenGrouped(b: Build, changes: seq<Change>, instr: Instruction)
    requires CanOpen(b, changes, instr) && Grouped(b.parts, b.collected) && Gathered(b, changes)
    ensures var b' := OpenNew(b, changes[|b.bits|], instr); Grouped(b'.parts, b'.collected) && Gathered(b', changes)
  {
    var n := |b.bits|;
    var b' := OpenNew(b, changes[n], instr);
    forall q, r | 0 <= q < r < |b'.parts| && b'.parts[q].base == b'.parts[r].base
      ensures b'.parts[q].base.ValueImm? && Last(b'.collected[q]) + 1 < b'.collected[r][0]
    {
      assert OpenOk(b.mapping, b.parts[q].base, b.collected[q], q, n);
    }
    forall q | 0 <= q < |b'.parts| ensures Gathers(b'.parts[q].base, b'.collected[q], changes, |b'.bits|) {
      if q < |b.parts| {
        assert Gathers(b.parts[q].base, b.collected[q], changes, n);
        assert OpenOk(b.mapping, b.parts[q].base, b.collected[q], q, n);
      } else {
        assert n in b'.collected[q];
      }
    }
  }

  /** A further part with this base gives no access a second immediate. */
  ghost predicate Fits(parts: seq<PartInfo>, base: Base)
  {
    NamesOnce(base) && forall p, m :: 0 <= p < |parts| && Names(parts[p].base, m) ==> !Names(base, m)
  }

  lemma OpenNewOk(b: Build, changes: seq<Change>, instr: Instruction)
    requires LoopOk(b, changes, instr) && CanOpen(b, changes, instr) && Fits(b.parts, changes[|b.bits|].base)
    ensures LoopOk(OpenNew(b, changes[|b.bits|], instr), changes, instr)
  {
    OpenParts(b, changes, instr);
    OpenOpen(b, changes, instr);
    OpenGrouped(b, changes, instr);
  }

  // --------------------------------------------------- one immediate per access

  /** An access would hold two immediates: some base that is built names it twice, or two do. */
  ghost predicate Crowded(changes: seq<Change>)
  {
    || (exists i :: 0 <= i < |changes| && Placed(changes[i]) && !NamesOnce(changes[i].base))
    || (exists i, j :: 0 <= i < |changes| && 0 <= j < |changes| && Overlap(changes[i], changes[j]))
  }

  ghost predicate Overlap(c: Change, d: Change)
  {
    Placed(c) && Placed(d) && c.base != d.base && exists m :: Names(c.base, m) && Names(d.base, m)
  }

  ghost predicate HeldBy(held: set<nat>, parts: seq<PartInfo>)
  {
    forall m :: m in held <==> exists p :: 0 <= p < |parts| && Names(parts[p].base, m)
  }

  /** Adds an immediate to all targets; none if an access already holds one, where the source aborts. */
  method InsertImms(held: set<nat>, targets: seq<Target>) returns (r: Option<set<nat>>)
    ensures r.Some? <==> Distinct(Accesses(targets)) && forall m :: m in held ==> m !in Accesses(targets)
    ensures r.Some? ==> r.value == held + set m | m in Accesses(targets)
  {
    var now := held;
    for i := 0 to |targets|
      invariant Distinct(Accesses(targets[..i])) && forall m :: m in held ==> m !in Accesses(targets[..i])
      invariant now == held + set m | m in Accesses(targets[..i])
    {
      assert targets[..i + 1][..i] == targets[..i];
      if targets[i].ToAccess? {
        var m := targets[i].index;
        if m in now {
          Twice(held, targets, i);
          return None;
        }
        now := now + {m};
      }
    }
    assert targets[..|targets|] == targets;
    r := Some(now);
  }

  lemma Twice(held: set<nat>, targets: seq<Target>, i: nat)
    requires i < |targets| && targets[i].ToAccess?
    requires targets[i].index in held || targets[i].index in Accesses(targets[..i])
    ensures !(Distinct(Accesses(targets)) && forall m :: m in held ==> m !in Accesses(targets))
  {
    var m, k := targets[i].index, |Accesses(targets[..i])|;
    assert targets[..i + 1][..i] == targets[..i];
    AccessesPrefix(targets, i + 1);
    assert Accesses(targets)[k] == m;
    if m !in held {
      var j :| 0 <= j < k && Accesses(targets[..i])[j] == m;
      AccessesPrefix(targets, i);
      assert Accesses(targets)[j] == m;
    }
  }

  lemma {:induction false} AccessesPrefix(targets: seq<Target>, i: nat)
    requires i <= |targets|
    ensures Accesses(targets[..i]) <= Accesses(targets)
    decreases |targets| - i
  {
    if i < |targets| {
      assert targets[..i + 1][..i] == targets[..i];
      AccessesPrefix(targets, i + 1);
    } else {
      assert targets[..i] == targets;
    }
  }

  /** A base that does not fit meets one that is built already, or itself. */
  lemma MisfitCrowded(b: Build, changes: seq<Change>, instr: Instruction)
    requires LoopOk(b, changes, instr) && CanOpen(b, changes, instr) && !Fits(b.parts, changes[|b.bits|].base)
    ensures Crowded(changes)
  {
    var n := |b.bits|;
    if NamesOnce(changes[n].base) {
      var p, m :| 0 <= p < |b.parts| && Names(b.parts[p].base, m) && Names(changes[n].base, m);
      var first := b.collected[p][0];
      assert PartOk(b, changes, instr, p) && Gathers(b.parts[p].base, b.collected[p], changes, n);
      assert OpenOk(b.mapping, b.parts[p].base, b.collected[p], p, n);
      assert Overlap(changes[first], changes[n]);
    }
  }

  lemma BuiltApart(b: Build, changes: seq<Change>, instr: Instruction, i: nat, j: nat)
    requires |b.bits| == |changes| && LoopOk(b, changes, instr) && i < |changes| && j < |changes|
    ensures !Overlap(changes[i], changes[j])
  {
    if Placed(changes[i]) && Placed(changes[j]) && changes[i].base != changes[j].base {
      var p := PartOfPlaced(b, changes, instr, i);
      var q := PartOfPlaced(b, changes, instr, j);
      forall m ensures !(Names(b.parts[p].base, m) && Names(b.parts[q].base, m)) {
      }
    }
  }

  /** What is built is not crowded. */
  lemma BuiltUncrowded(b: Build, changes: seq<Change>, instr: Instruction)
    requires |b.bits| == |changes| && LoopOk(b, changes, instr)
    ensures !Crowded(changes)
  {
    forall i | 0 <= i < |changes| && Placed(changes[i]) ensures NamesOnce(changes[i].base) {
      var p := PartOfPlaced(b, changes, instr, i);
    }
    forall i, j | 0 <= i < |changes| && 0 <= j < |changes| ensures !Overlap(changes[i], changes[j]) {
      BuiltApart(b, changes, instr, i, j);
    }
  }

  lemma FitsHeld(held: set<nat>, parts: seq<PartInfo>, base: Base)
    requires HeldBy(held, parts)
    ensures !base.OffsetImm? ==> Fits(parts, base)
    ensures base.OffsetImm? ==>
              (Fits(parts, base) <==>
               Distinct(Accesses(base.targets)) && forall m :: m in held ==> m !in Accesses(base.targets))
  {
    forall m | m in held && Fits(parts, base) ensures !Names(base, m) {
      var p :| 0 <= p < |parts| && Names(parts[p].base, m);
    }
    forall p, m | 0 <= p < |parts| && Names(parts[p].base, m) ensures m in held {
    }
  }

  lemma HeldNext(held: set<nat>, held': set<nat>, parts: seq<PartInfo>, p: PartInfo)
    requires HeldBy(held, parts)
    requires held' == if p.base.OffsetImm? then held + set m | m in Accesses(p.base.targets) else held
    ensures HeldBy(held', parts + [p])
  {
    var after := parts + [p];
    forall m ensures m in held' <==> exists q :: 0 <= q < |after| && Names(after[q].base, m) {
      if m in held {
        var q :| 0 <= q < |parts| && Names(parts[q].base, m);
        assert after[q] == parts[q];
      } else if Names(p.base, m) {
        assert after[|parts|] == p;
      }
    }
  }

  lemma HeldSame(held: set<nat>, parts: seq<PartInfo>, after: seq<PartInfo>)
    requires HeldBy(held, parts) && |after| == |parts|
    requires forall p :: 0 <= p < |parts| ==> after[p].base == parts[p].base
    ensures HeldBy(held, after)
  {
    forall m ensures m in held <==> exists q :: 0 <= q < |after| && Names(after[q].base, m) {
      if m in held {
        var q :| 0 <= q < |parts| && Names(parts[q].base, m);
        assert Names(after[q].base, m);
      }
    }
  }

  // ------------------------------------------------------------------- the loop

  /** What the bit at `i` changes; a place that is not known is guessed now. */
  method Look(s: seq<Sighting>, i: nat) returns (c: Change)
    requires i < |s|
    ensures c == Resolve(s)[i]
  {
    match s[i]
    case Same => c := Unchanged;
    case Useless => c := Unusable;
    case Value(id) => c := Changes(ValueImm(id), Nowhere);
    case Selects(id) => c := Changes(Choice(id), Nowhere);
    case Offset(targets, offset, At(bit, decreasing)) => c := Changes(OffsetImm(targets), Known(bit, decreasing));
    case Offset(targets, offset, Hidden) =>
      var order := Peers(s, targets, offset, |s|);
      assert Listed(order, i);
      var guess := Guessing.GuessBitOrder(order, Find(order, i, 0));
      c := Changes(OffsetImm(targets), Guessed(if guess.Some? then Some(guess.value) else None));
  }

  datatype Created = Created(bits: seq<Bit>, parts: seq<PartInfo>)

  lemma NothingBuilt(changes: seq<Change>, instr: Instruction)
    requires |changes| <= BitLen(instr)
    ensures LoopOk(Build([], [], [], map[]), changes, instr) && HeldBy({}, [])
  {
  }

  /** The loop of `create_parts`.  It aborts exactly when an access would hold two immediates. */
  method CreateParts(s: seq<Sighting>, instr: Instruction) returns (r: Option<Created>, ghost b: Build)
    requires |s| <= BitLen(instr)
    ensures r.None? <==> Crowded(Resolve(s))
    ensures r.Some? ==> |b.bits| == |s| && r.value == Created(b.bits, b.parts) && LoopOk(b, Resolve(s), instr)
  {
    hide PartsOk, Open, Grouped, Gathered, Alone, HeldBy, Names, Distinct, Crowded, Fits, OrdersOf, Resolve;
    var bits: seq<Bit>, parts: seq<PartInfo> := [], [];
    var mapping: map<Base, nat> := map[];
    var held: set<nat> := {};
    ghost var changes := Resolve(s);
    b := Build([], [], [], map[]);
    NothingBuilt(changes, instr);
    for i := 0 to |s|
      invariant |bits| == i && b.bits == bits && b.parts == parts && b.mapping == mapping
      invariant LoopOk(b, changes, instr) && HeldBy(held, parts)
    {
      var change := Look(s, i);
      var bit := Nth(instr, i);
      mapping := Retain(mapping, change);
      if !change.Changes? {
        var mark := if change.Unchanged? then DontCare else Fixed(bit);
        LoseOk(b, changes, instr, mark);
        b, bits := Lose(b, change, mark), bits + [mark];
      } else if change.base in mapping {
        var p := mapping[change.base];
        JoinOk(b, changes, instr);
        b := Join(b, change, instr);
        HeldSame(held, parts, b.parts);
        parts := parts[p := Joined(parts[p], change, instr, i)];
        bits := bits + [if Placed(change) then Part(p) else Fixed(bit)];
      } else if Placed(change) {
        FitsHeld(held, parts, change.base);
        var now := Some(held);
        if change.base.OffsetImm? {
          now := InsertImms(held, change.base.targets);
        }
        if now.None? {
          MisfitCrowded(b, changes, instr);
          return None, b;
        }
        OpenNewOk(b, changes, instr);
        HeldNext(held, now.value, parts, NewPart(change, instr, i));
        b := OpenNew(b, change, instr);
        mapping := mapping[change.base := |parts|];
        bits := bits + [Part(|parts|)];
        parts := parts + [NewPart(change, instr, i)];
        held := now.value;
      } else {
        LoseOk(b, changes, instr, Fixed(bit));
        b, bits := Lose(b, change, Fixed(bit)), bits + [Fixed(bit)];
      }
    }
    BuiltUncrowded(b, changes, instr);
    r := Some(Created(bits, parts));
  }

  // ------------------------------------------- sizes and orders of labelled bits

  /** The bits at the positions that can be labelled. */
  function PlacedOf(changes: seq<Change>, positions: seq<nat>): (r: seq<nat>)
    requires Within(positions, |changes|)
    ensures |r| <= |positions| && Within(r, |changes|)
    ensures forall i :: i in r <==> i in positions && Placed(changes[i])
  {
    if |positions| == 0 then []
    else
      var n := |positions| - 1;
      PlacedOf(changes, positions[..n]) + if Placed(changes[positions[n]]) then [positions[n]] else []
  }

  lemma {:induction false} PlacedIncreasing(changes: seq<Change>, positions: seq<nat>)
    requires Within(positions, |changes|) && Increasing(positions)
    ensures Increasing(PlacedOf(changes, positions))
    decreases |positions|
  {
    if |positions| > 0 {
      var n := |positions| - 1;
      var first := PlacedOf(changes, positions[..n]);
      PlacedIncreasing(changes, positions[..n]);
      forall k | 0 <= k < |first| ensures first[k] < positions[n] {
        assert first[k] in first;
        assert first[k] in positions[..n];
      }
    }
  }

  lemma {:induction false} AllPlaced(changes: seq<Change>, positions: seq<nat>)
    requires Within(positions, |changes|)
    ensures |PlacedOf(changes, positions)| == |positions| <==> forall i :: i in positions ==> Placed(changes[i])
    decreases |positions|
  {
    if |positions| > 0 {
      var n := |positions| - 1;
      AllPlaced(changes, positions[..n]);
      assert positions == positions[..n] + [positions[n]];
      assert positions[n] in positions;
    }
  }

  /** The bits labelled with a part are the bits it collected that can be labelled. */
  lemma LabelledPositions(b: Build, changes: seq<Change>, instr: Instruction, p: nat)
    requires |b.bits| == |changes| && PartsOk(b, changes, instr) && p < |b.parts|
    ensures Within(b.collected[p], |changes|) && PositionsOf(b.bits, p) == PlacedOf(changes, b.collected[p])
  {
    var all, labelled := b.collected[p], PositionsOf(b.bits, p);
    assert PartOk(b, changes, instr, p);
    forall i | i in labelled ensures i in all && Placed(changes[i]) {
      assert BitOk(b, changes, instr, i);
    }
    forall i | i in all && Placed(changes[i]) ensures i in labelled {
      assert BitOk(b, changes, instr, i);
    }
    PlacedIncreasing(changes, all);
    IncreasingUnique(labelled, PlacedOf(changes, all));
  }

  /** Some bit with this base is in the offset at a place that could not be guessed, and comes after
      one that could be labelled. */
  predicate GuessedInVain(changes: seq<Change>, base: Base)
  {
    exists i, j :: 0 <= i < j < |changes| && IsPlaced(changes[i], base) && IsUnplaced(changes[j], base)
  }

  predicate IsPlaced(c: Change, base: Base) { HasBase(c, base) && Placed(c) }
  predicate IsUnplaced(c: Change, base: Base) { HasBase(c, base) && !Placed(c) }

  /** A part collects a bit that it does not label exactly when a bit of its base was guessed in vain
      after one that could be labelled. */
  lemma CollectsUnplaced(b: Build, changes: seq<Change>, instr: Instruction, p: nat)
    requires |b.bits| == |changes| && LoopOk(b, changes, instr) && p < |b.parts|
    ensures (forall i :: i in b.collected[p] ==> Placed(changes[i])) <==> !GuessedInVain(changes, b.parts[p].base)
  {
    var base, all := b.parts[p].base, b.collected[p];
    assert PartOk(b, changes, instr, p) && Gathers(base, all, changes, |b.bits|);
    if i :| i in all && !Placed(changes[i]) {
      assert IsPlaced(changes[all[0]], base) && IsUnplaced(changes[i], base);
      assert all[0] < i;
    }
    if GuessedInVain(changes, base) {
      var i, j :| 0 <= i < j < |changes| && IsPlaced(changes[i], base) && IsUnplaced(changes[j], base);
      var q := PartOfPlaced(b, changes, instr, i);
      assert q == p;
      assert all[0] <= i;
      assert j in all;
    }
  }

  lemma PartOfPlaced(b: Build, changes: seq<Change>, instr: Instruction, i: nat) returns (q: nat)
    requires |b.bits| == |changes| && LoopOk(b, changes, instr) && i < |changes| && Placed(changes[i])
    ensures q < |b.parts| && i in b.collected[q] && b.parts[q].base == changes[i].base
    ensures !changes[i].base.ValueImm? ==>
              forall p :: 0 <= p < |b.parts| && b.parts[p].base == changes[i].base ==> p == q
  {
    assert BitOk(b, changes, instr, i);
    q := b.bits[i].index;
    assert PartOk(b, changes, instr, q);
    var k :| 0 <= k < |b.collected[q]| && b.collected[q][k] == i;
    if !changes[i].base.ValueImm? {
      forall p | 0 <= p < |b.parts| && b.parts[p].base == changes[i].base ensures p == q {
        assert OpenOk(b.mapping, b.parts[p].base, b.collected[p], p, |b.bits|);
        assert OpenOk(b.mapping, b.parts[q].base, b.collected[q], q, |b.bits|);
      }
    }
  }

  /** A part's size is the number of bits labelled with it exactly when no bit of its base was guessed
      in vain after one that could be labelled; its value is then the instruction's value of them. */
  lemma PartMatchesExactly(b: Build, changes: seq<Change>, instr: Instruction, p: nat)
    requires |b.bits| == |changes| && LoopOk(b, changes, instr) && p < |b.parts|
    ensures b.parts[p].size == |PositionsOf(b.bits, p)| <==> !GuessedInVain(changes, b.parts[p].base)
    ensures !GuessedInVain(changes, b.parts[p].base) ==> Matches(b.parts[p], b.bits, p, instr)
  {
    var all := b.collected[p];
    assert PartOk(b, changes, instr, p);
    LabelledPositions(b, changes, instr, p);
    PlacedIncreasing(changes, all);
    AllPlaced(changes, all);
    CollectsUnplaced(b, changes, instr, p);
    if !GuessedInVain(changes, b.parts[p].base) {
      IncreasingUnique(PlacedOf(changes, all), all);
    }
  }

  /** Two bits of one offset, the place of the second not observed: two bits give no period, so there
      is no guess, and the part built counts two bits and labels one. */
  lemma MiscountedPart(b: Build, s: seq<Sighting>, instr: Instruction)
    requires var targets := [ToAccess(0)];
             s == [Offset(targets, 0, At(3, false)), Offset(targets, 0, Hidden)]
    ensures Resolve(s)[1].place == Guessed(None) && !Crowded(Resolve(s))
    ensures |b.bits| == 2 && LoopOk(b, Resolve(s), instr) ==>
              && b.bits[0].Part? && b.bits[0].index < |b.parts|
              && b.parts[b.bits[0].index].size != |PositionsOf(b.bits, b.bits[0].index)|
  {
    var targets, changes := [ToAccess(0)], Resolve(s);
    var base := OffsetImm(targets);
    NoGuessForTwo(s, targets);
    assert Accesses(targets) == [0] by {
      assert targets[..0] == [];
    }
    assert IsPlaced(changes[0], base) && IsUnplaced(changes[1], base);
    if |b.bits| == 2 && LoopOk(b, changes, instr) {
      assert GuessedInVain(changes, base);
      assert BitOk(b, changes, instr, 0);
      var p := b.bits[0].index;
      assert PartOk(b, changes, instr, p);
      PartMatchesExactly(b, changes, instr, p);
    }
  }

  lemma NoGuessForTwo(s: seq<Sighting>, targets: seq<Target>)
    requires s == [Offset(targets, 0, At(3, false)), Offset(targets, 0, Hidden)]
    ensures GuessFor(s, 1) == None
  {
    var order := Peers(s, targets, 0, 2);
    assert Peers(s, targets, 0, 0) == [];
    assert Peers(s, targets, 0, 1) == [(0, Some(3))];
    assert order == [(0, Some(3)), (1, None)];
    assert Guessing.NumDeltas(order) == 1;
  }

  /** A part of an offset has one order entry for every bit labelled with it, in their order, and that
      bit's own, whatever the guesses. */
  lemma OrdersMatchLabels(b: Build, changes: seq<Change>, instr: Instruction, p: nat)
    requires |b.bits| == |changes| && LoopOk(b, changes, instr) && p < |b.parts| && b.parts[p].base.OffsetImm?
    ensures |b.parts[p].orders| == |PositionsOf(b.bits, p)|
    ensures forall k :: 0 <= k < |b.parts[p].orders| ==>
              var i := PositionsOf(b.bits, p)[k];
              IsPlaced(changes[i], b.parts[p].base) && b.parts[p].orders[k] == OrderOf(changes[i], Nth(instr, i))
  {
    assert PartOk(b, changes, instr, p);
    LabelledPositions(b, changes, instr, p);
    OrdersOfPlaced(changes, instr, b.collected[p], b.parts[p].base);
  }

  lemma {:induction false} OrdersOfPlaced(changes: seq<Change>, instr: Instruction, positions: seq<nat>, base: Base)
    requires Within(positions, |changes|) && |changes| <= BitLen(instr) && base.OffsetImm?
    requires forall k :: 0 <= k < |positions| ==> HasBase(changes[positions[k]], base)
    ensures var orders, placed := OrdersOf(changes, instr, positions), PlacedOf(changes, positions);
            && |orders| == |placed|
            && forall k :: 0 <= k < |orders| ==>
                 IsPlaced(changes[placed[k]], base) && orders[k] == OrderOf(changes[placed[k]], Nth(instr, placed[k]))
    decreases |positions|
  {
    if |positions| > 0 {
      OrdersOfPlaced(changes, instr, positions[..|positions| - 1], base);
    }
  }

  /** What was seen of a bit decides how it is labelled: not at all if it changed nothing, with its own
      value if nothing usable or if its place is not known and cannot be guessed, and else with a part
      for what it changed. */
  lemma SightingsLabelled(b: Build, s: seq<Sighting>, instr: Instruction, i: nat)
    requires |b.bits| == |s| && LoopOk(b, Resolve(s), instr) && i < |s|
    ensures b.bits[i] == DontCare <==> s[i].Same?
    ensures s[i].Useless? ==> b.bits[i] == Fixed(Nth(instr, i))
    ensures s[i].Value? ==> LabelledFor(b, i, ValueImm(s[i].id))
    ensures s[i].Selects? ==> LabelledFor(b, i, Choice(s[i].id))
    ensures s[i].Offset? ==>
              if s[i].evidence.At? || GuessFor(s, i).Some? then LabelledFor(b, i, OffsetImm(s[i].targets))
              else b.bits[i] == Fixed(Nth(instr, i))
  {
    var changes := Resolve(s);
    assert BitOk(b, changes, instr, i);
    if Placed(changes[i]) {
      var q := PartOfPlaced(b, changes, instr, i);
    }
  }

  ghost predicate LabelledFor(b: Build, i: nat, base: Base)
    requires i < |b.bits|
  {
    b.bits[i].Part? && b.bits[i].index < |b.parts| && b.parts[b.bits[i].index].base == base
  }
}
