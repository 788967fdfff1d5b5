/** Removing invalid parts from an encoding: the parts left are renumbered, bits and inputs are
    relabelled, and the locations that parts refer to follow their inputs.
 */
module PartRemoval {
  import opened Options
  import opened Words
  import opened Instructions
  import opened Parts

  // ---------------------------------------------------------- surviving parts

  function Survivors<T>(s: seq<T>, invalid: seq<nat>): (r: seq<T>)
    ensures |r| <= |s|
  {
    if |s| == 0 then []
    else
      var n := |s| - 1;
      Survivors(s[..n], invalid) + if n in invalid then [] else [s[n]]
  }

  /** How many of the first `i` parts are kept: the new number of part `i`. */
  function Kept(invalid: seq<nat>, i: nat): (r: nat)
    ensures r <= i
  {
    if i == 0 then 0 else Kept(invalid, i - 1) + if i - 1 in invalid then 0 else 1
  }

  /** The parts kept are found, in their order, under their new numbers. */
  lemma {:induction false} SurvivorAt<T>(s: seq<T>, invalid: seq<nat>, i: nat)
    requires i < |s| && i !in invalid
    ensures Kept(invalid, i) < |Survivors(s, invalid)| && Survivors(s, invalid)[Kept(invalid, i)] == s[i]
    decreases |s|
  {
    var n := |s| - 1;
    SurvivorCount(s[..n], invalid);
    if i < n {
      SurvivorAt(s[..n], invalid, i);
    }
  }

  lemma {:induction false} SurvivorCount<T>(s: seq<T>, invalid: seq<nat>)
    ensures |Survivors(s, invalid)| == Kept(invalid, |s|)
    decreases |s|
  {
    if |s| > 0 {
      SurvivorCount(s[..|s| - 1], invalid);
    }
  }

  /** New numbers are given in order, and no two parts get the same. */
  lemma {:induction false} KeptOrdered(invalid: seq<nat>, i: nat, j: nat)
    requires i < j && i !in invalid
    ensures Kept(invalid, i) < Kept(invalid, j)
    decreases j
  {
    if i < j - 1 {
      KeptOrdered(invalid, i, j - 1);
    }
  }

  /** Every part after the removal is one of the parts before it. */
  lemma {:induction false} SurvivorOrigin<T>(s: seq<T>, invalid: seq<nat>, k: nat) returns (i: nat)
    requires k < |Survivors(s, invalid)|
    ensures i < |s| && i !in invalid && Kept(invalid, i) == k
    decreases |s|
  {
    var n := |s| - 1;
    SurvivorCount(s[..n], invalid);
    if k < |Survivors(s[..n], invalid)| {
      i := SurvivorOrigin(s[..n], invalid, k);
    } else {
      i := n;
    }
  }

  /** The new number of part `i`, if it is kept. */
  function NewNumber(invalid: seq<nat>, i: nat): Option<nat>
  {
    if i in invalid then None else Some(Kept(invalid, i))
  }

  ghost predicate Numbered(remapping: seq<Option<nat>>, invalid: seq<nat>)
  {
    forall i :: 0 <= i < |remapping| ==> remapping[i] == NewNumber(invalid, i)
  }

  /** The loop that numbers the parts to keep. */
  method Remapping(n: nat, invalid: seq<nat>) returns (remapping: seq<Option<nat>>)
    ensures |remapping| == n && Numbered(remapping, invalid)
  {
    remapping := [];
    var next := 0;
    for i := 0 to n
      invariant |remapping| == i && next == Kept(invalid, i)
      invariant Numbered(remapping, invalid)
    {
      if i !in invalid {
        remapping := remapping + [Some(next)];
        next := next + 1;
      } else {
        remapping := remapping + [None];
      }
    }
  }

  // ------------------------------------------------- removing from the far end

  function Remove<T>(s: seq<T>, i: nat): seq<T>
    requires i < |s|
  {
    s[..i] + s[i + 1..]
  }

  lemma {:induction false} NoneRemoved<T>(s: seq<T>, invalid: seq<nat>)
    requires forall i :: 0 <= i < |s| ==> i !in invalid
    ensures Survivors(s, invalid) == s
    decreases |s|
  {
    if |s| > 0 {
      var n := |s| - 1;
      NoneRemoved(s[..n], invalid);
      assert s == s[..n] + [s[n]];
    }
  }

  /** Everything up to and including `x` is still in place when only later parts are gone. */
  lemma {:induction false} PrefixKept<T>(s: seq<T>, x: nat, later: seq<nat>)
    requires x < |s| && forall i :: i in later ==> x < i
    ensures x < |Survivors(s, later)|
    ensures Remove(Survivors(s, later), x) == Survivors(s, [x] + later)
    decreases |s|
  {
    var n := |s| - 1;
    if n == x {
      NoneRemoved(s[..n], later);
      NoneRemoved(s[..n], [x] + later);
      assert n !in later;
    } else {
      PrefixKept(s[..n], x, later);
      var before := Survivors(s[..n], later);
      var extra := if n in later then [] else [s[n]];
      assert n in [x] + later <==> n in later;
      assert Remove(before + extra, x) == Remove(before, x) + extra;
    }
  }

  /** The loop that removes the invalid parts one by one, the last one first. */
  method RemoveParts<T>(parts: seq<T>, invalid: seq<nat>) returns (r: seq<T>)
    requires Increasing(invalid) && Within(invalid, |parts|)
    ensures r == Survivors(parts, invalid)
  {
    r := parts;
    NoneRemoved(parts, []);
    var k := |invalid|;
    assert invalid[k..] == [];
    while k > 0
      invariant 0 <= k <= |invalid| && r == Survivors(parts, invalid[k..])
    {
      k := k - 1;
      assert invalid[k..] == [invalid[k]] + invalid[k + 1..];
      PrefixKept(parts, invalid[k], invalid[k + 1..]);
      r := Remove(r, invalid[k]);
    }
    assert invalid[0..] == invalid;
  }

  // ---------------------------------------------------------------------- bits

  function RelabelledBit(b: Bit, invalid: seq<nat>, own: bool): Bit
  {
    if b.Part? then if b.index in invalid then Fixed(own) else Part(Kept(invalid, b.index)) else b
  }

  ghost predicate Relabelled(bits: seq<Bit>, r: seq<Bit>, invalid: seq<nat>, instr: Instruction)
    requires |bits| <= BitLen(instr)
  {
    |r| == |bits| && forall i :: 0 <= i < |bits| ==> r[i] == RelabelledBit(bits[i], invalid, Nth(instr, i))
  }

  method RelabelBits(bits: seq<Bit>, remapping: seq<Option<nat>>, ghost invalid: seq<nat>, instr: Instruction)
    returns (r: seq<Bit>)
    requires |bits| <= BitLen(instr)
    requires forall i :: 0 <= i < |bits| && bits[i].Part? ==> bits[i].index < |remapping|
    requires Numbered(remapping, invalid)
    ensures Relabelled(bits, r, invalid, instr)
  {
    r := bits;
    for i := 0 to |bits|
      invariant |r| == |bits|
      invariant forall j :: 0 <= j < i ==> r[j] == RelabelledBit(bits[j], invalid, Nth(instr, j))
      invariant forall j :: i <= j < |bits| ==> r[j] == bits[j]
    {
      match r[i] {
        case Part(n) =>
          if remapping[n].Some? {
            r := r[i := Part(remapping[n].value)];
          } else {
            r := r[i := Fixed(Nth(instr, i))];
          }
        case _ =>
      }
    }
  }

  /** A part keeps exactly its bits, under its new number. */
  lemma PositionsKept(bits: seq<Bit>, r: seq<Bit>, invalid: seq<nat>, instr: Instruction, p: nat)
    requires |bits| <= BitLen(instr) && Relabelled(bits, r, invalid, instr) && p !in invalid
    ensures PositionsOf(r, Kept(invalid, p)) == PositionsOf(bits, p)
  {
    forall i | 0 <= i < |bits| ensures r[i] == Part(Kept(invalid, p)) <==> bits[i] == Part(p) {
      if bits[i].Part? && bits[i].index !in invalid {
        if bits[i].index < p {
          KeptOrdered(invalid, bits[i].index, p);
        } else if p < bits[i].index {
          KeptOrdered(invalid, p, bits[i].index);
        }
      }
    }
    IncreasingUnique(PositionsOf(r, Kept(invalid, p)), PositionsOf(bits, p));
  }

  // ------------------------------------------------------- inputs and locations

  datatype Source = Imm(part: nat) | Dest(id: nat)

  /** An input that is not the value of a removed part. */
  predicate Stays(source: Source, invalid: seq<nat>) { source.Imm? ==> source.part !in invalid }

  /** An input under the new number of its part. */
  function Renamed(source: Source, invalid: seq<nat>): Source
  {
    if source.Imm? then Imm(Kept(invalid, source.part)) else source
  }

  function FilterInputs(inputs: seq<Source>, invalid: seq<nat>): seq<Source>
  {
    if |inputs| == 0 then []
    else
      var n := |inputs| - 1;
      FilterInputs(inputs[..n], invalid) + if Stays(inputs[n], invalid) then [Renamed(inputs[n], invalid)] else []
  }

  /** The inputs of removed parts among the first `index`. */
  function RemovedBefore(inputs: seq<Source>, invalid: seq<nat>, index: nat): (r: nat)
    ensures r <= index
  {
    if index == 0 || |inputs| == 0 then 0
    else
      var n := |inputs| - 1;
      RemovedBefore(inputs[..n], invalid, if index <= n then index else n)
      + if n < index && !Stays(inputs[n], invalid) then 1 else 0
  }

  lemma {:induction false} FilteredLength(inputs: seq<Source>, invalid: seq<nat>)
    ensures |FilterInputs(inputs, invalid)| == |inputs| - RemovedBefore(inputs, invalid, |inputs|)
    decreases |inputs|
  {
    if |inputs| > 0 {
      FilteredLength(inputs[..|inputs| - 1], invalid);
    }
  }

  /** An index reduced by the removed inputs before it finds the same input, renamed. */
  lemma {:induction false} AdjustedIndex(inputs: seq<Source>, invalid: seq<nat>, index: nat)
    requires index < |inputs| && Stays(inputs[index], invalid)
    ensures var at := index - RemovedBefore(inputs, invalid, index);
            at < |FilterInputs(inputs, invalid)| && FilterInputs(inputs, invalid)[at] == Renamed(inputs[index], invalid)
    decreases |inputs|
  {
    var n := |inputs| - 1;
    if index < n {
      AdjustedIndex(inputs[..n], invalid, index);
    } else {
      FilteredLength(inputs[..n], invalid);
    }
  }

  datatype Location = Input(list: nat, index: nat) | Output(index: nat)

  datatype Mapping = ImmAt(locations: seq<Location>) | RegisterAt(locations: seq<Location>) | Computation

  datatype EncodingPart = EncodingPart(info: PartInfo, mapping: Mapping)

  /** A location finds an immediate of part `p`, or a storage location that the part selects. */
  predicate Finds(location: Location, mapping: Mapping, inputs: seq<seq<Source>>, p: nat)
  {
    match location
    case Output(_) => mapping.RegisterAt?
    case Input(list, index) =>
      && list < |inputs| && index < |inputs[list]|
      && (mapping.ImmAt? ==> inputs[list][index] == Imm(p))
      && (mapping.RegisterAt? ==> inputs[list][index].Dest?)
  }

  ghost predicate LocationsOk(parts: seq<EncodingPart>, inputs: seq<seq<Source>>)
  {
    forall p :: 0 <= p < |parts| && !parts[p].mapping.Computation? ==>
      forall k :: 0 <= k < |parts[p].mapping.locations| ==>
        Finds(parts[p].mapping.locations[k], parts[p].mapping, inputs, p)
  }

  ghost predicate ImmsKnown(inputs: seq<Source>, n: nat)
  {
    forall k :: 0 <= k < |inputs| && inputs[k].Imm? ==> inputs[k].part < n
  }

  lemma {:induction false} ImmsKept<T>(inputs: seq<Source>, invalid: seq<nat>, parts: seq<T>)
    requires ImmsKnown(inputs, |parts|)
    ensures ImmsKnown(FilterInputs(inputs, invalid), |Survivors(parts, invalid)|)
    decreases |inputs|
  {
    if |inputs| > 0 {
      var n := |inputs| - 1;
      ImmsKept(inputs[..n], invalid, parts);
      if inputs[n].Imm? && Stays(inputs[n], invalid) {
        SurvivorAt(parts, invalid, inputs[n].part);
      }
    }
  }

  /** The encoding's parts, bits and inputs agree. */
  ghost predicate EncodingOk(parts: seq<EncodingPart>, bits: seq<Bit>, inputs: seq<seq<Source>>, instr: Instruction)
  {
    && |bits| <= BitLen(instr)
    && (forall i :: 0 <= i < |bits| && bits[i].Part? ==> bits[i].index < |parts|)
    && (forall k :: 0 <= k < |inputs| ==> ImmsKnown(inputs[k], |parts|))
    && LocationsOk(parts, inputs)
  }

  function Adjusted(location: Location, inputs: seq<seq<Source>>, invalid: seq<nat>): Location
  {
    match location
    case Input(list, index) =>
      if list < |inputs| then Input(list, index - RemovedBefore(inputs[list], invalid, index)) else location
    case Output(_) => location
  }

  function AdjustedAll(locations: seq<Location>, inputs: seq<seq<Source>>, invalid: seq<nat>): (r: seq<Location>)
    ensures |r| == |locations| && forall k :: 0 <= k < |r| ==> r[k] == Adjusted(locations[k], inputs, invalid)
  {
    seq(|locations|, k requires 0 <= k < |locations| => Adjusted(locations[k], inputs, invalid))
  }

  function AdjustedPart(p: EncodingPart, inputs: seq<seq<Source>>, invalid: seq<nat>): EncodingPart
  {
    match p.mapping
    case Computation => p
    case ImmAt(locations) => p.(mapping := ImmAt(AdjustedAll(locations, inputs, invalid)))
    case RegisterAt(locations) => p.(mapping := RegisterAt(AdjustedAll(locations, inputs, invalid)))
  }

  method AdjustParts(parts: seq<EncodingPart>, inputs: seq<seq<Source>>, invalid: seq<nat>)
    returns (r: seq<EncodingPart>)
    ensures |r| == |parts| && forall p :: 0 <= p < |r| ==> r[p] == AdjustedPart(parts[p], inputs, invalid)
  {
    r := parts;
    for p := 0 to |parts|
      invariant |r| == |parts|
      invariant forall q :: 0 <= q < p ==> r[q] == AdjustedPart(parts[q], inputs, invalid)
      invariant forall q :: p <= q < |parts| ==> r[q] == parts[q]
    {
      r := r[p := AdjustedPart(r[p], inputs, invalid)];
    }
  }

  function FilterAll(inputs: seq<seq<Source>>, invalid: seq<nat>): (r: seq<seq<Source>>)
    ensures |r| == |inputs| && forall k :: 0 <= k < |r| ==> r[k] == FilterInputs(inputs[k], invalid)
  {
    seq(|inputs|, k requires 0 <= k < |inputs| => FilterInputs(inputs[k], invalid))
  }

  /** A location of part `p` follows its input to the new place, under the part's new number. */
  lemma LocationFollows(location: Location, mapping: Mapping, inputs: seq<seq<Source>>, invalid: seq<nat>, p: nat)
    requires Finds(location, mapping, inputs, p) && p !in invalid && !mapping.Computation?
    ensures Finds(Adjusted(location, inputs, invalid), mapping, FilterAll(inputs, invalid), Kept(invalid, p))
    ensures location.Input? ==>
              var to := Adjusted(location, inputs, invalid);
              FilterAll(inputs, invalid)[to.list][to.index] == Renamed(inputs[location.list][location.index], invalid)
  {
    if location.Input? {
      AdjustedIndex(inputs[location.list], invalid, location.index);
    }
  }

  /** `to` finds, among the filtered inputs, what `from` found before, under its new name. */
  ghost predicate Follows(from: Location, to: Location, inputs: seq<seq<Source>>, invalid: seq<nat>)
  {
    match from
    case Output(_) => to == from
    case Input(list, index) =>
      && list < |inputs| && index < |inputs[list]| && to.Input? && to.list == list
      && to.index < |FilterInputs(inputs[list], invalid)|
      && FilterInputs(inputs[list], invalid)[to.index] == Renamed(inputs[list][index], invalid)
  }

  /** Every location of part `p` follows its input to the part's new mapping. */
  ghost predicate MappingFollows(from: Mapping, to: Mapping, inputs: seq<seq<Source>>, invalid: seq<nat>)
  {
    match from
    case Computation => to == from
    case ImmAt(locations) =>
      && to.ImmAt? && |to.locations| == |locations|
      && forall k :: 0 <= k < |locations| ==> Follows(locations[k], to.locations[k], inputs, invalid)
    case RegisterAt(locations) =>
      && to.RegisterAt? && |to.locations| == |locations|
      && forall k :: 0 <= k < |locations| ==> Follows(locations[k], to.locations[k], inputs, invalid)
  }

  lemma PartFollows(parts: seq<EncodingPart>, inputs: seq<seq<Source>>, invalid: seq<nat>, p: nat)
    requires LocationsOk(parts, inputs) && p < |parts| && p !in invalid
    ensures MappingFollows(parts[p].mapping, AdjustedPart(parts[p], inputs, invalid).mapping, inputs, invalid)
  {
    var mapping := parts[p].mapping;
    if !mapping.Computation? {
      forall k | 0 <= k < |mapping.locations|
        ensures Follows(mapping.locations[k], Adjusted(mapping.locations[k], inputs, invalid), inputs, invalid)
      {
        assert Finds(mapping.locations[k], mapping, inputs, p);
        LocationFollows(mapping.locations[k], mapping, inputs, invalid, p);
      }
    }
  }

  lemma LocationsKept(parts: seq<EncodingPart>, inputs: seq<seq<Source>>, invalid: seq<nat>, r: seq<EncodingPart>)
    requires LocationsOk(parts, inputs)
    requires |r| == |Survivors(parts, invalid)|
    requires forall k :: 0 <= k < |r| ==> r[k] == AdjustedPart(Survivors(parts, invalid)[k], inputs, invalid)
    ensures LocationsOk(r, FilterAll(inputs, invalid))
  {
    forall q, k | 0 <= q < |r| && !r[q].mapping.Computation? && 0 <= k < |r[q].mapping.locations|
      ensures Finds(r[q].mapping.locations[k], r[q].mapping, FilterAll(inputs, invalid), q)
    {
      var p := SurvivorOrigin(parts, invalid, q);
      SurvivorAt(parts, invalid, p);
      assert r[q] == AdjustedPart(parts[p], inputs, invalid);
      assert Finds(parts[p].mapping.locations[k], parts[p].mapping, inputs, p);
      LocationFollows(parts[p].mapping.locations[k], parts[p].mapping, inputs, invalid, p);
    }
  }

  lemma LabelsKept(parts: seq<EncodingPart>, bits: seq<Bit>, instr: Instruction, invalid: seq<nat>, bits': seq<Bit>)
    requires |bits| <= BitLen(instr) && Relabelled(bits, bits', invalid, instr)
    requires forall i :: 0 <= i < |bits| && bits[i].Part? ==> bits[i].index < |parts|
    ensures forall i :: 0 <= i < |bits'| && bits'[i].Part? ==> bits'[i].index < |Survivors(parts, invalid)|
  {
    forall i | 0 <= i < |bits'| && bits'[i].Part? ensures bits'[i].index < |Survivors(parts, invalid)| {
      assert bits'[i] == RelabelledBit(bits[i], invalid, Nth(instr, i));
      SurvivorAt(parts, invalid, bits[i].index);
    }
  }

  /** What becomes of part `p`, if it is kept: it is found under its new number, adjusted; its
      locations follow their inputs; and it still matches its bits if it did. */
  ghost predicate PartKept(parts: seq<EncodingPart>, parts': seq<EncodingPart>, bits: seq<Bit>, bits': seq<Bit>,
                           inputs: seq<seq<Source>>, instr: Instruction, invalid: seq<nat>, p: nat)
    requires p < |parts| && |bits| <= BitLen(instr) && |bits'| <= BitLen(instr)
  {
    var q := Kept(invalid, p);
    && q < |parts'| && parts'[q] == AdjustedPart(parts[p], inputs, invalid)
    && MappingFollows(parts[p].mapping, parts'[q].mapping, inputs, invalid)
    && (Matches(parts[p].info, bits, p, instr) ==> Matches(parts'[q].info, bits', q, instr))
  }

  lemma PartIsKept(parts: seq<EncodingPart>, parts': seq<EncodingPart>, bits: seq<Bit>, bits': seq<Bit>,
                   inputs: seq<seq<Source>>, instr: Instruction, invalid: seq<nat>, p: nat)
    requires p < |parts| && p !in invalid && |bits| <= BitLen(instr) && Relabelled(bits, bits', invalid, instr)
    requires LocationsOk(parts, inputs) && |parts'| == |Survivors(parts, invalid)|
    requires forall k :: 0 <= k < |parts'| ==> parts'[k] == AdjustedPart(Survivors(parts, invalid)[k], inputs, invalid)
    ensures PartKept(parts, parts', bits, bits', inputs, instr, invalid, p)
  {
    SurvivorAt(parts, invalid, p);
    PartFollows(parts, inputs, invalid, p);
    PositionsKept(bits, bits', invalid, instr, p);
  }

  /** Removing the invalid parts leaves an encoding whose parts, bits and inputs agree again.  The
      parts left are those not named, in their order, each as before but for its locations, which
      follow their inputs; the bits of the others become fixed to the instruction's own. */
  method RemoveInvalidParts(parts: seq<EncodingPart>, bits: seq<Bit>, inputs: seq<seq<Source>>, instr: Instruction,
                            invalid: seq<nat>)
    returns (parts': seq<EncodingPart>, bits': seq<Bit>, inputs': seq<seq<Source>>)
    requires EncodingOk(parts, bits, inputs, instr) && Increasing(invalid) && Within(invalid, |parts|)
    ensures EncodingOk(parts', bits', inputs', instr)
    ensures |parts'| == |Survivors(parts, invalid)|
    ensures forall k :: 0 <= k < |parts'| ==> parts'[k] == AdjustedPart(Survivors(parts, invalid)[k], inputs, invalid)
    ensures forall p :: 0 <= p < |parts| && p !in invalid ==>
              PartKept(parts, parts', bits, bits', inputs, instr, invalid, p)
    ensures Relabelled(bits, bits', invalid, instr)
    ensures inputs' == FilterAll(inputs, invalid)
  {
    var remapping := Remapping(|parts|, invalid);
    var left := RemoveParts(parts, invalid);
    bits' := RelabelBits(bits, remapping, invalid, instr);
    parts' := AdjustParts(left, inputs, invalid);
    inputs' := FilterAll(inputs, invalid);
    LocationsKept(parts, inputs, invalid, parts');
    forall k | 0 <= k < |inputs'| ensures ImmsKnown(inputs'[k], |parts'|) {
      ImmsKept(inputs[k], invalid, parts);
    }
    LabelsKept(parts, bits, instr, invalid, bits');
    forall p | 0 <= p < |parts| && p !in invalid
      ensures PartKept(parts, parts', bits, bits', inputs, instr, invalid, p)
    {
      PartIsKept(parts, parts', bits, bits', inputs, instr, invalid, p);
    }
  }
}
