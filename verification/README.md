# libLISA core, modelled and verified in Dafny

libLISA infers the semantics of CPU instructions from observations: it finds how the bits of an
instruction form parts, which addresses it accesses, synthesizes computations for its outputs from
observed cases, and normalizes those computations. This project models the hard core of that
pipeline and proves what each step keeps.

* **Expressions and their normalizer** (`Words`, `WordArithmetic`, `BitFields`, `Expressions`,
  `Demand`, `Rewrites`, `RewriteSoundness`, `Normalizer`, `NormalForms`, `Hazards`,
  `Counterexamples`). A 128-bit word is a
  sequence of 128 bits, least significant first; arithmetic goes through the integers modulo 2^128.
  The postfix evaluator, the reader from postfix code to trees, the printer back, the demand masks,
  all rewrite rules, the lookup-table rule and the ten-round normalizer are there. With its rules
  guarded against the cases listed below, the normalizer keeps the output bits of every program on
  every input; as it is written it is the guarded one, and keeps them, on all trees of which no step
  meets such a case. Beside that it is proved what normalizing achieves: constants are folded, no input
  appears, and a tree that reduction leaves as it is has none of the shapes that the rules remove.
* **Formulas over inputs** (`Predicates`, `Formulas`). Terms, conjunctions and disjunctions, their
  compilation to postfix programs, negation, conjunction and renumbering.
* **Address computations** (`OffsetConstraints`, `AddressSearch`). Sets of offset constraints and
  the search over all choices of terms.
* **Write orders** (`WriteOrder`). Grouping, combining and resolving which output is written last.
* **Encodings** (`Instructions`, `Parts`, `PartCreation`, `PartRemoval`, `BitOrder`, `MemoryOffsets`).
  Building parts from the changes that single bits cause, enumerating a part's variants, guessing bit
  orders, removing invalid parts, and the constant offset of a memory access.
* **Whole runs** (`SynthesisLoop`, `Validity`, `DiffList`, `Midpoint`). The counting in the synthesis
  loop, the batched validity check, the list of maximal differences, the multi-byte midpoint.

`Arithmetic`, `MachineInts`, `ByteStrings` and `Options` hold small helpers.

Objects whose methods update fields are classes (`ArgumentUse`, `TemplateBuffers`, `Disjunction`,
`Constraints`, `SynthesisItem`, `ObservationResults`, `Diffs`); loops over vectors and buffers are
methods with invariants, proved against functions about which the properties are then stated.

## What turned out false

The model keeps the code as it is, with arithmetic as in a build without overflow checks. Where a
property fails there is an input on which it does, and a lemma with the exact condition under which it
holds. For the rewrite rules the inputs are trees in `Counterexamples` on which one call of `reduce`
changes a demanded bit. The predicate `Hazard` collects what a guard has to exclude at a node: the rule
changes a demanded bit for some operands, it produces an operator out of range, or the source aborts.
`Safe` says that no step of a reduction meets one. That they exclude nothing else is proved in `Hazards`.

* A disjunction with a constant that covers a narrow operand becomes all ones, right exactly when
  every demanded bit lies under the combined mask (`OrSaturationExact`, `OrBroken`).
* A constant minus a sum that holds a constant becomes the negated difference, right exactly when
  bit 0 is the only demanded bit (`SubNegatesValue`, `NegatedDifferenceExact`, `SubBroken`).
* A field of a value shifted left by a constant beyond the field's skip loses the distance, right
  exactly when what is demanded are shifted-in zeros (`ConstShiftExact`, `ConstShiftBroken`).
* One bit of a constant shifted right becomes a wrapped-around table read, right exactly when no
  distance in the range of the shift wraps around to a set bit (`ShiftedConstExact`, `TableBroken`).
* An unsigned division by a power of two becomes an arithmetic shift, right exactly when no demanded
  bit is filled from the top (`UnsignedDivExact`, `UnsignedDivBroken`).
* The demand of a sign extension leaves out the sign bit, right exactly when no bit above the field is
  demanded or the sign bit is (`SignExtendDemandExact`, `SignExtendBroken`).
* The use mask of a signed input leaves out the sign bit in the same way, so that a lookup table can
  lack the entries for a set sign (`InputDemandExact`, `SignedLookupBroken`).
* Extraction with a negative run of selector bits yields a field of 128 bits, which is read as zero,
  right exactly when no demanded bit of the extraction is set (`NegativeRunExact`,
  `NegativeRunAlways`, `ExtractBroken`).
* The deposit and extract loops do not end for the selector `1 << 127`, and for no other
  (`LoopStallsExactly`).
* A part counts a bit whose place in an offset could not be guessed, although the bit is not labelled
  with the part. Size and labels agree exactly when no bit of the base was guessed in vain after one
  that could be labelled (`PartMatchesExactly`, `MiscountedPart`).
* A bit of an offset has its documented weight exactly when its number is below 64 (`OffsetMeans`),
  which a guessed number need not be (`GuessBeyondWidth`).
* A bit order is guessed with a period with which no positions can explain the known ones, and then
  says nothing about the true positions. Positions that explain them exist exactly when the differences
  of one period can be chosen to connect all known positions (`ExplainedExactly`); where each of these
  differences is known, exactly when they lead from every known position to all later ones
  (`StreamedExactly`). Known differences that clash are one way to fail (`ClashUnexplained`,
  `ClashingGuess`), a known position that is missed is another (`UnreachedGuess`).
* An offset that leads into a mapped page is in the page's interval exactly when the interval reaches
  it without passing the largest 64-bit number (`PageExact`, `LandsUnallowed`).
* The count of successful checks survives the addition of a case exactly in one situation, which the
  loop's synthesizers avoid (`CountKeptExactly`, `UnearnedCount`).
* The two validity paths disagree on instructions whose length is not a multiple of the alignment, in
  one range of decoded lengths (`PathsAgreeExactly`, `PathsDiffer`). No architecture in the repository
  is affected: all have an alignment of one byte, where the paths agree (`BytewisePathsAgree`).

## Model

| member | source | states |
|---|---|---|
| `WordArithmetic.ParityFlips` | liblisa/src/semantics/default/ops.rs:258-264 | the parity of zero is one, each of the lowest eight bits changes it and no other bit does |
| `WordArithmetic.ComparedByBits` | liblisa/src/semantics/default/ops.rs:625-640 | a signed comparison is decided by the highest bit in which the operands differ |
| `WordArithmetic.DivisionTruncates` | liblisa/src/semantics/default/ops.rs:462-482 | a signed division leaves less than the divisor, with the sign of the dividend; the one quotient that does not fit wraps around, and dividing by zero gives zero |
| `WordArithmetic.UnsignedDivisionMeans` | liblisa/src/semantics/default/ops.rs:483-503 | an unsigned division leaves less than the divisor, and dividing by zero gives zero |
| `BitFields.ExtractBits` | liblisa/src/semantics/default/ops.rs:708-729 | the loop that jumps from one set selector bit to the next gathers exactly the selected bits, for every selector but `1 << 127` |
| `BitFields.DepositBits` | liblisa/src/utils/mod.rs:66-83 | the loop places the low source bits, in order, at the set selector bits and clears all others, for every selector but `1 << 127` |
| `BitFields.DepositExtract` | liblisa/src/utils/mod.rs:66-83 | depositing what was extracted gives back the selected bits and clears the others |
| `BitFields.ExtractDeposit` | liblisa/src/semantics/default/ops.rs:708-729 | extracting what was deposited gives back as many low bits as the selector has set bits |
| `BitFields.ExtractRun` | liblisa-synth/src/normalizer.rs:1294-1313 | extraction under a run of selector bits is a field selection |
| `BitFields.LoopStallsExactly` | liblisa/src/utils/mod.rs:72-80 | one round leaves the selector unchanged, so that the loop does not end, exactly for `1 << 127` |
| `Expressions.EvaluateOnStack` | liblisa/src/semantics/default/mod.rs:250-260 | the evaluation loop gives the run of the whole program, absent when an operand or argument is missing |
| `Expressions.TreeFrom` | liblisa-synth/src/normalizer.rs:1403-1431 | the reading loop gives the tree on top of the final stack |
| `Expressions.TreeComputesProgram` | liblisa-synth/src/normalizer.rs:1403-1431 | every program that reads into a tree runs without a missing operand and computes exactly that tree, on all inputs |
| `Expressions.TemplateBuffers.CreateTemplate` | liblisa-synth/src/normalizer.rs:1338-1380 | the recursive emission appends to the three buffers what printing the tree adds to them |
| `Expressions.PrintRoundTrip` | liblisa-synth/src/normalizer.rs:1338-1431 | reading a printed tree back is the identity, for any nesting and any mix of small and pooled constants |
| `Expressions.PrintedProgramComputes` | liblisa-synth/src/normalizer.rs:1338-1380 | running the printed program gives the value of the tree |
| `Expressions.ConstantPooled` | liblisa-synth/src/normalizer.rs:1338-1380 | a constant is printed in place if and only if it is a signed byte, and else goes into the pool |
| `Demand.NumBitsSound` | liblisa-synth/src/normalizer.rs:194-254 | on inputs of their declared width no value of a tree has a bit at or above the computed width |
| `Demand.BinaryBitsTight` | liblisa-synth/src/normalizer.rs:194-254 | for every operator with two operands and all widths for which it can be reached, some operands reach the computed width: no smaller one would do |
| `Demand.UnaryBitsTight` | liblisa-synth/src/normalizer.rs:194-254 | the same for operators with one operand |
| `Demand.LeafBitsTight` | liblisa-synth/src/normalizer.rs:194-254 | the same for inputs, read signed or unsigned, and for constants |
| `Demand.UnaryDemand` | liblisa-synth/src/normalizer.rs:256-302 | operands that agree on the computed mask give results that agree on the demanded bits |
| `Demand.BinaryDemand` | liblisa-synth/src/normalizer.rs:256-302 | the same for operators with two operands other than shifts |
| `Demand.ShiftDemand` | liblisa-synth/src/normalizer.rs:256-302 | the same for shifts whose distance fits in the width of the distance operand |
| `Demand.SignExtendDemandExact` | liblisa-synth/src/normalizer.rs:256-302 | the mask of a sign extension determines the demanded bits if and only if no bit above the field is demanded or the sign bit is |
| `Demand.UnaryMaskTight` | liblisa-synth/src/normalizer.rs:256-302 | every bit demanded of the operand of a negation, test, crop, sign extension or field matters for a bit demanded of the result |
| `Demand.BitwiseMaskTight` | liblisa-synth/src/normalizer.rs:256-302 | the same for the operands of conjunction, disjunction and exclusive or |
| `Demand.AddMaskTight` | liblisa-synth/src/normalizer.rs:256-302 | the same for a sum, through a carry into the highest bit demanded |
| `Demand.ShiftMaskTight` | liblisa-synth/src/normalizer.rs:256-302 | the same for a shifted operand, by a distance in range |
| `RewriteSoundness.RewriteSound` | liblisa-synth/src/normalizer.rs:384-1316 | at every node that meets no hazard, applying the rules keeps every demanded bit on every input and keeps the tree well formed |
| `RewriteSoundness.OrSaturationExact` | liblisa-synth/src/normalizer.rs:577-603 | replacing a disjunction by all ones is right on each input if and only if all demanded bits lie under the combined mask |
| `RewriteSoundness.ShiftedConstExact` | liblisa-synth/src/normalizer.rs:676-702 | the table read is right for every distance below a limit if and only if no such distance wraps around to a set bit of the constant |
| `RewriteSoundness.ConstShiftExact` | liblisa-synth/src/normalizer.rs:720-732 | for every constant distance the rule keeps the demanded bits of every operand if and only if the distance is not beyond the skip or only shifted-in zeros are demanded |
| `RewriteSoundness.NegativeRunIsZero` | liblisa-synth/src/normalizer.rs:1294-1313 | for a negative run of selector bits the produced field has 128 bits and evaluates to zero |
| `RewriteSoundness.NegativeRunExact` | liblisa-synth/src/normalizer.rs:1294-1313 | on each input that field is right if and only if no demanded bit of the extraction is set |
| `RewriteSoundness.NegativeRunAlways` | liblisa-synth/src/normalizer.rs:1294-1313 | it is right for every operand if and only if no bit that the selector keeps is demanded |
| `RewriteSoundness.SubNegatesValue` | liblisa-synth/src/normalizer.rs:1205-1234 | where the rule for a constant minus a sum fires, it computes the difference the other way round |
| `RewriteSoundness.NegatedDifferenceExact` | liblisa-synth/src/normalizer.rs:1205-1234 | swapping the operands of a difference keeps the demanded bits of every operand if and only if bit 0 alone is demanded |
| `RewriteSoundness.UnsignedDivExact` | liblisa-synth/src/normalizer.rs:1261-1276 | shifting arithmetically instead of dividing keeps the demanded bits of every operand if and only if none is filled from the top |
| `RewriteSoundness.AddSound` | liblisa-synth/src/normalizer.rs:1046-1158 | all rules for sums, including those that regroup constants and replace carry-free sums by disjunctions, keep the demanded bits |
| `RewriteSoundness.IfZeroSound` | liblisa-synth/src/normalizer.rs:747-976 | all rules for conditionals, including nested ones with a common branch, keep the demanded bits |
| `RewriteSoundness.SelectSound` | liblisa-synth/src/normalizer.rs:649-739 | all rules for fields, also for reads of an empty table, keep the demanded bits outside their hazards |
| `Normalizer.ArgumentUse.UnionWith` | liblisa-synth/src/normalizer.rs:26-56 | merging use masks in place gives, for each input, the bits used by either side |
| `Normalizer.UsesSound` | liblisa-synth/src/normalizer.rs:305-382 | where sign bits are demanded with their copies, two inputs that agree on the collected use masks give the same demanded bits |
| `Normalizer.InputDemandExact` | liblisa-synth/src/normalizer.rs:305-382 | the use mask of a signed input determines the demanded bits if and only if no bit above its width is demanded or its sign bit is |
| `Normalizer.SignFreeCovered` | liblisa-synth/src/normalizer.rs:256-382 | in trees without sign extensions and signed inputs sign bits are always covered, whatever is demanded |
| `Normalizer.UsesWithinWidth` | liblisa-synth/src/normalizer.rs:305-382 | no use mask reaches beyond the declared width of its input |
| `Normalizer.Reduce` | liblisa-synth/src/normalizer.rs:305-382 | the recursion returns, in one pass, the reduced tree and the use masks of the original |
| `Normalizer.GuardedSound` | liblisa-synth/src/normalizer.rs:305-472 | for every well-formed tree, every input in range and every demand mask, the reduction whose rules are guarded against hazards agrees with the original on the demanded bits |
| `Normalizer.SafeIsGuarded` | liblisa-synth/src/normalizer.rs:305-472 | where no step meets a hazard the reduction as written is the guarded one |
| `Normalizer.ReducedSound` | liblisa-synth/src/normalizer.rs:305-472 | where no step meets a hazard the reduction as written agrees with the original on the demanded bits, on every input |
| `Normalizer.LookupShows` | liblisa-synth/src/normalizer.rs:384-472 | for every tree the lookup tree shows, in the demanded bit, the value of the tree on the used bits of the input alone |
| `Normalizer.LookupSound` | liblisa-synth/src/normalizer.rs:384-472 | a lookup table filled from any tree that keeps the demanded bit keeps it on every input, where sign bits are covered and the one used input is the only one left |
| `Normalizer.PropagateConstantsSound` | liblisa-synth/src/normalizer.rs:1318-1336 | folding constants changes no value on any input |
| `NormalForms.PropagateFolds` | liblisa-synth/src/normalizer.rs:1318-1336 | after folding no operator has constants for all its operands, and the inputs are the same |
| `NormalForms.ClosedFolds` | liblisa-synth/src/normalizer.rs:1318-1336 | a tree without inputs becomes one constant, its value |
| `Normalizer.GuardedRoundsSound` | liblisa-synth/src/normalizer.rs:1444-1460 | any number of guarded rounds keeps the demanded bits |
| `Normalizer.SafeRoundsAreGuarded` | liblisa-synth/src/normalizer.rs:1444-1460 | where no round meets a hazard the rounds as written are the guarded ones |
| `Normalizer.Normalize` | liblisa-synth/src/normalizer.rs:1444-1460 | reads, folds, reduces ten times and prints; fails exactly when the program does not read into a tree |
| `Normalizer.GuardedNormalizePreserves` | liblisa-synth/src/normalizer.rs:1444-1460 | for every program that reads into a well-formed tree and every input in range, the program normalized with guarded rules and the original both run, and agree on the output bits |
| `Normalizer.NormalizePreservesOutput` | liblisa-synth/src/normalizer.rs:1444-1460 | the same for the normalizer as written, where no step of the ten rounds meets a hazard |
| `NormalForms.ClosedNormalizes` | liblisa-synth/src/normalizer.rs:1444-1460 | a program that reads no input is normalized to exactly one operator, which pushes the demanded bits of its value |
| `NormalForms.NothingDemandedFolds` | liblisa-synth/src/normalizer.rs:305-309 | a tree of which nothing is demanded becomes the constant zero |
| `NormalForms.ReducedMentions` | liblisa-synth/src/normalizer.rs:305-472 | reduction brings in no input, whatever rules fire |
| `NormalForms.NormalizedMentions` | liblisa-synth/src/normalizer.rs:1444-1460 | the normalized tree mentions no input that the program does not |
| `NormalForms.StandsPlain` | liblisa-synth/src/normalizer.rs:384-1316 | a node that the rules leave as it is has none of the shapes they remove, described by values and widths: neutral and absorbing constants, powers of two, runs, constants to regroup, negations to push down, fields to merge or narrow, conditions to decide or merge |
| `NormalForms.SettledNormal` | liblisa-synth/src/normalizer.rs:305-472 | a tree that reduction leaves as it is throughout has no such shape anywhere, holds only demanded bits in its constants, and zero wherever nothing is demanded |
| `NormalForms.LookupSmall` | liblisa-synth/src/normalizer.rs:384-472 | where the lookup rule applies, at most eight nodes are left |
| `Hazards.SubHazardExact` | liblisa-synth/src/normalizer.rs:1205-1234 | for a constant minus a sum there is a hazard if and only if the rule is wrong for some value of the sum |
| `Hazards.UnsignedDivHazardExact` | liblisa-synth/src/normalizer.rs:1261-1276 | for an unsigned division by a power of two, if and only if the rule is wrong for some operand of the computed width |
| `Hazards.ExtractHazardExact` | liblisa-synth/src/normalizer.rs:1294-1313 | for an extraction, if and only if the field produced is out of range |
| `Hazards.TableHazardExact` | liblisa-synth/src/normalizer.rs:676-702 | for one bit of a constant shifted right, if and only if the table read is wrong at some distance in range |
| `Hazards.ConstShiftHazardExact` | liblisa-synth/src/normalizer.rs:720-732 | for a field of a constant shift, if and only if the rule is wrong for some operand or its skip is out of range |
| `Hazards.OtherFieldHazards` | liblisa-synth/src/normalizer.rs:649-739 | for other fields, if and only if a width does not fit in a byte, where the source aborts |
| `Hazards.HazardMoves` | liblisa-synth/src/normalizer.rs:384-1316 | there is a hazard only where a rule changes the node, or where the source aborts on a wide operand of a field |
| `Hazards.LookupHazardExact` | liblisa-synth/src/normalizer.rs:384-472 | a lookup is refused if and only if the reduced tree does not mention exactly the one used input, or the used bit is the one for which the deposit loop does not end |
| `Hazards.UnsignedExactly` | liblisa-synth/src/normalizer.rs:384-472 | a lookup reads its input unsigned if and only if the tree does somewhere |
| `Hazards.GuardedStands` | liblisa-synth/src/normalizer.rs:384-1316 | what guarded rewriting leaves as it is has none of the removed shapes or meets a hazard |
| `Hazards.SafeExactly` | liblisa-synth/src/normalizer.rs:305-472 | a reduction is safe if and only if at every subtree it visits, under the demand it visits it with, the sign is covered and no hazard is met |
| `Hazards.SafeRoundsExactly` | liblisa-synth/src/normalizer.rs:1444-1460 | rounds are safe if and only if each of them is, on the tree that the earlier ones give |
| `Hazards.SignFreeExactly` | liblisa-synth/src/normalizer.rs:256-382 | a tree counts as free of signs if and only if it has no sign extension and no signed input |
| `Counterexamples.OrBroken` | liblisa-synth/src/normalizer.rs:577-603 | a tree and input on which the disjunction rule changes a demanded bit |
| `Counterexamples.SubBroken` | liblisa-synth/src/normalizer.rs:1205-1234 | a tree and input on which the rule for a constant minus a sum changes a demanded bit |
| `Counterexamples.ConstShiftBroken` | liblisa-synth/src/normalizer.rs:720-732 | a tree and input on which the rule for a field of a constant shift changes a demanded bit |
| `Counterexamples.SignExtendBroken` | liblisa-synth/src/normalizer.rs:256-302 | a tree and input on which the demand of a sign extension changes a demanded bit |
| `Counterexamples.ReducedSignBit` | liblisa-synth/src/normalizer.rs:256-302 | for every operand and width, a single bit above the field of a sign extension is reduced to the constant zero |
| `Counterexamples.UnsignedDivBroken` | liblisa-synth/src/normalizer.rs:1261-1276 | a tree and input on which the division rule changes a demanded bit |
| `Counterexamples.TableBroken` | liblisa-synth/src/normalizer.rs:676-702 | a tree and input on which the table read of a shifted constant changes a demanded bit |
| `Counterexamples.ExtractBroken` | liblisa-synth/src/normalizer.rs:1294-1313 | a tree and input on which the extraction rule changes a demanded bit |
| `Counterexamples.SignedLookupBroken` | liblisa-synth/src/normalizer.rs:384-472 | a tree over one signed input, and an input, on which the lookup table changes the demanded bit |
| `Predicates.NumberInjective` | liblisa/src/semantics/default/computation.rs:465-484 | values of one type are equal if and only if they are read as equal numbers |
| `Predicates.NumberReads` | liblisa/src/semantics/default/computation.rs:465-484 | an integer is read as itself; of a byte string, bit `i` of what is read is in the byte `i / 8` from the end |
| `Predicates.WidthExact` | liblisa/src/semantics/default/computation.rs:465-484 | the width of a type is the least that all its values fit in |
| `Predicates.ChainPrograms` | liblisa/src/semantics/default/computation.rs:645-708 | the loop that grows the argument list while it renumbers holes gives the chained program |
| `Predicates.ChainShares` | liblisa/src/semantics/default/computation.rs:645-708 | chaining repeats no argument, if the second program has none twice |
| `Predicates.CombineTree` | liblisa/src/semantics/default/computation.rs:645-728 | combining two programs, with merged arguments and shifted constants, combines exactly their trees |
| `Predicates.CombineTrue` | liblisa/src/semantics/default/computation.rs:711-728 | the combined program holds on an input if and only if both, or either, of the programs do |
| `Predicates.NotProgramTree` | liblisa/src/semantics/default/computation.rs:731-744 | negating a program negates its tree |
| `Formulas.EmitCases` | liblisa-synth/src/predicate.rs:53-146 | the nested loops emit the comparison, conjunction and disjunction operators of every case |
| `Formulas.CaseProgramTree` | liblisa-synth/src/predicate.rs:53-146 | the emitted program reads into the disjunction over the cases of the conjunction over the inputs |
| `Formulas.FoldTermCorrect` | liblisa-synth/src/predicate.rs:53-167 | a folded term runs and holds on an input if and only if the term evaluates to true there |
| `Formulas.FoldConjunctionCorrect` | liblisa-synth/src/predicate.rs:282-300 | a folded conjunction holds if and only if all terms do, in whatever order its distinct terms are visited |
| `Formulas.FoldDisjunctionCorrect` | liblisa-synth/src/predicate.rs:399-418 | a folded disjunction holds if and only if some conjunction does |
| `Formulas.NegateComplements` | liblisa-synth/src/predicate.rs:195-214 | the negation of a term holds if and only if the term does not |
| `Formulas.NegateConjunctionComplements` | liblisa-synth/src/predicate.rs:322-329 | the negation of a conjunction holds if and only if the conjunction does not |
| `Formulas.Disjunction.AndAlso` | liblisa-synth/src/predicate.rs:442-452 | after distributing another disjunction in place, the formula holds exactly where both did |
| `Formulas.RemapPreserves` | liblisa-synth/src/predicate.rs:180-193 | renumbering a term together with its inputs does not change its value |
| `OffsetConstraints.IntersectExact` | liblisa-enc/src/accesses/computation.rs:42-60 | the intersection of two constraints has exactly the common offsets; none means there are none |
| `OffsetConstraints.AndDenotes` | liblisa-enc/src/accesses/computation.rs:78-106 | one call intersects the denoted set with the union of the supplied intervals |
| `OffsetConstraints.AndFixed` | liblisa-enc/src/accesses/computation.rs:78-106 | a fixed offset that both sides allow stays a fixed offset |
| `OffsetConstraints.Constraints.AndAlso` | liblisa-enc/src/accesses/computation.rs:78-106 | both code paths update the set to the same pairwise intersections |
| `OffsetConstraints.AndManyDenotes` | liblisa-enc/src/accesses/computation.rs:69-106 | after any sequence of calls the set denotes exactly the offsets that every call allows |
| `OffsetConstraints.RealOffsetSound` | liblisa-enc/src/accesses/computation.rs:112-114 | every real offset is allowed by every call |
| `OffsetConstraints.RealOffsetComplete` | liblisa-enc/src/accesses/computation.rs:112-114 | every offset that some call names exactly and all allow is a real offset |
| `AddressSearch.Advance` | liblisa-enc/src/accesses/computation.rs:211-222 | the in-place increment stops at the first digit that does not wrap and touches no other digit |
| `AddressSearch.NextRank` | liblisa-enc/src/accesses/computation.rs:211-222 | a step adds one to the rank of the counter; only the last combination wraps to the first |
| `AddressSearch.AllowedLands` | liblisa-enc/src/accesses/computation.rs:166-191 | with every offset that an observation's constraints allow, the computed address is the observed one or lies in a mapped page |
| `AddressSearch.PageExact` | liblisa-enc/src/accesses/computation.rs:166-191 | an offset that leads into a page is in the page's interval if and only if the interval reaches it without passing the largest signed number |
| `AddressSearch.LandingAllowed` | liblisa-enc/src/accesses/computation.rs:166-191 | every offset that leads to the observed address or a mapped page is allowed, if no page's interval passes the largest signed number |
| `AddressSearch.LandsUnallowed` | liblisa-enc/src/accesses/computation.rs:166-191 | an observation and an offset that leads into its page and is not allowed |
| `AddressSearch.CandidateSound` | liblisa-enc/src/accesses/computation.rs:166-191 | with every candidate offset, every observation computes its own address or one in a mapped page |
| `AddressSearch.CandidateComplete` | liblisa-enc/src/accesses/computation.rs:166-191 | an offset that one observation gave exactly and with which every observation computes its address or one in a mapped page is a candidate, if no page's interval passes the largest signed number |
| `AddressSearch.FindConstraints` | liblisa-enc/src/accesses/computation.rs:166-191 | stopping as soon as nothing is left gives the same set as adding all observations |
| `AddressSearch.Search` | liblisa-enc/src/accesses/computation.rs:142-226 | the loop ends, visits every choice of terms exactly once in counting order, and lists every accepted computation once and nothing else |
| `WriteOrder.ResolveOrder` | liblisa-synth/src/write_order.rs:295-318 | the result depends only on the set of requirements, not on the order in which it is listed |
| `WriteOrder.ResolvedCorrect` | liblisa-synth/src/write_order.rs:295-318 | an order is found if and only if the requirements have no cycle; it lists each output once, respects all requirements and is the lexicographically least such list |
| `WriteOrder.Group` | liblisa-synth/src/write_order.rs:218-234 | grouping loses and duplicates nothing, each group is connected through shared outputs, and different groups share none |
| `WriteOrder.ConnectedChain` | liblisa-synth/src/write_order.rs:218-234 | two orderings of one group are linked by a chain of its members, each writing an output that the one before it writes |
| `WriteOrder.ChainStays` | liblisa-synth/src/write_order.rs:218-234 | no such chain leads from one group into another, so that the groups are the components of what shared outputs link |
| `WriteOrder.CombineGroup` | liblisa-synth/src/write_order.rs:236-274 | combining fails exactly on different part lists; otherwise each key holds exactly the union of what the members list under it |
| `BitOrder.GuessHidden` | liblisa-enc/src/encoding.rs:77-167 | a guess equals the position in every periodic sequence of positions that explains the known ones |
| `BitOrder.GuessWith` | liblisa-enc/src/encoding.rs:77-167 | for one period a guess is found if and only if some known position leads to one, and it is the true position under that period |
| `BitOrder.RepeatsExactly` | liblisa-enc/src/encoding.rs:90-102 | a period fits if and only if no four known positions, in two neighbouring pairs a period apart, have differences that are not the same modulo 2^64 |
| `BitOrder.GuessFromExactly` | liblisa-enc/src/encoding.rs:105-163 | a known position leads to a guess if and only if every difference between it and the wanted one is known somewhere whole periods away |
| `BitOrder.GuessBitOrder` | liblisa-enc/src/encoding.rs:77-167 | there is no guess if and only if no period both fits and has such a position; otherwise it is the guess that starts from the nearest one below, or else above, with the least such period, and right for all positions that repeat with it |
| `BitOrder.GuessRight` | liblisa-enc/src/encoding.rs:77-167 | if the true positions repeat with some period, four known positions contradict every smaller one, and some known position leads to the wanted one, the guess is the true position |
| `BitOrder.ExplainedExactly` | liblisa-enc/src/encoding.rs:77-167 | for every list and period, some positions that repeat with the period agree with the known ones if and only if the differences of one period can be chosen so that they connect all known positions |
| `BitOrder.StreamedExactly` | liblisa-enc/src/encoding.rs:77-167 | where every difference of the period is known somewhere, such positions exist if and only if the differences the code collects lead from each known position to every later one |
| `BitOrder.ClashUnexplained` | liblisa-enc/src/encoding.rs:77-167 | one way to fail: no positions repeat with a period under which two known differences clash |
| `BitOrder.ClashingGuess` | liblisa-enc/src/encoding.rs:77-167 | known positions for which a clashing period is taken and a guess made |
| `BitOrder.UnreachedGuess` | liblisa-enc/src/encoding.rs:77-167 | known positions without a clash for which a guess is made although no positions explain them |
| `BitOrder.GuessBeyondWidth` | liblisa-enc/src/encoding.rs:77-167 | known positions below 64 that repeat and for which the guess is 64 |
| `Instructions.With` | liblisa/src/instr/mod.rs:269-276 | setting a bit counted from the right changes that bit and no other |
| `Instructions.NthOfNumber` | liblisa/src/instr/mod.rs:269-276 | the bits counted from the right are those of the big-endian number of the bytes, from the lowest |
| `Instructions.SettingAdds` | liblisa/src/instr/mod.rs:269-276 | setting a clear bit adds its weight to that number |
| `PartCreation.InsertImms` | liblisa/src/encoding/dataflows/mod.rs:331-366 | inserting an immediate into all targets aborts if and only if an access already holds one or is named twice; otherwise exactly the accesses named hold one more |
| `PartCreation.CreateParts` | liblisa-enc/src/encoding.rs:427-622 | building aborts if and only if some access would hold two immediates; otherwise none does, each part's size and value are those of the bits it collected, which share its base, every collected bit whose place is known or guessed from its peers is labelled with the part, and all others carry the instruction's own bit or do not matter; immediate values are maximal runs of consecutive bits, any other base has one part, and a part of an offset holds the order of each placed bit |
| `PartCreation.SightingsLabelled` | liblisa-enc/src/encoding.rs:427-622 | what was seen of a bit decides its label: none if it changed nothing, its own value if nothing usable or its place cannot be guessed, else a part for exactly what it changed |
| `PartCreation.PeersExactly` | liblisa-enc/src/encoding.rs:469-488 | a place is guessed from exactly the bits in the same offset of the same accesses, in order, with the places observed |
| `PartCreation.PlaceRight` | liblisa-enc/src/encoding.rs:468-494 | the place guessed is the true one where the observed places of the peers pin it down |
| `PartCreation.OrdersMatchLabels` | liblisa-enc/src/encoding.rs:448-500 | a part of an offset has one order entry per bit labelled with it, in their order, and each is that bit's own, whatever guesses failed |
| `PartCreation.OrderMovesAsObserved` | liblisa-enc/src/encoding.rs:491-500 | by its order entry, flipping a bit moves the address up or down by its weight as it was observed to |
| `PartCreation.GuessMovesUp` | liblisa-enc/src/encoding.rs:128-160 | a bit whose place was guessed moves the address up by its weight |
| `PartCreation.PartMatchesExactly` | liblisa-enc/src/encoding.rs:448-490 | a part's size is the number of bits labelled with it if and only if no bit of its base was guessed in vain after one that could be labelled; its value is then theirs |
| `PartCreation.MiscountedPart` | liblisa-enc/src/encoding.rs:448-490 | two observed changes, the place of the second unknown, for which no guess is made and the part built counts two bits and labels one |
| `Parts.EnumerateVariants` | liblisa-enc/src/encoding.rs:642-664 | two values give the same variant if and only if they agree in the labelled bits, a variant is the instruction itself if and only if its value is the instruction's own, and no other bit changes |
| `Parts.MatchingVariants` | liblisa-enc/src/encoding.rs:642-664 | for a matching part all variants are different and its own value stands for the instruction |
| `PartRemoval.Remapping` | liblisa-enc/src/encoding.rs:968-979 | parts that stay are numbered by how many stay before them, the others get no number |
| `PartRemoval.RemoveParts` | liblisa-enc/src/encoding.rs:981-983 | removing by index from the far end leaves exactly the valid parts, in order |
| `PartRemoval.RelabelBits` | liblisa-enc/src/encoding.rs:985-997 | bits of removed parts are fixed to the instruction's own, the others follow their part |
| `PartRemoval.PositionsKept` | liblisa-enc/src/encoding.rs:985-997 | a part that stays keeps exactly its bits under its new number |
| `PartRemoval.AdjustedIndex` | liblisa-enc/src/encoding.rs:1003-1049 | an input index reduced by the removed inputs before it finds the same input, renamed |
| `PartRemoval.RemoveInvalidParts` | liblisa-enc/src/encoding.rs:968-1106 | the parts left are those not named, in order, each as before but for its locations, every one of which finds the same input as before, renumbered; a part keeps its labelled bits and, if it matched, matches still; bits of removed parts become the instruction's own, and the inputs are those whose part stays |
| `MemoryOffsets.ExpectedOffset` | liblisa-enc/src/encoding.rs:1065-1082 | the wrapping sum over a part's labelled bits is the sum of their signed weights, taken at the bit number modulo 64; it is the documented offset when all numbers are below 64 |
| `MemoryOffsets.MemValue` | liblisa/src/encoding/mod.rs:1241-1251 | the same for the bits of a part value when an encoding is instantiated |
| `MemoryOffsets.OffsetMeans` | liblisa/src/encoding/bitpattern/mod.rs:105-113 | a set bit contributes its documented signed weight modulo 2^64 if and only if its number is below 64; a clear bit always contributes nothing |
| `MemoryOffsets.NewOffsets` | liblisa-enc/src/encoding.rs:1055-1094 | each access's new offset plus its contributions is as often the old offset as there are contributions; accesses without any get none |
| `MemoryOffsets.OneContribution` | liblisa-enc/src/encoding.rs:1055-1094 | where no access holds two immediates, an access that a part adds to gets exactly one contribution, that part's |
| `MemoryOffsets.AddressKept` | liblisa-enc/src/encoding.rs:1055-1094 | with one contribution, instantiating the part with the analysed instruction's own value gives the analysed address |
| `MemoryOffsets.BuiltAddressKept` | liblisa-enc/src/encoding.rs:1055-1114 | with the new offsets computed for the parts as built, also after parts were removed and bits relabelled, the own value of every part of an offset gives the analysed address of each access it adds to, whatever its bit numbers and however many guesses failed |
| `MemoryOffsets.UntouchedAccess` | liblisa-enc/src/encoding.rs:1055-1114 | an access that no part adds to gets no new offset |
| `SynthesisLoop.SynthesisItem.Check` | liblisa-synth/src/synthesis_loop.rs:97-140 | a check without a needed requester changes nothing; an answered one counts or resets all counters |
| `SynthesisLoop.SynthesisItem.CheckAndAddIfPossible` | liblisa-synth/src/synthesis_loop.rs:143-168 | the new state is that of an observation, and the case waits exactly when it was not found consistent and adding needs a requester |
| `SynthesisLoop.SynthesisItem.CheckAndAddWithRequester` | liblisa-synth/src/synthesis_loop.rs:170-222 | the new state is that of a check with a requester, counted twice when consistency needs one |
| `SynthesisLoop.RunAccounted` | liblisa-synth/src/synthesis_loop.rs:97-222 | over every run, from what happened and the synthesizer's answers alone: the cases held are exactly those checked with a requester and refuted, or observed, refuted or undecided and addable without one, in order; the waiting cases and every counter are what the answers add up to |
| `SynthesisLoop.CountIsEarned` | liblisa-synth/src/synthesis_loop.rs:97-222 | in every run the count is exactly the weighted number of cases checked since the last case was added, all consistent with the present hypothesis |
| `SynthesisLoop.CountKeptExactly` | liblisa-synth/src/synthesis_loop.rs:143-222 | a step that adds a case leaves a nonzero count if and only if it was an unanswered check of a synthesizer that adds without a requester, with a nonzero count |
| `SynthesisLoop.UnearnedCount` | liblisa-synth/src/synthesis_loop.rs:150-165 | for a synthesizer that needs a requester to check but not to add, any even count is reachable right after a case was added |
| `SynthesisLoop.Round` | liblisa-synth/src/synthesis_loop.rs:322-383 | a round is a run of its first observations in order, then of checks of the cases that wait, then its end; unless time is up or the synthesizer gives up, every observation is looked at or more than a thousand cases wait, and every waiting case is checked; the clock is read once per check, and once per observation passed over after giving up |
| `SynthesisLoop.Synthesize` | liblisa-synth/src/synthesis_loop.rs:293-419 | the run consists of one such stretch per round, all complete but perhaps the last, which is complete unless time is up or the synthesizer gave up; the clock is read exactly as often as rounds start and checks are made, with the observations passed over after giving up; the loop ends for one of the source's reasons; a computation is returned exactly when the agreeing answers since the last refutation reach five million at the end of this run, for the cases learned in it, and then the present hypothesis passed that many checks in a row, or half as many when consistency needs a requester |
| `Validity.InferMeans` | liblisa-enc/src/validity.rs:91-216 | on every machine: less than one unit is too short; else the verdict is that of the shortened form unless it failed to fetch the next byte, and then that of the whole; a fetch elsewhere is an error, and an invalid opcode an invalid instruction, each if and only if |
| `Validity.ThoroughMeans` | liblisa-enc/src/validity.rs:160-192 | the same for the thorough path, with the first shortened form that did not fail to fetch the next byte |
| `Validity.InferMeasuresLength` | liblisa-enc/src/validity.rs:91-216 | on a machine that decodes a given number of bytes the verdict is too long, too short or neither exactly as the length compares with it; if neither, it is invalid if and only if execution reports an invalid opcode, and valid otherwise |
| `Validity.ThoroughMeasuresLength` | liblisa-enc/src/validity.rs:160-192 | the same for the thorough path, against the longest shortened form it tries |
| `Validity.InferThorough` | liblisa-enc/src/validity.rs:169-192 | the loop over all shortened forms returns the first verdict that one of them gives, else that of the whole instruction |
| `Validity.PathsAgreeExactly` | liblisa-enc/src/validity.rs:160-216 | the thorough and the short path agree if and only if the decoded length is not between their longest shortened forms |
| `Validity.BytewisePathsAgree` | liblisa-enc/src/validity.rs:160-216 | with an alignment of one byte the two paths always agree |
| `Validity.PathsDiffer` | liblisa-enc/src/validity.rs:160-216 | with an alignment of four bytes, a machine on which the paths disagree about every instruction of six bytes |
| `Validity.ObservationResults.Next` | liblisa-enc/src/validity.rs:263-295 | each step gives the verdict of the next instruction from its own results and leaves exactly the results of the instructions left |
| `Validity.InferBatch` | liblisa-enc/src/validity.rs:218-295 | a batch gives one verdict per instruction, the one it gets on its own or excluded if out of scope, and uses up all results |
| `DiffList.SameEquivalence` | cli/liblisa-diff/src/state_diff.rs:76-99 | the custom equality of mismatches is an equivalence |
| `DiffList.ContainsMeans` | cli/liblisa-diff/src/state_diff.rs:62-99 | one difference contains another if and only if every register, flag, memory, tag word, top of stack and exact value that mismatches in the second does in the first; errors have to be the same |
| `DiffList.ContainsTransitive` | cli/liblisa-diff/src/state_diff.rs:62-74 | containment of differences is transitive over that equality |
| `DiffList.CloseExactly` | cli/liblisa-diff/src/diff.rs:54-66 | two failed accesses are too close if and only if their addresses are at most 32 apart, around the end of the address space too |
| `DiffList.Diffs.TryReport` | cli/liblisa-diff/src/diff.rs:54-91 | the list and the answer after a report, for close, known, surplus and new differences |
| `DiffList.SmallerIgnored` | cli/liblisa-diff/src/diff.rs:69-72 | a difference with some of the mismatches of an entry is not reported and changes nothing |
| `DiffList.LargerReplaces` | cli/liblisa-diff/src/diff.rs:85-90 | a reported difference takes the place of exactly the entries whose mismatches it has all of |
| `DiffList.ReportCovers` | cli/liblisa-diff/src/diff.rs:54-91 | after a report its difference is contained in an entry if and only if it was before, or it is not close and the list was not full |
| `DiffList.RunInvariant` | cli/liblisa-diff/src/diff.rs:54-91 | over any run from an empty list no entry contains another, there are at most 124, and each was reported with its example |
| `DiffList.CoverageForever` | cli/liblisa-diff/src/diff.rs:54-91 | a difference once contained in an entry stays contained over any further run |
| `DiffList.RunCovers` | cli/liblisa-diff/src/diff.rs:54-91 | every difference reported while the list was not full, and not close, is contained in an entry at the end |
| `DiffList.RunKeeps` | cli/liblisa-diff/src/diff.rs:54-91 | everything that mismatched in a report that met a list not full is, at the end of any run, mismatched together in one entry |
| `DiffList.RunEntriesDiffer` | cli/liblisa-diff/src/diff.rs:54-91 | at the end of any run no entry has all the mismatches of another |
| `Midpoint.Add` | cli/liblisa-libcli/src/enumerate.rs:390-401 | the carrying loop gives the sum of the two zero-padded values |
| `Midpoint.Halve` | cli/liblisa-libcli/src/enumerate.rs:403-416 | the loop with a remainder bit gives half the value, rounded down |
| `Midpoint.Compute` | cli/liblisa-libcli/src/enumerate.rs:389-417 | the result is half the sum of the two values, rounded down, and lies between the two in the order of byte strings |
| `Midpoint.OrderIsValue` | cli/liblisa-libcli/src/enumerate.rs:389-417 | byte strings of one length are ordered as their values are |

## Left out

- Normalizer.NormalizePreservesOutput: under the condition that no step meets a hazard, since it fails without one (see above); the result without a condition is that of the guarded rules. A whole tree may meet a hazard whose effect is masked further up.
- Normalizer.GuardedNormalizePreserves: the evaluation of `ExtractBits` and `DepositBits` by the selector `1 << 127` is taken as the function they stand for, although the source's loops do not end for it; a program that meets it at run time is not told apart. The guarded reducer builds no lookup with this selector.
- Normalizer.ReducedSound: under the condition that no step meets a hazard, since it fails without one.
- Normalizer.UsesSound: under the condition that sign bits are demanded with their copies, since it fails without one (`InputDemandExact`).
- Normalizer.LookupSound: the lookup rule aborts when its input is no longer in the tree or another one is; such trees are excluded by the condition.
- PartCreation.CreateParts: the registers and locations of a part's mapping are not modelled (its bit orders are), and changes of kinds on which the source aborts (`Multiple`, memory errors) are not part of the input.
- AddressSearch.CandidateComplete: pages whose interval would pass the largest signed number are excluded, since there the property fails (see above).
- Validity.InferBatch: machines report no interface failure and never several instructions, since the source aborts on both.
- SynthesisLoop.Synthesize: the two readings of the clock for one observation are taken as one; one output; with several, all share the observations and a round also ends when another output's queue is long, which makes the observations of a round a prefix.
- BitFields.ExtractBits: the selector `1 << 127` is excluded, because the loop does not end for it in an unchecked build.
- Operators not modelled: remainders, byte swaps, rotation, byte and bit masks, counts of set, leading and trailing bits, carry-less multiplication. The width computed for a signed remainder ignores negative dividends.
- Little-endian argument encodings, outputs wider than 128 bits and the precompiled evaluators.
- The conversions of indices to 16 and 8 bits that abort when they overflow, and the fixed capacity of the evaluation stack.
- Arithmetic is taken as in a build without overflow checks.
- Owned trees that the normalizer overwrites in place are values here; hash sets are visited in an arbitrary order, given as a listing.
- Cases with fewer values than the term has inputs.
- Shortening the midpoint at its first zero byte (cli/liblisa-libcli/src/enumerate.rs:420-425), through which no ordering carries.
- Oracles, state generation, timeouts as clock readings, randomness, caches, command lines, servers and the synthesizers themselves: they enter as parameters or are left out.
