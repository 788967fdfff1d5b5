/** The list of differences found between two executions of an instruction: only differences that
    no other one contains are kept.
 */
module DiffList {
  import opened MachineInts

  const MAX_DIFFS_TO_KEEP := 123
  const MAX_MEMORY_ACCESS_OFFSET := 32

  datatype OracleError =
    | MemoryAccess(addr: int)
    | InstructionFetch(addr: int)
    | InvalidInstruction
    | GeneralFault
    | ComputationError
    | Unreliable
    | Timeout
    | MultipleInstructionsExecuted
    | ApiError(message: string)

  datatype Mismatch =
    | Reg(reg: nat, v1: nat, v2: nat)
    | Flag(flag: nat, b1: bool, b2: bool)
    | Xmm(xmm: nat, x1: seq<nat>, x2: seq<nat>)
    | XmmExceptionFlags(v1: nat, v2: nat)
    | XmmDaz(v1: nat, v2: nat)
    | X87Reg(x87: nat, x1: seq<nat>, x2: seq<nat>)
    | X87TopOfStack(v1: nat, v2: nat)
    | X87ExceptionFlags(v1: nat, v2: nat)
    | X87ConditionCodes(v1: nat, v2: nat)
    | X87TagWord(v1: nat, v2: nat)
    | Memory(addr: int, x1: seq<nat>, x2: seq<nat>)

  /** Mismatches that count as the same: for registers, flags and memory the place decides. */
  predicate Same(a: Mismatch, b: Mismatch)
  {
    match (a, b)
    case (Memory(_, _, _), Memory(_, _, _)) => true
    case (Reg(r1, _, _), Reg(r2, _, _)) => r1 == r2
    case (Flag(f1, _, _), Flag(f2, _, _)) => f1 == f2
    case (Xmm(r1, _, _), Xmm(r2, _, _)) => r1 == r2
    case (X87Reg(r1, _, _), X87Reg(r2, _, _)) => r1 == r2
    case (X87TagWord(_, _), X87TagWord(_, _)) => true
    case (X87TopOfStack(_, _), X87TopOfStack(_, _)) => true
    case (XmmExceptionFlags(_, _), XmmExceptionFlags(_, _)) => a == b
    case (XmmDaz(_, _), XmmDaz(_, _)) => a == b
    case (X87ExceptionFlags(_, _), X87ExceptionFlags(_, _)) => a == b
    case (X87ConditionCodes(_, _), X87ConditionCodes(_, _)) => a == b
    case _ => false
  }

  datatype DifferenceType =
    | OkOk(mismatches: seq<Mismatch>)
    | OkErr(error: OracleError)
    | ErrOk(error: OracleError)
    | ErrErr(e1: OracleError, e2: OracleError)

  predicate Has(ms: seq<Mismatch>, m: Mismatch) { exists k :: 0 <= k < |ms| && Same(ms[k], m) }

  /** All differences of `b` are also in `a`. */
  predicate Contains(a: DifferenceType, b: DifferenceType)
  {
    match (a, b)
    case (OkOk(m1), OkOk(m2)) => forall k :: 0 <= k < |m2| ==> Has(m1, m2[k])
    case (OkErr(e), OkErr(f)) => e == f
    case (ErrOk(e), ErrOk(f)) => e == f
    case (ErrErr(e1, e2), ErrErr(f1, f2)) => e1 == f1 && e2 == f2
    case _ => false
  }

  /** The sameness of mismatches is an equivalence. */
  lemma SameEquivalence(a: Mismatch, b: Mismatch, c: Mismatch)
    ensures Same(a, a)
    ensures Same(a, b) == Same(b, a)
    ensures Same(a, b) && Same(b, c) ==> Same(a, c)
  {
  }

  lemma ContainsReflexive(a: DifferenceType)
    ensures Contains(a, a)
  {
    if a.OkOk? {
      forall k | 0 <= k < |a.mismatches| ensures Has(a.mismatches, a.mismatches[k]) {
        SameEquivalence(a.mismatches[k], a.mismatches[k], a.mismatches[k]);
      }
    }
  }

  lemma ContainsTransitive(a: DifferenceType, b: DifferenceType, c: DifferenceType)
    requires Contains(a, b) && Contains(b, c)
    ensures Contains(a, c)
  {
    if a.OkOk? {
      var m1, m2, m3 := a.mismatches, b.mismatches, c.mismatches;
      forall k | 0 <= k < |m3| ensures Has(m1, m3[k]) {
        assert Has(m2, m3[k]);
        var j :| 0 <= j < |m2| && Same(m2[j], m3[k]);
        assert Has(m1, m2[j]);
        var i :| 0 <= i < |m1| && Same(m1[i], m2[j]);
        SameEquivalence(m1[i], m2[j], m3[k]);
      }
    }
  }

  // ------------------------------------------------- what containment means

  predicate HitsReg(ms: seq<Mismatch>, r: nat) { exists k :: 0 <= k < |ms| && ms[k].Reg? && ms[k].reg == r }
  predicate HitsFlag(ms: seq<Mismatch>, f: nat) { exists k :: 0 <= k < |ms| && ms[k].Flag? && ms[k].flag == f }
  predicate HitsXmm(ms: seq<Mismatch>, r: nat) { exists k :: 0 <= k < |ms| && ms[k].Xmm? && ms[k].xmm == r }
  predicate HitsX87(ms: seq<Mismatch>, r: nat) { exists k :: 0 <= k < |ms| && ms[k].X87Reg? && ms[k].x87 == r }
  predicate HitsMemory(ms: seq<Mismatch>) { exists k :: 0 <= k < |ms| && ms[k].Memory? }
  predicate HitsTagWord(ms: seq<Mismatch>) { exists k :: 0 <= k < |ms| && ms[k].X87TagWord? }
  predicate HitsTopOfStack(ms: seq<Mismatch>) { exists k :: 0 <= k < |ms| && ms[k].X87TopOfStack? }

  /** Mismatches of which the values matter. */
  predicate ByValue(m: Mismatch)
  {
    m.XmmExceptionFlags? || m.XmmDaz? || m.X87ExceptionFlags? || m.X87ConditionCodes?
  }

  /** Whatever mismatches in `b` does in `a`: the same registers and flags, memory, tag word and top of
      the stack, and the same values of the rest. */
  ghost predicate Keeps(a: seq<Mismatch>, b: seq<Mismatch>)
  {
    && (forall r :: HitsReg(b, r) ==> HitsReg(a, r)) && (forall f :: HitsFlag(b, f) ==> HitsFlag(a, f))
    && (forall r :: HitsXmm(b, r) ==> HitsXmm(a, r)) && (forall r :: HitsX87(b, r) ==> HitsX87(a, r))
    && (HitsMemory(b) ==> HitsMemory(a)) && (HitsTagWord(b) ==> HitsTagWord(a))
    && (HitsTopOfStack(b) ==> HitsTopOfStack(a)) && (forall m :: ByValue(m) && m in b ==> m in a)
  }

  /** Whether `m` has a counterpart in the list, by its own kind. */
  predicate Hits(ms: seq<Mismatch>, m: Mismatch)
  {
    match m
    case Reg(r, _, _) => HitsReg(ms, r)
    case Flag(f, _, _) => HitsFlag(ms, f)
    case Xmm(r, _, _) => HitsXmm(ms, r)
    case X87Reg(r, _, _) => HitsX87(ms, r)
    case Memory(_, _, _) => HitsMemory(ms)
    case X87TagWord(_, _) => HitsTagWord(ms)
    case X87TopOfStack(_, _) => HitsTopOfStack(ms)
    case _ => m in ms
  }

  lemma HasMeans(ms: seq<Mismatch>, m: Mismatch)
    ensures Has(ms, m) <==> Hits(ms, m)
  {
    if Has(ms, m) {
      var k :| 0 <= k < |ms| && Same(ms[k], m);
      assert ms[k] in ms;
    }
    if Hits(ms, m) {
      var k := HitAt(ms, m);
      assert Same(ms[k], m);
    }
  }

  lemma HitAt(ms: seq<Mismatch>, m: Mismatch) returns (k: nat)
    requires Hits(ms, m)
    ensures k < |ms| && (ByValue(m) ==> ms[k] == m)
    ensures match m
            case Reg(r, _, _) => ms[k].Reg? && ms[k].reg == r
            case Flag(f, _, _) => ms[k].Flag? && ms[k].flag == f
            case Xmm(r, _, _) => ms[k].Xmm? && ms[k].xmm == r
            case X87Reg(r, _, _) => ms[k].X87Reg? && ms[k].x87 == r
            case Memory(_, _, _) => ms[k].Memory?
            case X87TagWord(_, _) => ms[k].X87TagWord?
            case X87TopOfStack(_, _) => ms[k].X87TopOfStack?
            case _ => ms[k] == m
  {
    match m
    case Reg(r, _, _) => k :| 0 <= k < |ms| && ms[k].Reg? && ms[k].reg == r;
    case Flag(f, _, _) => k :| 0 <= k < |ms| && ms[k].Flag? && ms[k].flag == f;
    case Xmm(r, _, _) => k :| 0 <= k < |ms| && ms[k].Xmm? && ms[k].xmm == r;
    case X87Reg(r, _, _) => k :| 0 <= k < |ms| && ms[k].X87Reg? && ms[k].x87 == r;
    case Memory(_, _, _) => k :| 0 <= k < |ms| && ms[k].Memory?;
    case X87TagWord(_, _) => k :| 0 <= k < |ms| && ms[k].X87TagWord?;
    case X87TopOfStack(_, _) => k :| 0 <= k < |ms| && ms[k].X87TopOfStack?;
    case _ => k :| 0 <= k < |ms| && ms[k] == m;
  }

  lemma KeepsMeans(a: seq<Mismatch>, b: seq<Mismatch>)
    ensures Keeps(a, b) <==> forall k :: 0 <= k < |b| ==> Hits(a, b[k])
  {
    if Keeps(a, b) {
      forall k | 0 <= k < |b| ensures Hits(a, b[k]) {
        HitsItself(b, k);
      }
    }
    if forall k :: 0 <= k < |b| ==> Hits(a, b[k]) {
      forall r | HitsReg(b, r) ensures HitsReg(a, r) {
        var k :| 0 <= k < |b| && b[k].Reg? && b[k].reg == r;
        assert Hits(a, b[k]);
      }
      forall f | HitsFlag(b, f) ensures HitsFlag(a, f) {
        var k :| 0 <= k < |b| && b[k].Flag? && b[k].flag == f;
        assert Hits(a, b[k]);
      }
      forall r | HitsXmm(b, r) ensures HitsXmm(a, r) {
        var k :| 0 <= k < |b| && b[k].Xmm? && b[k].xmm == r;
        assert Hits(a, b[k]);
      }
      forall r | HitsX87(b, r) ensures HitsX87(a, r) {
        var k :| 0 <= k < |b| && b[k].X87Reg? && b[k].x87 == r;
        assert Hits(a, b[k]);
      }
      forall m | ByValue(m) && m in b ensures m in a {
        var k :| 0 <= k < |b| && b[k] == m;
        assert Hits(a, b[k]);
      }
    }
  }

  lemma HitsItself(ms: seq<Mismatch>, k: nat)
    requires k < |ms|
    ensures Hits(ms, ms[k])
  {
    assert ms[k] in ms;
  }

  /** One difference contains another exactly when all its mismatches are mismatches of the other, by
      place or by value; errors have to be the same. */
  lemma ContainsMeans(a: DifferenceType, b: DifferenceType)
    ensures Contains(a, b) <==>
            if a.OkOk? && b.OkOk? then Keeps(a.mismatches, b.mismatches) else a == b
  {
    if a.OkOk? && b.OkOk? {
      var m1, m2 := a.mismatches, b.mismatches;
      KeepsMeans(m1, m2);
      forall k | 0 <= k < |m2| ensures Has(m1, m2[k]) <==> Hits(m1, m2[k]) {
        HasMeans(m1, m2[k]);
      }
    }
  }

  // ------------------------------------------------------------- reporting

  datatype Difference = Difference(kind: DifferenceType, exampleBefore: nat)

  function Distance(a: int, b: int): int
  {
    if AsU64(a - b) <= AsU64(b - a) then AsU64(a - b) else AsU64(b - a)
  }

  /** Two failed accesses that are too close together to be reported. */
  predicate Close(d: DifferenceType)
  {
    d.ErrErr? && d.e1.MemoryAccess? && d.e2.MemoryAccess? && Distance(d.e1.addr, d.e2.addr) <= MAX_MEMORY_ACCESS_OFFSET
  }

  /** Two addresses are close exactly when one is at most 32 away from the other, around the end of the
      address space too. */
  lemma CloseExactly(a: int, b: int)
    requires 0 <= a < U64_MOD && 0 <= b < U64_MOD
    ensures Close(ErrErr(MemoryAccess(a), MemoryAccess(b))) <==>
            var apart := if a <= b then b - a else a - b; apart <= 32 || U64_MOD - apart <= 32
  {
  }

  predicate Covered(diffs: seq<Difference>, d: DifferenceType)
  {
    exists k :: 0 <= k < |diffs| && Contains(diffs[k].kind, d)
  }

  function Retained(diffs: seq<Difference>, d: DifferenceType): (r: seq<Difference>)
    ensures |r| <= |diffs|
    ensures forall x :: x in r <==> x in diffs && !Contains(d, x.kind)
  {
    if |diffs| == 0 then []
    else
      var n := |diffs| - 1;
      Retained(diffs[..n], d) + if Contains(d, diffs[n].kind) then [] else [diffs[n]]
  }

  predicate Reported(diffs: seq<Difference>, d: DifferenceType) { !Close(d) && !Covered(diffs, d) }

  function AfterReport(diffs: seq<Difference>, d: DifferenceType, before: nat): seq<Difference>
  {
    if !Reported(diffs, d) || |diffs| > MAX_DIFFS_TO_KEEP then diffs
    else Retained(diffs, d) + [Difference(d, before)]
  }

  class Diffs {
    var list: seq<Difference>

    constructor ()
      ensures list == []
    {
      list := [];
    }

    method AnyContains(d: DifferenceType) returns (found: bool)
      ensures found == Covered(list, d)
    {
      found := false;
      for i := 0 to |list|
        invariant found == exists k :: 0 <= k < i && Contains(list[k].kind, d)
      {
        if Contains(list[i].kind, d) {
          found := true;
        }
      }
    }

    method Retain(d: DifferenceType)
      modifies this
      ensures list == Retained(old(list), d)
    {
      var r: seq<Difference> := [];
      for i := 0 to |list|
        invariant list == old(list) && r == Retained(list[..i], d)
      {
        assert list[..i + 1][..i] == list[..i];
        if !Contains(d, list[i].kind) {
          r := r + [list[i]];
        }
      }
      assert list[..|list|] == list;
      list := r;
    }

    method TryReport(d: DifferenceType, before: nat) returns (reported: bool)
      modifies this
      ensures reported == Reported(old(list), d)
      ensures list == AfterReport(old(list), d, before)
    {
      if Close(d) {
        return false;
      }
      var known := AnyContains(d);
      if known {
        return false;
      }
      if |list| > MAX_DIFFS_TO_KEEP {
        return true;
      }
      Retain(d);
      list := list + [Difference(d, before)];
      reported := true;
    }
  }

  // ------------------------------------------------------------ over whole runs

  datatype Report = Report(kind: DifferenceType, before: nat)

  function Run(diffs: seq<Difference>, reports: seq<Report>): seq<Difference>
  {
    if |reports| == 0 then diffs
    else
      var n := |reports| - 1;
      AfterReport(Run(diffs, reports[..n]), reports[n].kind, reports[n].before)
  }

  /** No stored difference contains another. */
  ghost predicate Antichain(diffs: seq<Difference>)
  {
    forall i, j :: 0 <= i < |diffs| && 0 <= j < |diffs| && i != j ==> !Contains(diffs[i].kind, diffs[j].kind)
  }

  lemma AntichainAppend(diffs: seq<Difference>, x: Difference)
    requires Antichain(diffs)
    requires forall y :: y in diffs ==> !Contains(x.kind, y.kind) && !Contains(y.kind, x.kind)
    ensures Antichain(diffs + [x])
  {
    var r := diffs + [x];
    forall i, j | 0 <= i < |r| && 0 <= j < |r| && i != j ensures !Contains(r[i].kind, r[j].kind) {
      if i < |diffs| && j < |diffs| {
        assert r[i] == diffs[i] && r[j] == diffs[j];
      } else if i < |diffs| {
        assert diffs[i] in diffs;
      } else {
        assert diffs[j] in diffs;
      }
    }
  }

  lemma Apart(diffs: seq<Difference>, y: Difference)
    requires |diffs| > 0 && Antichain(diffs) && y in diffs[..|diffs| - 1]
    ensures !Contains(diffs[|diffs| - 1].kind, y.kind) && !Contains(y.kind, diffs[|diffs| - 1].kind)
  {
    var k :| 0 <= k < |diffs| - 1 && diffs[k] == y;
  }

  lemma AntichainPrefix(diffs: seq<Difference>)
    requires |diffs| > 0 && Antichain(diffs)
    ensures Antichain(diffs[..|diffs| - 1])
  {
  }

  lemma RetainedNext(diffs: seq<Difference>, d: DifferenceType)
    ensures |diffs| == 0 ==> Antichain(Retained(diffs, d))
    ensures var n := |diffs| - 1;
            |diffs| > 0 ==>
              Retained(diffs, d) ==
              if Contains(d, diffs[n].kind) then Retained(diffs[..n], d) else Retained(diffs[..n], d) + [diffs[n]]
  {
  }

  /** What is kept is part of the list, so it stays an antichain. */
  lemma {:induction false} RetainedAntichain(diffs: seq<Difference>, d: DifferenceType)
    requires Antichain(diffs)
    ensures Antichain(Retained(diffs, d))
    decreases |diffs|
  {
    hide Antichain, Contains, Retained;
    RetainedNext(diffs, d);
    if |diffs| > 0 {
      var n := |diffs| - 1;
      AntichainPrefix(diffs);
      RetainedAntichain(diffs[..n], d);
      if !Contains(d, diffs[n].kind) {
        forall y | y in Retained(diffs[..n], d)
          ensures !Contains(diffs[n].kind, y.kind) && !Contains(y.kind, diffs[n].kind)
        {
          Apart(diffs, y);
        }
        AntichainAppend(Retained(diffs[..n], d), diffs[n]);
      }
    }
  }

  lemma ReportAntichain(diffs: seq<Difference>, d: DifferenceType, before: nat)
    requires Antichain(diffs)
    ensures Antichain(AfterReport(diffs, d, before))
  {
    RetainedAntichain(diffs, d);
    if Reported(diffs, d) && |diffs| <= MAX_DIFFS_TO_KEEP {
      forall y | y in Retained(diffs, d) ensures !Contains(y.kind, d) {
        assert y in diffs;
      }
      AntichainAppend(Retained(diffs, d), Difference(d, before));
    }
  }

  /** A report loses nothing: what was covered stays covered. */
  lemma CoverageKept(diffs: seq<Difference>, d: DifferenceType, before: nat, x: DifferenceType)
    requires Covered(diffs, x)
    ensures Covered(AfterReport(diffs, d, before), x)
  {
    var k :| 0 <= k < |diffs| && Contains(diffs[k].kind, x);
    var after := AfterReport(diffs, d, before);
    if Reported(diffs, d) && |diffs| <= MAX_DIFFS_TO_KEEP {
      if Contains(d, diffs[k].kind) {
        ContainsTransitive(d, diffs[k].kind, x);
        assert after[|after| - 1].kind == d;
      } else {
        assert diffs[k] in Retained(diffs, d);
        var i :| 0 <= i < |Retained(diffs, d)| && Retained(diffs, d)[i] == diffs[k];
        assert after[i] == diffs[k];
      }
    }
  }

  /** After a report its difference is covered, except when it was close, or the list was full and
      did not cover it before. */
  lemma ReportCovers(diffs: seq<Difference>, d: DifferenceType, before: nat)
    ensures Covered(AfterReport(diffs, d, before), d) <==>
            Covered(diffs, d) || (!Close(d) && |diffs| <= 123)
  {
    var after := AfterReport(diffs, d, before);
    if Reported(diffs, d) && |diffs| <= MAX_DIFFS_TO_KEEP {
      ContainsReflexive(d);
      assert after[|after| - 1].kind == d;
    }
  }

  /** Every run from an empty list: no entry contains another, there are never more than the
      maximum and one, and every entry is one that was reported, with its example. */
  lemma {:induction false} RunInvariant(reports: seq<Report>)
    ensures Antichain(Run([], reports)) && |Run([], reports)| <= 124
    ensures forall d :: d in Run([], reports) ==> Report(d.kind, d.exampleBefore) in reports
    decreases |reports|
  {
    if |reports| > 0 {
      var n := |reports| - 1;
      var r := reports[n];
      RunInvariant(reports[..n]);
      ReportAntichain(Run([], reports[..n]), r.kind, r.before);
      assert forall x :: x in reports[..n] ==> x in reports;
    }
  }

  /** Coverage over any further run. */
  lemma {:induction false} CoverageForever(diffs: seq<Difference>, reports: seq<Report>, x: DifferenceType)
    requires Covered(diffs, x)
    ensures Covered(Run(diffs, reports), x)
    decreases |reports|
  {
    if |reports| > 0 {
      var n := |reports| - 1;
      CoverageForever(diffs, reports[..n], x);
      CoverageKept(Run(diffs, reports[..n]), reports[n].kind, reports[n].before, x);
    }
  }

  lemma {:induction false} RunConcat(diffs: seq<Difference>, a: seq<Report>, b: seq<Report>)
    ensures Run(diffs, a + b) == Run(Run(diffs, a), b)
    decreases |b|
  {
    hide AfterReport;
    if |b| == 0 {
      assert a + b == a;
    } else {
      var n := |b| - 1;
      RunConcat(diffs, a, b[..n]);
      assert (a + b)[..|a| + n] == a + b[..n];
    }
  }

  /** As long as the list never filled up, its entries cover everything reported that was not
      close: it holds the greatest of the differences seen. */
  lemma RunCovers(reports: seq<Report>, i: nat)
    requires i < |reports| && !Close(reports[i].kind)
    requires |Run([], reports[..i])| <= 123
    ensures Covered(Run([], reports), reports[i].kind)
  {
    var first := reports[..i + 1];
    assert first[..i] == reports[..i];
    ReportCovers(Run([], reports[..i]), reports[i].kind, reports[i].before);
    assert reports == first + reports[i + 1..];
    RunConcat([], first, reports[i + 1..]);
    CoverageForever(Run([], first), reports[i + 1..], reports[i].kind);
  }

  /** What was reported while the list was not full, and was not close, is in one entry at the end:
      every place it mismatched in together, or the same error. */
  lemma RunKeeps(reports: seq<Report>, i: nat) returns (k: nat)
    requires i < |reports| && !Close(reports[i].kind)
    requires |Run([], reports[..i])| <= 123
    ensures k < |Run([], reports)|
    ensures var entry, d := Run([], reports)[k].kind, reports[i].kind;
            if d.OkOk? then entry.OkOk? && Keeps(entry.mismatches, d.mismatches) else entry == d
  {
    RunCovers(reports, i);
    var list := Run([], reports);
    k :| 0 <= k < |list| && Contains(list[k].kind, reports[i].kind);
    ContainsMeans(list[k].kind, reports[i].kind);
  }

  /** At the end no entry has all the mismatches of another, nor the same error. */
  lemma RunEntriesDiffer(reports: seq<Report>, i: nat, j: nat)
    requires i < |Run([], reports)| && j < |Run([], reports)| && i != j
    ensures var a, b := Run([], reports)[i].kind, Run([], reports)[j].kind;
            if a.OkOk? && b.OkOk? then !Keeps(a.mismatches, b.mismatches) else a != b
  {
    RunInvariant(reports);
    ContainsMeans(Run([], reports)[i].kind, Run([], reports)[j].kind);
  }

  lemma PartKept(a: seq<Mismatch>, b: seq<Mismatch>)
    ensures Keeps(a + b, a) && Keeps(a + b, b)
  {
    KeepsMeans(a + b, a);
    KeepsMeans(a + b, b);
    forall k | 0 <= k < |a| ensures Hits(a + b, a[k]) {
      HitsItself(a + b, k);
      assert (a + b)[k] == a[k];
    }
    forall k | 0 <= k < |b| ensures Hits(a + b, b[k]) {
      HitsItself(a + b, |a| + k);
      assert (a + b)[|a| + k] == b[k];
    }
  }

  /** A difference with some of the mismatches of an entry is not reported and changes nothing. */
  lemma SmallerIgnored(diffs: seq<Difference>, i: nat, a: seq<Mismatch>, b: seq<Mismatch>, before: nat)
    requires i < |diffs| && diffs[i].kind == OkOk(a + b)
    ensures !Reported(diffs, OkOk(a)) && AfterReport(diffs, OkOk(a), before) == diffs
    ensures !Reported(diffs, OkOk(b)) && AfterReport(diffs, OkOk(b), before) == diffs
  {
    PartKept(a, b);
    ContainsMeans(OkOk(a + b), OkOk(a));
    ContainsMeans(OkOk(a + b), OkOk(b));
  }

  /** A difference that is reported replaces the entries with some of its mismatches, and no others. */
  lemma LargerReplaces(diffs: seq<Difference>, d: seq<Mismatch>, before: nat)
    requires Reported(diffs, OkOk(d)) && |diffs| <= 123
    ensures var after := AfterReport(diffs, OkOk(d), before);
            && |after| > 0 && after[|after| - 1] == Difference(OkOk(d), before)
            && forall x :: x in after[..|after| - 1] <==>
                 x in diffs && !(x.kind.OkOk? && Keeps(d, x.kind.mismatches))
  {
    var after := AfterReport(diffs, OkOk(d), before);
    assert after[..|after| - 1] == Retained(diffs, OkOk(d));
    forall x | x in diffs ensures Contains(OkOk(d), x.kind) <==> x.kind.OkOk? && Keeps(d, x.kind.mismatches) {
      ContainsMeans(OkOk(d), x.kind);
    }
  }
}
