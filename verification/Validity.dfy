/** Deciding whether a byte string is a whole instruction, from what happens when it is executed at
    the end of a page.
 */
module Validity {
  import opened Options
  import opened Arithmetic
  import opened MachineInts
  import opened ByteStrings

  /** Code at the end of a page: where it starts and its bytes. */
  datatype Placed = Placed(pc: int, data: seq<Byte>)

  datatype Observation =
    | Executed
    | MemoryAccess(addr: int)
    | InstructionFetch(addr: int)
    | InvalidOpcode
    | GeneralFault
    | ComputationError
    | Unreliable
    | Timeout
    | ApiError
    | MultipleInstructions

  datatype Verdict = TooShort | TooLong | InvalidInstruction | Excluded | Error | Valid

  /** The two reports that make the analysis stop altogether. */
  predicate Usable(o: Observation) { !o.ApiError? && !o.MultipleInstructions? }

  function After(s: Placed): int { AsU64(s.pc + |s.data|) }

  /** Verdict from executing a shortened instruction; none if fetching more of it failed, as hoped. */
  function CheckCropped(s: Placed, o: Observation): Option<Verdict>
    requires Usable(o)
  {
    match o
    case MemoryAccess(addr) => if addr == After(s) then None else Some(TooLong)
    case InstructionFetch(addr) => if addr == After(s) then None else Some(Error)
    case _ => Some(TooLong)
  }

  function CheckInstruction(s: Placed, o: Observation): Verdict
    requires Usable(o)
  {
    match o
    case MemoryAccess(addr) => if addr == After(s) then TooShort else Valid
    case InstructionFetch(addr) => if addr == After(s) then TooShort else Error
    case InvalidOpcode => InvalidInstruction
    case _ => Valid
  }

  // ----------------------------------------------------- one instruction at a time

  /** Where the whole instruction and its shortened form are placed. */
  datatype Placement = Placement(full: int, cropped: int)

  type Machine = m: Placed -> Observation | forall s :: Usable(m(s)) witness s => Executed

  /** The reliable path: the instruction short of one alignment unit, then the instruction. */
  function Infer(m: Machine, alignment: nat, instr: seq<Byte>, at: Placement): Verdict
    requires alignment > 0
  {
    if |instr| < alignment then TooShort
    else
      var whole := Placed(at.full, instr);
      if |instr| > alignment then
        var cropped := Placed(at.cropped, instr[..|instr| - alignment]);
        match CheckCropped(cropped, m(cropped))
        case Some(verdict) => verdict
        case None => CheckInstruction(whole, m(whole))
      else CheckInstruction(whole, m(whole))
  }

  /** The verdict of the first shortened form, from `len` bytes up, that has one. */
  function FirstCropped(m: Machine, alignment: nat, instr: seq<Byte>, at: Placement, len: nat): (r: Option<Verdict>)
    requires alignment > 0
    decreases |instr| - len
  {
    if len >= |instr| then None
    else
      var cropped := Placed(at.cropped, instr[..len]);
      match CheckCropped(cropped, m(cropped))
      case Some(verdict) => Some(verdict)
      case None => FirstCropped(m, alignment, instr, at, len + alignment)
  }

  /** The verdict of the first shortened form that has one, else that of the whole instruction. */
  function Thorough(m: Machine, alignment: nat, instr: seq<Byte>, at: Placement): Verdict
    requires alignment > 0
  {
    match FirstCropped(m, alignment, instr, at, alignment)
    case Some(v) => v
    case None => CheckInstruction(Placed(at.full, instr), m(Placed(at.full, instr)))
  }

  /** The path for machines whose fetch errors are unreliable: every shortened form is tried. */
  method InferThorough(m: Machine, alignment: nat, instr: seq<Byte>, at: Placement) returns (verdict: Verdict)
    requires alignment > 0
    ensures verdict == if |instr| < alignment then TooShort else Thorough(m, alignment, instr, at)
  {
    if |instr| < alignment {
      return TooShort;
    }
    var whole := Placed(at.full, instr);
    var len := alignment;
    while len < |instr|
      invariant FirstCropped(m, alignment, instr, at, len) == FirstCropped(m, alignment, instr, at, alignment)
    {
      var cropped := Placed(at.cropped, instr[..len]);
      match CheckCropped(cropped, m(cropped)) {
        case Some(v) => return v;
        case None =>
      }
      len := len + alignment;
    }
    verdict := CheckInstruction(whole, m(whole));
  }

  // -------------------------------------------- what the verdicts say about decoding

  ghost predicate FetchFails(s: Placed, o: Observation)
  {
    (o.MemoryAccess? || o.InstructionFetch?) && o.addr == (s.pc + |s.data|) % U64_MOD
  }

  /** A machine that decodes `needed` bytes of the instruction: with fewer it fails to fetch the
      next one, with as many it gets past fetching. */
  ghost predicate Decodes(m: Machine, instr: seq<Byte>, needed: nat)
  {
    forall pc: int, len: nat :: len <= |instr| ==> FetchesAt(m, instr, needed, pc, len)
  }

  ghost predicate FetchesAt(m: Machine, instr: seq<Byte>, needed: nat, pc: int, len: nat)
    requires len <= |instr|
  {
    var s := Placed(pc, instr[..len]);
    if len < needed then FetchFails(s, m(s)) else m(s) != MemoryAccess(After(s)) && !m(s).InstructionFetch?
  }

  /** The fetch of something other than the byte after the code failed. */
  ghost predicate FetchesElsewhere(s: Placed, o: Observation) { o.InstructionFetch? && !FetchFails(s, o) }

  /** What is read off one execution of the whole instruction. */
  ghost predicate IsWholeVerdict(s: Placed, o: Observation, v: Verdict)
  {
    && (v == TooShort <==> FetchFails(s, o))
    && (v == Error <==> FetchesElsewhere(s, o))
    && (v == InvalidInstruction <==> o == InvalidOpcode)
    && (v == Valid <==> !FetchFails(s, o) && !FetchesElsewhere(s, o) && o != InvalidOpcode)
  }

  /** What is read off one execution of a shortened form that did not fail to fetch the next byte. */
  ghost predicate IsCroppedVerdict(s: Placed, o: Observation, v: Verdict)
  {
    !FetchFails(s, o) && v == if FetchesElsewhere(s, o) then Error else TooLong
  }

  /** On every machine, whatever it decodes: less than one unit is too short; else the verdict is that of
      the shortened form, unless it failed to fetch the next byte, and then that of the whole
      instruction. */
  lemma InferMeans(m: Machine, alignment: nat, instr: seq<Byte>, at: Placement)
    requires alignment > 0
    ensures var v, whole := Infer(m, alignment, instr, at), Placed(at.full, instr);
            if |instr| < alignment then v == TooShort
            else if |instr| == alignment then IsWholeVerdict(whole, m(whole), v)
            else
              var cropped := Placed(at.cropped, instr[..|instr| - alignment]);
              if FetchFails(cropped, m(cropped)) then IsWholeVerdict(whole, m(whole), v)
              else IsCroppedVerdict(cropped, m(cropped), v)
  {
  }

  /** The same for the thorough path: the verdict is that of the first shortened form that did not
      fail to fetch the next byte, and if all failed, that of the whole instruction. */
  lemma ThoroughMeans(m: Machine, alignment: nat, instr: seq<Byte>, at: Placement) returns (k: nat)
    requires alignment > 0
    ensures k > 0
    ensures forall j :: 0 < j < k && j * alignment < |instr| ==>
              var s := Placed(at.cropped, instr[..j * alignment]); FetchFails(s, m(s))
    ensures var v, whole := Thorough(m, alignment, instr, at), Placed(at.full, instr);
            if k * alignment >= |instr| then IsWholeVerdict(whole, m(whole), v)
            else var s := Placed(at.cropped, instr[..k * alignment]); IsCroppedVerdict(s, m(s), v)
  {
    k := FirstStop(m, alignment, instr, at, 1);
  }

  lemma {:induction false} FirstStop(m: Machine, alignment: nat, instr: seq<Byte>, at: Placement, i: nat)
    returns (k: nat)
    requires alignment > 0
    ensures k >= i
    ensures forall j :: i <= j < k && j * alignment < |instr| ==>
              var s := Placed(at.cropped, instr[..j * alignment]); FetchFails(s, m(s))
    ensures var r := FirstCropped(m, alignment, instr, at, i * alignment);
            if k * alignment >= |instr| then r == None
            else
              var s := Placed(at.cropped, instr[..k * alignment]);
              r.Some? && IsCroppedVerdict(s, m(s), r.value)
    decreases |instr| - i * alignment
  {
    if i * alignment >= |instr| {
      k := i;
    } else {
      var s := Placed(at.cropped, instr[..i * alignment]);
      if FetchFails(s, m(s)) {
        MulNext(i, alignment);
        k := FirstStop(m, alignment, instr, at, i + 1);
      } else {
        k := i;
      }
    }
  }

  /** The instruction is found too long, too short, or neither, exactly as its length compares with
      the bytes decoded; if neither, it is invalid exactly when its execution reports so. */
  lemma InferMeasuresLength(m: Machine, alignment: nat, instr: seq<Byte>, at: Placement, needed: nat)
    requires alignment > 0 && |instr| >= alignment && Decodes(m, instr, needed)
    ensures var v := Infer(m, alignment, instr, at);
            && (v == TooLong <==> |instr| > alignment && needed <= |instr| - alignment)
            && (v == TooShort <==> needed > |instr|)
            && var fits := needed <= |instr| && (|instr| > alignment ==> needed > |instr| - alignment);
               var opcode := m(Placed(at.full, instr)) == InvalidOpcode;
               (v == InvalidInstruction <==> fits && opcode) && (v == Valid <==> fits && !opcode)
  {
    assert instr[..|instr|] == instr;
    assert FetchesAt(m, instr, needed, at.full, |instr|);
    if |instr| > alignment {
      assert FetchesAt(m, instr, needed, at.cropped, |instr| - alignment);
    }
  }

  /** The largest shortened length that the thorough path tries. */
  function LastTried(alignment: nat, n: nat): nat
    requires alignment > 0 && n > 0
  {
    (n - 1) / alignment * alignment
  }

  lemma {:induction false} FirstCroppedFinds(m: Machine, alignment: nat, instr: seq<Byte>, at: Placement,
                                            needed: nat, k: nat, len: nat)
    requires alignment > 0 && |instr| > 0 && Decodes(m, instr, needed) && len == k * alignment
    ensures FirstCropped(m, alignment, instr, at, len) ==
            if len < |instr| && needed <= LastTried(alignment, |instr|) then Some(TooLong) else None
    decreases |instr| - len
  {
    if len < |instr| {
      assert FetchesAt(m, instr, needed, at.cropped, len);
      TriedUpTo(alignment, |instr|, k);
      if len < needed {
        MulNext(k, alignment);
        FirstCroppedFinds(m, alignment, instr, at, needed, k + 1, len + alignment);
      }
    }
  }

  /** A multiple of the alignment is tried exactly when it is at most the largest one tried. */
  lemma TriedUpTo(alignment: nat, n: nat, k: nat)
    requires alignment > 0 && n > 0
    ensures k * alignment < n <==> k * alignment <= LastTried(alignment, n)
    ensures k * alignment < LastTried(alignment, n) ==> k * alignment + alignment <= LastTried(alignment, n) < n
  {
    var q := (n - 1) / alignment;
    assert q * alignment <= n - 1 < q * alignment + alignment;
    MulNext(k, alignment);
    MulNext(q, alignment);
    if k < q {
      MulMono(k + 1, q, alignment);
    } else {
      MulMono(q, k, alignment);
      if q < k {
        MulMono(q + 1, k, alignment);
      }
    }
  }

  /** The two paths agree on every instruction except those whose decoded length lies strictly above
      the one shortened form of the reliable path and not above the longest of the thorough path;
      when lengths are multiples of the alignment there are none. */
  lemma PathsAgreeExactly(m: Machine, alignment: nat, instr: seq<Byte>, at: Placement, needed: nat)
    requires alignment > 0 && |instr| >= alignment && Decodes(m, instr, needed)
    ensures Thorough(m, alignment, instr, at) == Infer(m, alignment, instr, at)
       <==> !(|instr| > alignment && |instr| - alignment < needed <= LastTried(alignment, |instr|))
    ensures |instr| % alignment == 0 ==> LastTried(alignment, |instr|) == |instr| - alignment
  {
    FirstCroppedFinds(m, alignment, instr, at, needed, 1, alignment);
    InferMeasuresLength(m, alignment, instr, at, needed);
    TriedUpTo(alignment, |instr|, 1);
    LastOfMultiple(alignment, |instr|);
    assert instr[..|instr|] == instr;
    assert FetchesAt(m, instr, needed, at.full, |instr|);
  }

  /** The thorough path measures the length against the longest shortened form that it tries. */
  lemma ThoroughMeasuresLength(m: Machine, alignment: nat, instr: seq<Byte>, at: Placement, needed: nat)
    requires alignment > 0 && |instr| >= alignment && Decodes(m, instr, needed)
    ensures var v, last := Thorough(m, alignment, instr, at), LastTried(alignment, |instr|);
            && (v == TooLong <==> |instr| > alignment && needed <= last)
            && (v == TooShort <==> needed > |instr|)
            && var fits := needed <= |instr| && (|instr| > alignment ==> needed > last);
               var opcode := m(Placed(at.full, instr)) == InvalidOpcode;
               (v == InvalidInstruction <==> fits && opcode) && (v == Valid <==> fits && !opcode)
  {
    FirstCroppedFinds(m, alignment, instr, at, needed, 1, alignment);
    LastOfMultiple(alignment, |instr|);
    assert instr[..|instr|] == instr;
    assert FetchesAt(m, instr, needed, at.full, |instr|);
  }

  /** With single bytes as the unit, as on every architecture there is, the paths always agree. */
  lemma BytewisePathsAgree(m: Machine, instr: seq<Byte>, at: Placement, needed: nat)
    requires |instr| >= 1 && Decodes(m, instr, needed)
    ensures Thorough(m, 1, instr, at) == Infer(m, 1, instr, at)
  {
    PathsAgreeExactly(m, 1, instr, at, needed);
  }

  /** A machine that decodes three bytes of everything. */
  const THREE_BYTES: Machine := (s: Placed) => if |s.data| < 3 then InstructionFetch(After(s)) else Executed

  /** With units of four bytes it is a witness: six bytes are too long by one path only. */
  lemma PathsDiffer(instr: seq<Byte>, at: Placement)
    requires |instr| == 6
    ensures Decodes(THREE_BYTES, instr, 3)
    ensures Thorough(THREE_BYTES, 4, instr, at) != Infer(THREE_BYTES, 4, instr, at)
  {
    PathsAgreeExactly(THREE_BYTES, 4, instr, at, 3);
  }

  lemma LastOfMultiple(alignment: nat, n: nat)
    requires alignment > 0 && n > 0
    ensures n - alignment <= LastTried(alignment, n) < n
    ensures n % alignment == 0 ==> LastTried(alignment, n) == n - alignment
  {
    var q, p := (n - 1) / alignment, n / alignment;
    assert q * alignment <= n - 1 < q * alignment + alignment;
    if n % alignment == 0 {
      assert n == p * alignment;
      MulNext(p - 1, alignment);
      TriedUpTo(alignment, n, p - 1);
    }
  }

  // --------------------------------------------------------------- whole batches

  datatype Observed = Observed(state: Placed, result: Observation)

  type Scope = seq<Byte> -> bool

  /** The observations asked for one instruction: none, the whole, or the shortened and the whole. */
  function StatesFor(alignment: nat, instr: seq<Byte>, at: Placement, scope: Scope): seq<Placed>
  {
    if |instr| < alignment || !scope(instr) then []
    else if |instr| > alignment then [Placed(at.cropped, instr[..|instr| - alignment]), Placed(at.full, instr)]
    else [Placed(at.full, instr)]
  }

  function Results(m: Machine, states: seq<Placed>): (r: seq<Observed>)
    ensures |r| == |states| && forall k :: 0 <= k < |r| ==> r[k] == Observed(states[k], m(states[k]))
  {
    seq(|states|, k requires 0 <= k < |states| => Observed(states[k], m(states[k])))
  }

  /** The results of a batch, in the order of the instructions. */
  function BatchResults(m: Machine, alignment: nat, instrs: seq<seq<Byte>>, places: seq<Placement>,
                        scope: Scope): seq<Observed>
    requires |instrs| == |places|
  {
    if |instrs| == 0 then []
    else Results(m, StatesFor(alignment, instrs[0], places[0], scope))
         + BatchResults(m, alignment, instrs[1..], places[1..], scope)
  }

  function BatchVerdict(m: Machine, alignment: nat, instr: seq<Byte>, at: Placement, scope: Scope): Verdict
    requires alignment > 0
  {
    if |instr| >= alignment && !scope(instr) then Excluded else Infer(m, alignment, instr, at)
  }

  /** Walks instructions and observation results side by side. */
  class ObservationResults {
    const alignment: nat
    const scope: Scope
    var instrs: seq<seq<Byte>>
    var results: seq<Observed>

    /** The results still to come are those of the instructions still to come. */
    ghost predicate Matched(m: Machine, places: seq<Placement>)
      reads this
    {
      alignment > 0 && |instrs| == |places| && results == BatchResults(m, alignment, instrs, places, scope)
    }

    constructor (alignment: nat, scope: Scope, instrs: seq<seq<Byte>>, results: seq<Observed>)
      ensures this.alignment == alignment && this.scope == scope && this.instrs == instrs && this.results == results
    {
      this.alignment, this.scope, this.instrs, this.results := alignment, scope, instrs, results;
    }

    method Take(ghost m: Machine) returns (r: Observed)
      requires |results| > 0 && results[0].result == m(results[0].state)
      modifies `results
      ensures r == old(results[0]) && results == old(results[1..]) && Usable(r.result)
    {
      r, results := results[0], results[1..];
    }

    /** The next verdict is that of the next instruction alone, and the results left are exactly
        those of the instructions left. */
    method Next(ghost m: Machine, ghost places: seq<Placement>) returns (verdict: Option<Verdict>)
      requires Matched(m, places)
      modifies `instrs, `results
      ensures |old(instrs)| == 0 ==> verdict.None? && instrs == [] && results == []
      ensures |old(instrs)| > 0 ==>
                && verdict == Some(BatchVerdict(m, alignment, old(instrs[0]), places[0], scope))
                && instrs == old(instrs[1..]) && Matched(m, places[1..])
    {
      if |instrs| == 0 {
        return None;
      }
      var instr := instrs[0];
      ghost var own := Results(m, StatesFor(alignment, instr, places[0], scope));
      ghost var rest := BatchResults(m, alignment, instrs[1..], places[1..], scope);
      assert results == own + rest;
      instrs := instrs[1..];
      if |instr| < alignment {
        assert own + rest == rest;
        return Some(TooShort);
      }
      if !scope(instr) {
        assert own + rest == rest;
        return Some(Excluded);
      }
      if |instr| > alignment {
        assert results[0] == own[0] && results[1] == own[1] && results[2..] == rest;
        var cropped := Take(m);
        var c := CheckCropped(cropped.state, cropped.result);
        if c.Some? {
          var _ := Take(m);
          return c;
        }
      } else {
        assert results[0] == own[0] && results[1..] == rest;
      }
      var whole := Take(m);
      verdict := Some(CheckInstruction(whole.state, whole.result));
    }
  }

  /** One verdict per instruction, each the one that the instruction gets on its own, and no result
      is left over. */
  method InferBatch(m: Machine, alignment: nat, instrs: seq<seq<Byte>>, places: seq<Placement>, scope: Scope)
    returns (verdicts: seq<Verdict>, leftover: nat)
    requires alignment > 0 && |instrs| == |places|
    ensures |verdicts| == |instrs| && leftover == 0
    ensures forall i :: 0 <= i < |instrs| ==> verdicts[i] == BatchVerdict(m, alignment, instrs[i], places[i], scope)
  {
    var iter := new ObservationResults(alignment, scope, instrs, BatchResults(m, alignment, instrs, places, scope));
    verdicts := [];
    while |verdicts| < |instrs|
      invariant fresh(iter) && iter.alignment == alignment && iter.scope == scope && |verdicts| <= |instrs|
      invariant iter.instrs == instrs[|verdicts|..] && iter.Matched(m, places[|verdicts|..])
      invariant forall i :: 0 <= i < |verdicts| ==>
                  verdicts[i] == BatchVerdict(m, alignment, instrs[i], places[i], scope)
    {
      ghost var k := |verdicts|;
      assert instrs[k..][1..] == instrs[k + 1..] && places[k..][1..] == places[k + 1..];
      var verdict := iter.Next(m, places[k..]);
      verdicts := verdicts + [verdict.value];
    }
    leftover := |iter.results|;
  }
}
