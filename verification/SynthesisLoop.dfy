/** The counterexample-guided synthesis loop: how checks of observed cases are counted, when a
    case is added, and what a returned computation has passed.
 */
module SynthesisLoop {
  import opened Options

  const NUM_OK_NEEDED := 5_000_000

  /** An input and the output observed for it. */
  type Case = nat

  /** A synthesizer as far as the loop can tell: what it answers after the cases it was given. */
  datatype Synthesizer = Synthesizer(
    needsForConsistency: seq<Case> -> bool,
    needsRequester: seq<Case> -> bool,
    consistent: (seq<Case>, Case) -> bool,
    hasHypothesis: seq<Case> -> bool,
    givenUp: seq<Case> -> bool)

  datatype Counters = Counters(cases: seq<Case>, numOk: nat, numNok: nat, numInstancesOk: nat, interesting: seq<Case>)

  const START := Counters([], 0, 0, 0, [])

  /** A check that was answered. */
  function Answered(c: Counters, consistent: bool): Counters
  {
    if consistent then c.(numNok := 0, numOk := c.numOk + 1)
    else c.(numNok := c.numNok + 1, numOk := 0, numInstancesOk := 0)
  }

  function Added(s: Synthesizer, c: Counters, x: Case): Counters
  {
    c.(interesting := c.interesting + if s.hasHypothesis(c.cases) then [x] else [], cases := c.cases + [x])
  }

  /** The answer to a check without a requester: none, if consistency needs one. */
  function Answer(s: Synthesizer, c: Counters, x: Case): Option<bool>
  {
    if s.needsForConsistency(c.cases) then None else Some(s.consistent(c.cases, x))
  }

  /** Whether an observed case has to wait for a requester. */
  predicate Waits(s: Synthesizer, c: Counters, x: Case)
  {
    Answer(s, c, x) != Some(true) && s.needsRequester(c.cases)
  }

  function Observed(s: Synthesizer, c: Counters, x: Case): Counters
  {
    match Answer(s, c, x)
    case None => if s.needsRequester(c.cases) then c else Added(s, c, x)
    case Some(true) => Answered(c, true)
    case Some(false) =>
      var c' := Answered(c, false);
      if s.needsRequester(c.cases) then c' else Added(s, c', x)
  }

  function PostChecked(s: Synthesizer, c: Counters, x: Case): Counters
  {
    if s.consistent(c.cases, x) then
      var c' := Answered(c, true);
      if s.needsForConsistency(c.cases) then Answered(c', true) else c'
    else Added(s, Answered(Answered(c, false), false), x)
  }

  /** The synthesizer's bookkeeping for one output. */
  class SynthesisItem {
    const synthesizer: Synthesizer
    var cases: seq<Case>
    var numOk: nat
    var numNok: nat
    var numInstancesOk: nat
    var interesting: seq<Case>

    function State(): Counters
      reads this
    {
      Counters(cases, numOk, numNok, numInstancesOk, interesting)
    }

    constructor (s: Synthesizer)
      ensures synthesizer == s && State() == START
    {
      synthesizer, cases, numOk, numNok, numInstancesOk, interesting := s, [], 0, 0, 0, [];
    }

    method Check(x: Case, requester: bool) returns (answer: Option<bool>)
      modifies this
      ensures answer == if requester then Some(synthesizer.consistent(old(cases), x))
              else Answer(synthesizer, old(State()), x)
      ensures State() == if answer.Some? then Answered(old(State()), answer.value) else old(State())
    {
      if synthesizer.needsForConsistency(cases) && !requester {
        return None;
      }
      var consistent := synthesizer.consistent(cases, x);
      if consistent {
        numNok, numOk := 0, numOk + 1;
      } else {
        numNok, numOk, numInstancesOk := numNok + 1, 0, 0;
      }
      answer := Some(consistent);
    }

    method AddCase(x: Case)
      modifies this
      ensures State() == Added(synthesizer, old(State()), x)
    {
      if synthesizer.hasHypothesis(cases) {
        interesting := interesting + [x];
      }
      cases := cases + [x];
    }

    method CheckAndAddIfPossible(x: Case) returns (done: bool)
      modifies this
      ensures State() == Observed(synthesizer, old(State()), x)
      ensures done == !Waits(synthesizer, old(State()), x)
    {
      var c := Check(x, false);
      if c != Some(true) {
        if synthesizer.needsRequester(cases) {
          return false;
        }
        AddCase(x);
      }
      done := true;
    }

    method CheckAndAddWithRequester(x: Case)
      modifies this
      ensures State() == PostChecked(synthesizer, old(State()), x)
    {
      var c := Check(x, true);
      var consistent := c.value;
      if synthesizer.needsForConsistency(cases) && consistent {
        numNok, numOk := 0, numOk + 1;
      }
      if !consistent {
        numNok, numOk, numInstancesOk := numNok + 1, 0, 0;
        AddCase(x);
      }
    }
  }

  // --------------------------------------------------------------------- runs

  /** The loop's state for one output: the counters and the cases that wait for a requester. */
  datatype LoopState = LoopState(counters: Counters, queue: seq<Case>)

  datatype Event = Observe(x: Case) | PostCheck | EndRound

  predicate Enabled(l: LoopState, e: Event) { e.PostCheck? ==> |l.queue| > 0 }

  function Step(s: Synthesizer, l: LoopState, e: Event): LoopState
    requires Enabled(l, e)
  {
    match e
    case Observe(x) =>
      LoopState(Observed(s, l.counters, x), l.queue + if Waits(s, l.counters, x) then [x] else [])
    case PostCheck => LoopState(PostChecked(s, l.counters, l.queue[0]), l.queue[1..])
    case EndRound =>
      var n := l.counters.numInstancesOk;
      LoopState(if l.counters.numOk > 0 then l.counters.(numInstancesOk := n + 1) else l.counters, [])
  }

  /** The states that a run goes through, none if some event is not possible. */
  function Run(s: Synthesizer, l: LoopState, events: seq<Event>): (r: Option<LoopState>)
    decreases |events|
  {
    if |events| == 0 then Some(l)
    else
      var n := |events| - 1;
      var before := Run(s, l, events[..n]);
      if before.None? || !Enabled(before.value, events[n]) then None else Some(Step(s, before.value, events[n]))
  }

  ghost predicate Possible(s: Synthesizer, l: LoopState, events: seq<Event>) { Run(s, l, events).Some? }

  function At(s: Synthesizer, l: LoopState, events: seq<Event>): LoopState
    requires Possible(s, l, events)
  {
    Run(s, l, events).value
  }

  lemma RunStep(s: Synthesizer, l: LoopState, events: seq<Event>, e: Event)
    requires Possible(s, l, events) && Enabled(At(s, l, events), e)
    ensures Possible(s, l, events + [e]) && At(s, l, events + [e]) == Step(s, At(s, l, events), e)
  {
    assert (events + [e])[..|events|] == events;
  }

  lemma {:induction false} RunConcat(s: Synthesizer, l: LoopState, a: seq<Event>, b: seq<Event>)
    requires Possible(s, l, a) && Possible(s, At(s, l, a), b)
    ensures Possible(s, l, a + b) && At(s, l, a + b) == At(s, At(s, l, a), b)
    decreases |b|
  {
    if |b| == 0 {
      assert a + b == a;
    } else {
      var n := |b| - 1;
      RunConcat(s, l, a, b[..n]);
      assert (a + b)[..|a| + n] == a + b[..n];
    }
  }

  // ------------------------------------------------- what a count of checks means

  /** The case that an event checks, if the check is answered. */
  function CheckedCase(s: Synthesizer, l: LoopState, e: Event): Option<Case>
    requires Enabled(l, e)
  {
    match e
    case Observe(x) => if s.needsForConsistency(l.counters.cases) then None else Some(x)
    case PostCheck => Some(l.queue[0])
    case EndRound => None
  }

  /** From event `k` on, no case was added and every check answered found the case consistent with
      what the synthesizer now holds; `confirmed` lists the cases so checked. */
  ghost predicate Confirmed(s: Synthesizer, events: seq<Event>, k: nat, confirmed: seq<Case>)
    decreases |events|
  {
    && k <= |events| && Possible(s, LoopState(START, []), events)
    && var final := At(s, LoopState(START, []), events).counters.cases;
       if k == |events| then confirmed == []
       else
         var n := |events| - 1;
         var before := At(s, LoopState(START, []), events[..n]);
         before.counters.cases == final
         && match CheckedCase(s, before, events[n])
            case None => Confirmed(s, events[..n], k, confirmed)
            case Some(x) =>
              && |confirmed| > 0 && confirmed[|confirmed| - 1] == x && s.consistent(final, x)
              && Confirmed(s, events[..n], k, confirmed[..|confirmed| - 1])
  }

  /** Each confirmation counts once, or twice when consistency needs a requester. */
  function Weighted(s: Synthesizer, cases: seq<Case>, n: nat): nat { if s.needsForConsistency(cases) then 2 * n else n }

  /** What the loop expects of a synthesizer: one that needs a requester to check also needs one
      to add. */
  ghost predicate WellBehaved(s: Synthesizer)
  {
    forall cases :: s.needsForConsistency(cases) ==> s.needsRequester(cases)
  }

  ghost predicate CountMeans(s: Synthesizer, events: seq<Event>, k: nat, confirmed: seq<Case>)
  {
    && Confirmed(s, events, k, confirmed)
    && var c := At(s, LoopState(START, []), events).counters;
       c.numOk == Weighted(s, c.cases, |confirmed|)
  }

  /** A step that leaves a count left the cases alone, and counted the check it made, if any. */
  lemma CountedStep(s: Synthesizer, l: LoopState, e: Event)
    requires WellBehaved(s) && Enabled(l, e) && Step(s, l, e).counters.numOk > 0
    ensures Step(s, l, e).counters.cases == l.counters.cases
    ensures CheckedCase(s, l, e).None? ==> Step(s, l, e).counters.numOk == l.counters.numOk
    ensures CheckedCase(s, l, e).Some? ==>
              && s.consistent(l.counters.cases, CheckedCase(s, l, e).value)
              && Step(s, l, e).counters.numOk == l.counters.numOk + Weighted(s, l.counters.cases, 1)
  {
    assert s.needsForConsistency(l.counters.cases) ==> s.needsRequester(l.counters.cases);
  }

  lemma ConfirmedStep(s: Synthesizer, events: seq<Event>, k: nat, confirmed: seq<Case>) returns (r: seq<Case>)
    requires |events| > 0 && Confirmed(s, events[..|events| - 1], k, confirmed)
             && Possible(s, LoopState(START, []), events)
    requires var before := At(s, LoopState(START, []), events[..|events| - 1]);
             && At(s, LoopState(START, []), events).counters.cases == before.counters.cases
             && Enabled(before, events[|events| - 1])
             && var checked := CheckedCase(s, before, events[|events| - 1]);
                checked.Some? ==> s.consistent(before.counters.cases, checked.value)
    ensures Confirmed(s, events, k, r)
    ensures var n := |events| - 1;
            var checked := CheckedCase(s, At(s, LoopState(START, []), events[..n]), events[n]);
            |r| == |confirmed| + if checked.Some? then 1 else 0
  {
    var checked := CheckedCase(s, At(s, LoopState(START, []), events[..|events| - 1]), events[|events| - 1]);
    r := confirmed;
    if checked.Some? {
      r := confirmed + [checked.value];
      assert r[..|r| - 1] == confirmed;
    }
  }

  /** In every run the count is exactly the number of cases checked since the last case was added,
      weighted, all of them consistent with the present hypothesis. */
  lemma {:induction false} CountIsEarned(s: Synthesizer, events: seq<Event>) returns (k: nat, confirmed: seq<Case>)
    requires WellBehaved(s) && Possible(s, LoopState(START, []), events)
    ensures CountMeans(s, events, k, confirmed)
    decreases |events|
  {
    if |events| == 0 {
      k, confirmed := 0, [];
    } else {
      var n := |events| - 1;
      var before := At(s, LoopState(START, []), events[..n]);
      var after := At(s, LoopState(START, []), events);
      if after.counters.numOk == 0 {
        k, confirmed := |events|, [];
      } else {
        k, confirmed := CountIsEarned(s, events[..n]);
        CountedStep(s, before, events[n]);
        confirmed := ConfirmedStep(s, events, k, confirmed);
      }
    }
  }

  /** A case is added without starting the count anew exactly when a check could not be answered,
      no requester was needed to add the case, and the count was not zero. */
  lemma CountKeptExactly(s: Synthesizer, l: LoopState, e: Event)
    requires Enabled(l, e) && Step(s, l, e).counters.cases != l.counters.cases
    ensures Step(s, l, e).counters.numOk != 0 <==>
            && s.needsForConsistency(l.counters.cases) && !s.needsRequester(l.counters.cases)
            && l.counters.numOk != 0 && e.Observe?
  {
  }

  // ------------------------------------------------- what a run learns and counts

  /** An answered check, with how much it counts, or the end of a round. */
  datatype Entry = Agrees(weight: nat) | Refutes(weight: nat) | RoundEnds

  /** The cases learned in a run, from what happened and what the synthesizer answers: a case checked
      with a requester that its cases so far refute, and an observed one that needs no requester to be
      added and that they refute or cannot decide. */
  function Learned(s: Synthesizer, events: seq<Event>): seq<Case>
    decreases |events|
  {
    if |events| == 0 then []
    else
      var n := |events| - 1;
      var known, waiting := Learned(s, events[..n]), Pending(s, events[..n]);
      match events[n]
      case Observe(x) =>
        if !s.needsRequester(known) && (s.needsForConsistency(known) || !s.consistent(known, x)) then known + [x]
        else known
      case PostCheck => if |waiting| > 0 && !s.consistent(known, waiting[0]) then known + [waiting[0]] else known
      case EndRound => known
  }

  /** The cases that wait: those observed in this round, not yet checked again, that the cases learned
      by then refute or cannot decide and that need a requester to be added. */
  function Pending(s: Synthesizer, events: seq<Event>): seq<Case>
    decreases |events|
  {
    if |events| == 0 then []
    else
      var n := |events| - 1;
      var known, waiting := Learned(s, events[..n]), Pending(s, events[..n]);
      match events[n]
      case Observe(x) =>
        if s.needsRequester(known) && (s.needsForConsistency(known) || !s.consistent(known, x)) then waiting + [x]
        else waiting
      case PostCheck => if |waiting| > 0 then waiting[1..] else []
      case EndRound => []
  }

  /** The learned cases that were added to a hypothesis. */
  function Revising(s: Synthesizer, cases: seq<Case>): seq<Case>
  {
    if |cases| == 0 then []
    else
      var n := |cases| - 1;
      Revising(s, cases[..n]) + if s.hasHypothesis(cases[..n]) then [cases[n]] else []
  }

  /** What one event adds to the list of answers. */
  function EntryOf(s: Synthesizer, known: seq<Case>, waiting: seq<Case>, e: Event): seq<Entry>
  {
    match e
    case Observe(x) =>
      if s.needsForConsistency(known) then [] else if s.consistent(known, x) then [Agrees(1)] else [Refutes(1)]
    case PostCheck =>
      if |waiting| == 0 then []
      else if !s.consistent(known, waiting[0]) then [Refutes(2)]
      else if s.needsForConsistency(known) then [Agrees(2)] else [Agrees(1)]
    case EndRound => [RoundEnds]
  }

  function Entries(s: Synthesizer, events: seq<Event>): seq<Entry>
  {
    if |events| == 0 then []
    else
      var n := |events| - 1;
      Entries(s, events[..n]) + EntryOf(s, Learned(s, events[..n]), Pending(s, events[..n]), events[n])
  }

  /** The agreeing answers since the last refutation, and the refutations since the last agreement. */
  function Agreement(entries: seq<Entry>): nat
  {
    if |entries| == 0 then 0
    else
      var n := |entries| - 1;
      match entries[n]
      case Agrees(w) => Agreement(entries[..n]) + w
      case Refutes(_) => 0
      case RoundEnds => Agreement(entries[..n])
  }

  function Refutation(entries: seq<Entry>): nat
  {
    if |entries| == 0 then 0
    else
      var n := |entries| - 1;
      match entries[n]
      case Agrees(_) => 0
      case Refutes(w) => Refutation(entries[..n]) + w
      case RoundEnds => Refutation(entries[..n])
  }

  /** The rounds that ended since the last refutation with some agreement. */
  function AgreeingRounds(entries: seq<Entry>): nat
  {
    if |entries| == 0 then 0
    else
      var n := |entries| - 1;
      match entries[n]
      case Agrees(_) => AgreeingRounds(entries[..n])
      case Refutes(_) => 0
      case RoundEnds => AgreeingRounds(entries[..n]) + if Agreement(entries[..n]) > 0 then 1 else 0
  }

  lemma NextEntry(entries: seq<Entry>, e: Entry)
    ensures Agreement(entries + [e]) ==
            match e case Agrees(w) => Agreement(entries) + w case Refutes(_) => 0 case RoundEnds => Agreement(entries)
    ensures Refutation(entries + [e]) ==
            match e case Agrees(_) => 0 case Refutes(w) => Refutation(entries) + w case RoundEnds => Refutation(entries)
    ensures AgreeingRounds(entries + [e]) ==
            match e case Agrees(_) => AgreeingRounds(entries) case Refutes(_) => 0
                    case RoundEnds => AgreeingRounds(entries) + if Agreement(entries) > 0 then 1 else 0
  {
    assert (entries + [e])[..|entries|] == entries;
  }

  /** The counters as the list of answers and the cases learned give them. */
  ghost predicate Accounted(s: Synthesizer, c: Counters, cases: seq<Case>, entries: seq<Entry>)
  {
    && c.cases == cases && c.interesting == Revising(s, cases)
    && c.numOk == Agreement(entries) && c.numNok == Refutation(entries) && c.numInstancesOk == AgreeingRounds(entries)
  }

  lemma AccountedStep(s: Synthesizer, l: LoopState, entries: seq<Entry>, e: Event)
    requires Enabled(l, e) && Accounted(s, l.counters, l.counters.cases, entries)
    ensures var r := Step(s, l, e).counters;
            Accounted(s, r, r.cases, entries + EntryOf(s, l.counters.cases, l.queue, e))
  {
    var c, next := l.counters, EntryOf(s, l.counters.cases, l.queue, e);
    var r := Step(s, l, e).counters;
    if |next| == 1 {
      NextEntry(entries, next[0]);
    } else {
      assert entries + next == entries;
    }
    if r.cases != c.cases {
      assert r.cases[..|c.cases|] == c.cases;
    }
  }

  lemma NothingAccounted(s: Synthesizer)
    ensures Accounted(s, START, Learned(s, []), Entries(s, [])) && Pending(s, []) == []
  {
  }

  lemma LearnedStep(s: Synthesizer, events: seq<Event>, before: LoopState)
    requires |events| > 0
    requires var n := |events| - 1;
             && Enabled(before, events[n]) && before.counters.cases == Learned(s, events[..n])
             && before.queue == Pending(s, events[..n])
    ensures var r := Step(s, before, events[|events| - 1]);
            r.counters.cases == Learned(s, events) && r.queue == Pending(s, events)
  {
  }

  /** Over every run the cases held are exactly those learned, in order, the cases that wait are those
      pending, and every counter is what the answers given add up to. */
  lemma {:induction false} RunAccounted(s: Synthesizer, events: seq<Event>)
    requires Possible(s, LoopState(START, []), events)
    ensures var l := At(s, LoopState(START, []), events);
            l.queue == Pending(s, events) && Accounted(s, l.counters, Learned(s, events), Entries(s, events))
    decreases |events|
  {
    hide Revising, EntryOf, Step, Learned, Pending, Agreement, Refutation, AgreeingRounds;
    if |events| == 0 {
      NothingAccounted(s);
    } else {
      var n := |events| - 1;
      RunAccounted(s, events[..n]);
      var before := At(s, LoopState(START, []), events[..n]);
      AccountedStep(s, before, Entries(s, events[..n]), events[n]);
      LearnedStep(s, events, before);
    }
  }

  // ------------------------------------------------------------ the loop itself

  /** The cases observed in a run, in order. */
  function ObservedIn(events: seq<Event>): seq<Case>
  {
    if |events| == 0 then []
    else
      var n := |events| - 1;
      ObservedIn(events[..n]) + if events[n].Observe? then [events[n].x] else []
  }

  function PostChecks(events: seq<Event>): nat
  {
    if |events| == 0 then 0 else PostChecks(events[..|events| - 1]) + if events[|events| - 1].PostCheck? then 1 else 0
  }

  lemma NextEvent(events: seq<Event>, e: Event)
    ensures ObservedIn(events + [e]) == ObservedIn(events) + if e.Observe? then [e.x] else []
    ensures PostChecks(events + [e]) == PostChecks(events) + if e.PostCheck? then 1 else 0
  {
    assert (events + [e])[..|events|] == events;
  }

  /** Observations in order. */
  function Observing(xs: seq<Case>): (r: seq<Event>)
    ensures |r| == |xs| && forall i :: 0 <= i < |xs| ==> r[i] == Observe(xs[i])
  {
    seq(|xs|, i requires 0 <= i < |xs| => Observe(xs[i]))
  }

  function Repeated(e: Event, n: nat): (r: seq<Event>)
    ensures |r| == n && forall i :: 0 <= i < n ==> r[i] == e
  {
    seq(n, i => e)
  }

  /** The order of a round: first the observations, then the cases that waited, then its end. */
  function InOrder(xs: seq<Case>, n: nat): seq<Event> { Observing(xs) + Repeated(PostCheck, n) + [EndRound] }

  /** The cases that wait after these observations. */
  function Waiting(s: Synthesizer, l: LoopState, xs: seq<Case>): seq<Case>
  {
    var after := Run(s, l, Observing(xs));
    if after.Some? then after.value.queue else []
  }

  /** All observations of a round are looked at, unless more than a thousand cases wait, and all cases
      that wait are checked again. */
  ghost predicate Complete(s: Synthesizer, l: LoopState, round: Option<seq<Case>>, run: seq<Event>)
  {
    round.Some? ==>
      var waiting := Waiting(s, l, ObservedIn(run));
      (ObservedIn(run) == round.value || |waiting| > 1000) && PostChecks(run) == |waiting|
  }

  /** One round: observations are checked in turn, those that wait are checked again with a
      requester.  `polls` is how often the clock can be read before it says that time is up. */
  method Round(item: SynthesisItem, observations: seq<Case>, polls: nat)
    returns (left: nat, seen: nat, ghost events: seq<Event>)
    modifies item
    ensures events == InOrder(ObservedIn(events), PostChecks(events))
    ensures polls == left + seen + PostChecks(events) && |ObservedIn(events)| <= seen <= |observations|
    ensures !item.synthesizer.givenUp(item.cases) ==> seen == |ObservedIn(events)|
    ensures var l := LoopState(old(item.State()), []);
            Possible(item.synthesizer, l, events) && At(item.synthesizer, l, events) == LoopState(item.State(), [])
    ensures ObservedIn(events) <= observations
    ensures left > 0 && !item.synthesizer.givenUp(item.cases) ==>
              Complete(item.synthesizer, LoopState(old(item.State()), []), Some(observations), events)
  {
    hide Run, ObservedIn, PostChecks;
    ghost var s, l := item.synthesizer, LoopState(item.State(), []);
    var queue: seq<Case>;
    left, seen, queue, events := ObserveAll(item, observations, polls, l);
    ghost var xs := ObservedIn(events);
    assert Waiting(s, l, xs) == queue;
    left, events := PostCheckAll(item, queue, left, l, events);
    RunStep(s, l, events, EndRound);
    NextEvent(events, EndRound);
    events := events + [EndRound];
    assert ObservedIn(events) == xs;
    if item.numOk > 0 {
      item.numInstancesOk := item.numInstancesOk + 1;
    }
  }

  lemma NoEvents(s: Synthesizer, l: LoopState)
    ensures Possible(s, l, []) && At(s, l, []) == l
    ensures ObservedIn([]) == [] && PostChecks([]) == 0 && Observing([]) == []
  {
  }

  lemma ObservingNext(xs: seq<Case>, x: Case)
    ensures Observing(xs + [x]) == Observing(xs) + [Observe(x)]
  {
  }

  method ObserveAll(item: SynthesisItem, observations: seq<Case>, polls: nat, ghost l: LoopState)
    returns (left: nat, seen: nat, queue: seq<Case>, ghost events: seq<Event>)
    requires l == LoopState(item.State(), [])
    modifies item
    ensures polls == left + seen && |ObservedIn(events)| <= seen <= |observations|
    ensures events == Observing(ObservedIn(events))
    ensures item.synthesizer.givenUp(item.cases) || seen == |ObservedIn(events)|
    ensures Possible(item.synthesizer, l, events) && At(item.synthesizer, l, events) == LoopState(item.State(), queue)
    ensures ObservedIn(events) <= observations && PostChecks(events) == 0
    ensures left > 0 && !item.synthesizer.givenUp(item.cases) ==> ObservedIn(events) == observations || |queue| > 1000
  {
    hide Run, ObservedIn, PostChecks, Observing;
    left, seen, queue, events := polls, 0, [], [];
    NoEvents(item.synthesizer, l);
    var i := 0;
    while i < |observations|
      invariant 0 <= i <= |observations| && polls == left + seen && seen == i && PostChecks(events) == 0
      invariant ObservedIn(events) <= observations && |ObservedIn(events)| <= i
      invariant events == Observing(ObservedIn(events))
      invariant item.synthesizer.givenUp(item.cases) || ObservedIn(events) == observations[..i]
      invariant Possible(item.synthesizer, l, events)
                && At(item.synthesizer, l, events) == LoopState(item.State(), queue)
    {
      if left == 0 {
        break;
      }
      left, seen := left - 1, seen + 1;
      if !item.synthesizer.givenUp(item.cases) {
        RunStep(item.synthesizer, l, events, Observe(observations[i]));
        NextEvent(events, Observe(observations[i]));
        ObservingNext(ObservedIn(events), observations[i]);
        events := events + [Observe(observations[i])];
        var done := item.CheckAndAddIfPossible(observations[i]);
        if !done {
          queue := queue + [observations[i]];
        }
      }
      if |queue| > 1000 {
        break;
      }
      i := i + 1;
    }
  }

  method PostCheckAll(item: SynthesisItem, waiting: seq<Case>, polls: nat, ghost l: LoopState, ghost before: seq<Event>)
    returns (left: nat, ghost events: seq<Event>)
    requires Possible(item.synthesizer, l, before)
             && At(item.synthesizer, l, before) == LoopState(item.State(), waiting)
    modifies item
    ensures polls + PostChecks(before) == left + PostChecks(events) && PostChecks(before) <= PostChecks(events)
    ensures events == before + Repeated(PostCheck, PostChecks(events) - PostChecks(before))
    ensures Possible(item.synthesizer, l, events) && At(item.synthesizer, l, events).counters == item.State()
    ensures ObservedIn(events) == ObservedIn(before)
    ensures item.synthesizer.givenUp(old(item.cases)) ==> item.cases == old(item.cases)
    ensures left > 0 && !item.synthesizer.givenUp(item.cases) ==> PostChecks(events) == PostChecks(before) + |waiting|
  {
    hide Run, ObservedIn, PostChecks;
    left, events := polls, before;
    var queue := waiting;
    while |queue| > 0
      invariant PostChecks(before) <= PostChecks(events)
      invariant events == before + Repeated(PostCheck, PostChecks(events) - PostChecks(before))
      invariant polls + PostChecks(before) == left + PostChecks(events) && ObservedIn(events) == ObservedIn(before)
      invariant item.synthesizer.givenUp(old(item.cases)) ==> item.cases == old(item.cases)
      invariant PostChecks(events) + |queue| == PostChecks(before) + |waiting|
      invariant Possible(item.synthesizer, l, events)
                && At(item.synthesizer, l, events) == LoopState(item.State(), queue)
    {
      if left == 0 || item.synthesizer.givenUp(item.cases) {
        break;
      }
      left := left - 1;
      RunStep(item.synthesizer, l, events, PostCheck);
      NextEvent(events, PostCheck);
      events := events + [PostCheck];
      item.CheckAndAddWithRequester(queue[0]);
      queue := queue[1..];
    }
  }

  /** What the loop returns at the end of a run. */
  ghost predicate ResultOf(s: Synthesizer, events: seq<Event>, r: Option<seq<Case>>)
  {
    && Possible(s, LoopState(START, []), events)
    && var c := At(s, LoopState(START, []), events).counters;
       r == if c.numOk >= NUM_OK_NEEDED then Some(c.cases) else None
  }

  /** The same from what happened alone. */
  ghost predicate ResultFrom(s: Synthesizer, events: seq<Event>, r: Option<seq<Case>>)
  {
    r == if Agreement(Entries(s, events)) >= 5_000_000 then Some(Learned(s, events)) else None
  }

  /** The present hypothesis has passed enough checks in a row. */
  ghost predicate Earned(s: Synthesizer, events: seq<Event>, cases: seq<Case>)
  {
    exists k, confirmed :: Confirmed(s, events, k, confirmed) && Weighted(s, cases, |confirmed|) >= 5_000_000
  }

  // A run of the loop, round by round: `runs[i]` are the events of round `i`.

  function Joined(runs: seq<seq<Event>>): seq<Event>
  {
    if |runs| == 0 then [] else Joined(runs[..|runs| - 1]) + runs[|runs| - 1]
  }

  function Observations(runs: seq<seq<Event>>): nat
  {
    if |runs| == 0 then 0 else Observations(runs[..|runs| - 1]) + |ObservedIn(runs[|runs| - 1])|
  }

  /** How often the clock is read in these rounds: at the start of each, and before each check. */
  function Readings(runs: seq<seq<Event>>): nat
  {
    if |runs| == 0 then 0
    else
      var n := |runs| - 1;
      Readings(runs[..n]) + 1 + |ObservedIn(runs[n])| + PostChecks(runs[n])
  }

  /** How many observations of the last round were not looked at. */
  function Skipped(rounds: seq<Option<seq<Case>>>, runs: seq<seq<Event>>): int
    requires |runs| <= |rounds|
  {
    var n := |runs| - 1;
    if n >= 0 && rounds[n].Some? then |rounds[n].value| - |ObservedIn(runs[n])| else 0
  }

  /** The clock is read as often, unless the synthesizer has given up: from then on it is read for the
      observations that are left in the round, none of which is looked at. */
  ghost predicate ClockRead(rounds: seq<Option<seq<Case>>>, runs: seq<seq<Event>>, polls: nat, left: nat, gaveUp: bool)
    requires |runs| <= |rounds|
  {
    && left + Readings(runs) <= polls
    && polls <= left + Readings(runs) + if gaveUp then Skipped(rounds, runs) else 0
  }

  /** The events of a round: its first observations, in order, then cases that waited. */
  ghost predicate RunOf(round: Option<seq<Case>>, run: seq<Event>)
  {
    if round.None? then run == []
    else run == InOrder(ObservedIn(run), PostChecks(run)) && ObservedIn(run) <= round.value
  }

  ghost predicate RunsOf(rounds: seq<Option<seq<Case>>>, runs: seq<seq<Event>>)
  {
    |runs| <= |rounds| && forall i :: 0 <= i < |runs| ==> RunOf(rounds[i], runs[i])
  }

  /** The state in which round `i` starts. */
  ghost function Start(s: Synthesizer, runs: seq<seq<Event>>, i: nat): LoopState
    requires i <= |runs|
  {
    var before := Run(s, LoopState(START, []), Joined(runs[..i]));
    if before.Some? then before.value else LoopState(START, [])
  }

  /** Every round before the `n`-th is complete. */
  ghost predicate CompleteUpTo(s: Synthesizer, rounds: seq<Option<seq<Case>>>, runs: seq<seq<Event>>, n: int)
    requires n <= |runs| <= |rounds|
  {
    forall i :: 0 <= i < n ==> Complete(s, Start(s, runs, i), rounds[i], runs[i])
  }

  lemma NextRound(runs: seq<seq<Event>>, run: seq<Event>)
    ensures Joined(runs + [run]) == Joined(runs) + run
    ensures Observations(runs + [run]) == Observations(runs) + |ObservedIn(run)|
    ensures Readings(runs + [run]) == Readings(runs) + 1 + |ObservedIn(run)| + PostChecks(run)
  {
    assert (runs + [run])[..|runs|] == runs;
  }

  /** The loop's invariant, after the rounds with these runs. */
  ghost predicate RunSoFar(s: Synthesizer, rounds: seq<Option<seq<Case>>>, runs: seq<seq<Event>>, polls: nat,
                           left: nat, c: Counters)
  {
    && RunsOf(rounds, runs) && CompleteUpTo(s, rounds, runs, |runs| - 1)
    && Possible(s, LoopState(START, []), Joined(runs))
    && At(s, LoopState(START, []), Joined(runs)) == LoopState(c, [])
    && (left > 0 && !s.givenUp(c.cases) ==> CompleteUpTo(s, rounds, runs, |runs|))
    && ClockRead(rounds, runs, polls, left, s.givenUp(c.cases))
  }

  /** What one round does to the counters and the clock. */
  ghost predicate RoundRan(s: Synthesizer, round: Option<seq<Case>>, run: seq<Event>, polls: nat, left: nat,
                           c: Counters, c': Counters)
  {
    && Possible(s, LoopState(c, []), run) && At(s, LoopState(c, []), run) == LoopState(c', [])
    && RunOf(round, run) && (left > 0 && !s.givenUp(c'.cases) ==> Complete(s, LoopState(c, []), round, run))
    && left + |ObservedIn(run)| + PostChecks(run) <= polls
    && (!s.givenUp(c'.cases) ==> polls == left + |ObservedIn(run)| + PostChecks(run))
    && polls <= left + PostChecks(run) + if round.Some? then |round.value| else 0
  }

  lemma NoRounds(s: Synthesizer, rounds: seq<Option<seq<Case>>>, polls: nat)
    ensures RunSoFar(s, rounds, [], polls, polls, START) && CompleteUpTo(s, rounds, [], 0)
    ensures Observations([]) == 0
  {
  }

  lemma EmptyRound(s: Synthesizer, polls: nat, c: Counters)
    ensures RoundRan(s, None, [], polls, polls, c, c) && ObservedIn([]) == []
  {
  }

  lemma FilledRound(s: Synthesizer, round: Option<seq<Case>>, run: seq<Event>, polls: nat, left: nat,
                    c: Counters, c': Counters)
    requires round.Some? && run == InOrder(ObservedIn(run), PostChecks(run))
    requires left + |ObservedIn(run)| + PostChecks(run) <= polls <= left + |round.value| + PostChecks(run)
    requires !s.givenUp(c'.cases) ==> polls == left + |ObservedIn(run)| + PostChecks(run)
    requires Possible(s, LoopState(c, []), run) && At(s, LoopState(c, []), run) == LoopState(c', [])
    requires ObservedIn(run) <= round.value
    requires left > 0 && !s.givenUp(c'.cases) ==> Complete(s, LoopState(c, []), round, run)
    ensures RoundRan(s, round, run, polls, left, c, c')
  {
  }

  lemma RunsExtend(s: Synthesizer, rounds: seq<Option<seq<Case>>>, runs: seq<seq<Event>>, run: seq<Event>)
    requires |runs| < |rounds| && RunsOf(rounds, runs) && CompleteUpTo(s, rounds, runs, |runs|)
    requires RunOf(rounds[|runs|], run)
    ensures RunsOf(rounds, runs + [run]) && CompleteUpTo(s, rounds, runs + [run], |runs|)
    ensures Complete(s, Start(s, runs, |runs|), rounds[|runs|], run) ==>
              CompleteUpTo(s, rounds, runs + [run], |runs| + 1)
  {
    hide RunOf, Complete, Joined;
    forall i | 0 <= i <= |runs| ensures Start(s, runs + [run], i) == Start(s, runs, i) {
      assert (runs + [run])[..i] == runs[..i];
    }
  }

  lemma StartNow(s: Synthesizer, runs: seq<seq<Event>>)
    requires Possible(s, LoopState(START, []), Joined(runs))
    ensures Start(s, runs, |runs|) == At(s, LoopState(START, []), Joined(runs))
  {
    assert runs[..|runs|] == runs;
  }

  lemma AfterRound(s: Synthesizer, rounds: seq<Option<seq<Case>>>, runs: seq<seq<Event>>, run: seq<Event>,
                   polls: nat, left: nat, left': nat, c: Counters, c': Counters)
    requires |runs| < |rounds| && left > 0 && CompleteUpTo(s, rounds, runs, |runs|)
    requires RunSoFar(s, rounds, runs, polls, left, c) && (|runs| > 0 ==> !s.givenUp(c.cases))
    requires RoundRan(s, rounds[|runs|], run, left - 1, left', c, c')
    ensures RunSoFar(s, rounds, runs + [run], polls, left', c')
    ensures left' > 0 && !s.givenUp(c'.cases) ==> CompleteUpTo(s, rounds, runs + [run], |runs| + 1)
    ensures Observations(runs + [run]) == Observations(runs) + |ObservedIn(run)|
  {
    hide Joined, Readings, Observations, ObservedIn, PostChecks, Complete, RunOf, RunsOf, CompleteUpTo, Run, Start;
    RunConcat(s, LoopState(START, []), Joined(runs), run);
    NextRound(runs, run);
    RunsExtend(s, rounds, runs, run);
    StartNow(s, runs);
    assert (runs + [run])[|runs|] == run;
  }

  ghost predicate GaveUp(s: Synthesizer, runs: seq<seq<Event>>)
    requires Possible(s, LoopState(START, []), Joined(runs))
  {
    s.givenUp(At(s, LoopState(START, []), Joined(runs)).counters.cases)
  }

  /** Why the loop ended after these rounds. */
  ghost predicate Ended(s: Synthesizer, rounds: seq<Option<seq<Case>>>, runs: seq<seq<Event>>, left: nat)
    requires Possible(s, LoopState(START, []), Joined(runs))
  {
    var c := At(s, LoopState(START, []), Joined(runs)).counters;
    || |runs| == |rounds| || left == 0 || s.givenUp(c.cases) || c.numOk >= NUM_OK_NEEDED
    || (|runs| > 1000 && Observations(runs) <= 10 * |runs|)
  }

  /** What the loop's invariant says of the result when the loop has ended. */
  lemma RunEnds(s: Synthesizer, rounds: seq<Option<seq<Case>>>, runs: seq<seq<Event>>, polls: nat, left: nat,
                c: Counters, r: Option<seq<Case>>)
    requires RunSoFar(s, rounds, runs, polls, left, c)
    requires r == if c.numOk >= NUM_OK_NEEDED then Some(c.cases) else None
    requires || |runs| == |rounds| || left == 0 || s.givenUp(c.cases) || c.numOk >= NUM_OK_NEEDED
             || (|runs| > 1000 && Observations(runs) <= 10 * |runs|)
    ensures ResultFrom(s, Joined(runs), r)
    ensures ResultOf(s, Joined(runs), r) && (r.Some? && WellBehaved(s) ==> Earned(s, Joined(runs), r.value))
    ensures RunsOf(rounds, runs) && CompleteUpTo(s, rounds, runs, |runs| - 1)
    ensures left > 0 && !GaveUp(s, runs) ==>
              CompleteUpTo(s, rounds, runs, |runs|)
    ensures Ended(s, rounds, runs, left) && ClockRead(rounds, runs, polls, left, GaveUp(s, runs))
  {
    hide Joined, Readings, Observations, CompleteUpTo, RunsOf;
    RunAccounted(s, Joined(runs));
    if WellBehaved(s) {
      var k, confirmed := CountIsEarned(s, Joined(runs));
    }
  }

  /** The whole loop for one output.  Each round is a batch of observations, or none when no test
      cases could be generated.  The rounds are run one after the other, each complete but perhaps
      the last, until one of the reasons to end holds.  A computation is returned, for the cases
      added, exactly when the count is reached, and then the present hypothesis has passed that many
      checks in a row, or half as many when consistency needs a requester. */
  method Synthesize(s: Synthesizer, rounds: seq<Option<seq<Case>>>, polls: nat)
    returns (r: Option<seq<Case>>, left: nat, ghost runs: seq<seq<Event>>)
    ensures ResultFrom(s, Joined(runs), r)
    ensures ResultOf(s, Joined(runs), r) && (r.Some? && WellBehaved(s) ==> Earned(s, Joined(runs), r.value))
    ensures RunsOf(rounds, runs) && CompleteUpTo(s, rounds, runs, |runs| - 1)
    ensures |runs| > 0 && left > 0 && !GaveUp(s, runs) ==>
              CompleteUpTo(s, rounds, runs, |runs|)
    ensures Ended(s, rounds, runs, left) && ClockRead(rounds, runs, polls, left, GaveUp(s, runs))
  {
    hide RunSoFar, RoundRan, RunsOf, CompleteUpTo, ClockRead, GaveUp, Joined, Observations, WellBehaved, Ended,
         ResultOf, ResultFrom, Earned, InOrder, ObservedIn, PostChecks;
    var item := new SynthesisItem(s);
    runs, left := [], polls;
    var i, numObserved := 0, 0;
    NoRounds(s, rounds, polls);
    while i < |rounds|
      invariant fresh(item) && item.synthesizer == s && i == |runs| <= |rounds|
      invariant RunSoFar(s, rounds, runs, polls, left, item.State())
      invariant (left > 0 ==> CompleteUpTo(s, rounds, runs, i)) && (i > 0 ==> !s.givenUp(item.cases))
      invariant numObserved == Observations(runs)
    {
      if left == 0 {
        break;
      }
      ghost var before, c := left, item.State();
      ghost var run: seq<Event> := [];
      var seen := 0;
      left := left - 1;
      if rounds[i].None? {
        EmptyRound(s, left, c);
      } else {
        left, seen, run := Round(item, rounds[i].value, left);
        FilledRound(s, rounds[i], run, before - 1, left, c, item.State());
      }
      AfterRound(s, rounds, runs, run, polls, before, left, c, item.State());
      runs := runs + [run];
      numObserved := numObserved + seen;
      i := i + 1;
      if i > 1000 && numObserved <= i * 10 {
        break;
      }
      if item.numOk >= NUM_OK_NEEDED || s.givenUp(item.cases) {
        break;
      }
    }
    r := if item.numOk >= NUM_OK_NEEDED then Some(item.cases) else None;
    RunEnds(s, rounds, runs, polls, left, item.State(), r);
  }

  // ---------------------------------------- without the expectation on synthesizers

  /** Needs a requester to add before the first case, and one to check after it. */
  const WAVERING := Synthesizer(cases => |cases| == 1, cases => |cases| == 0, (cases, x) => |cases| == 1,
                                cases => true, cases => false)

  lemma {:induction false} WaveringObserves(n: nat)
    ensures var l := LoopState(START, []);
            && Possible(WAVERING, l, Repeated(Observe(7), n))
            && At(WAVERING, l, Repeated(Observe(7), n)).counters.cases == []
            && At(WAVERING, l, Repeated(Observe(7), n)).counters.numOk == 0
            && At(WAVERING, l, Repeated(Observe(7), n)).queue == seq(n, i => 7)
    decreases n
  {
    if n > 0 {
      WaveringObserves(n - 1);
      assert Repeated(Observe(7), n) == Repeated(Observe(7), n - 1) + [Observe(7)];
      RunStep(WAVERING, LoopState(START, []), Repeated(Observe(7), n - 1), Observe(7));
    }
  }

  lemma {:induction false} WaveringConfirms(l: LoopState, n: nat)
    requires |l.counters.cases| == 1 && |l.queue| >= n
    ensures Possible(WAVERING, l, Repeated(PostCheck, n))
    ensures var r := At(WAVERING, l, Repeated(PostCheck, n));
            && r.counters.cases == l.counters.cases && r.counters.numOk == l.counters.numOk + 2 * n
            && r.queue == l.queue[n..]
    decreases n
  {
    if n > 0 {
      WaveringConfirms(l, n - 1);
      assert Repeated(PostCheck, n) == Repeated(PostCheck, n - 1) + [PostCheck];
      RunStep(WAVERING, l, Repeated(PostCheck, n - 1), PostCheck);
    }
  }

  /** For such a synthesizer the count can be as high as one likes right after a case was added,
      with nothing checked against the new hypothesis. */
  lemma UnearnedCount(n: nat) returns (events: seq<Event>)
    ensures Possible(WAVERING, LoopState(START, []), events) && |events| > 0
    ensures var m := |events| - 1;
            && Possible(WAVERING, LoopState(START, []), events[..m])
            && At(WAVERING, LoopState(START, []), events).counters.numOk == 2 * n
            && At(WAVERING, LoopState(START, []), events).counters.cases !=
               At(WAVERING, LoopState(START, []), events[..m]).counters.cases
  {
    var start := LoopState(START, []);
    var observing := Repeated(Observe(7), n + 1);
    WaveringObserves(n + 1);
    var first := observing + [PostCheck];
    RunStep(WAVERING, start, observing, PostCheck);
    WaveringConfirms(At(WAVERING, start, first), n);
    var confirming := first + Repeated(PostCheck, n);
    RunConcat(WAVERING, start, first, Repeated(PostCheck, n));
    RunStep(WAVERING, start, confirming, Observe(7));
    events := confirming + [Observe(7)];
    assert events[..|events| - 1] == confirming;
  }
}
