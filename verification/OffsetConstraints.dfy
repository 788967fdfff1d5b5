/** Sets of address offsets, kept as a set of inclusive intervals.

    An interval starts at an `i64` and has a `u64` length, so it may reach past the
    largest `i64`; it stands for the integers from `start` to `start + length`.
 */
module OffsetConstraints {
  import opened Options
  import opened MachineInts

  datatype Constraint = Constraint(start: int, length: int)

  predicate Valid(c: Constraint)
  {
    I64_MIN <= c.start <= I64_MAX && 0 <= c.length < U64_MOD
  }

  const ALL: Constraint := Constraint(I64_MIN, U64_MOD - 1)

  function Fixed(offset: int): Constraint { Constraint(offset, 0) }

  predicate Contains(c: Constraint, x: int) { c.start <= x <= c.start + c.length }

  /** `OffsetConstraint::intersect`, in the source's mix of signed and unsigned arithmetic. */
  function Intersect(a: Constraint, b: Constraint): Option<Constraint>
  {
    var (lo, hi, length, maxLength) :=
      if a.start < b.start then (a.start, b.start, a.length, b.length) else (b.start, a.start, b.length, a.length);
    var distance := if hi >= 0 then AsU64(AsU64(hi) - AsU64(lo)) else AsU64(hi - lo);
    if length < distance then None
    else Some(Constraint(hi, if length - distance < maxLength then length - distance else maxLength))
  }

  /** The result is the exact intersection, nothing wraps around, and `None` means that the
      intervals have no common integer. */
  lemma IntersectExact(a: Constraint, b: Constraint, x: int)
    requires Valid(a) && Valid(b)
    ensures Intersect(a, b).None? ==> !(Contains(a, x) && Contains(b, x))
    ensures Intersect(a, b).Some? ==> Valid(Intersect(a, b).value)
    ensures Intersect(a, b).Some? ==> (Contains(Intersect(a, b).value, x) <==> Contains(a, x) && Contains(b, x))
  {
    var (lo, hi) := if a.start < b.start then (a.start, b.start) else (b.start, a.start);
    Distance(lo, hi);
  }

  lemma Distance(lo: int, hi: int)
    requires I64_MIN <= lo <= hi <= I64_MAX
    ensures (if hi >= 0 then AsU64(AsU64(hi) - AsU64(lo)) else AsU64(hi - lo)) == hi - lo
  {
  }

  /** Intersecting with a fixed offset gives that offset back, or nothing. */
  lemma IntersectFixed(a: Constraint, b: Constraint)
    requires Valid(a) && Valid(b) && b.length == 0
    ensures Intersect(a, b) == if Contains(a, b.start) then Some(b) else None
    ensures Intersect(b, a) == if Contains(a, b.start) then Some(b) else None
  {
    IntersectExact(a, b, b.start);
    IntersectExact(b, a, b.start);
    if Intersect(a, b).Some? {
      IntersectExact(a, b, Intersect(a, b).value.start);
    }
    if Intersect(b, a).Some? {
      IntersectExact(b, a, Intersect(b, a).value.start);
    }
  }

  // --------------------------------------------------------- constraint sets

  predicate AllValid(cs: set<Constraint>) { forall c :: c in cs ==> Valid(c) }

  predicate ValidItems(items: seq<Constraint>) { forall i :: 0 <= i < |items| ==> Valid(items[i]) }

  /** `x` satisfies one of the constraints. */
  ghost predicate Denotes(cs: set<Constraint>, x: int) { exists c :: c in cs && Contains(c, x) }

  ghost predicate Allows(items: seq<Constraint>, x: int) { exists i :: 0 <= i < |items| && Contains(items[i], x) }

  /** All nonempty intersections of one old constraint with the supplied ones. */
  function Refine(base: Constraint, items: seq<Constraint>): set<Constraint>
  {
    if |items| == 0 then {}
    else
      var n := |items| - 1;
      Refine(base, items[..n]) + if Intersect(items[n], base).Some? then {Intersect(items[n], base).value} else {}
  }

  lemma {:induction false} RefineMember(base: Constraint, items: seq<Constraint>, c: Constraint)
    ensures c in Refine(base, items) <==> exists i :: 0 <= i < |items| && Intersect(items[i], base) == Some(c)
    decreases |items|
  {
    if |items| > 0 {
      var n := |items| - 1;
      RefineMember(base, items[..n], c);
      if c in Refine(base, items[..n]) {
        var i :| 0 <= i < n && Intersect(items[..n][i], base) == Some(c);
        assert Intersect(items[i], base) == Some(c);
      }
      if i :| 0 <= i < |items| && Intersect(items[i], base) == Some(c) {
        if i < n {
          assert Intersect(items[..n][i], base) == Some(c);
        }
      }
    }
  }

  /** The constraint set after one `and`: every nonempty pairwise intersection. */
  ghost function And(cs: set<Constraint>, items: seq<Constraint>): set<Constraint>
  {
    set c, d | c in cs && d in Refine(c, items) :: d
  }

  /** An `and` intersects the denoted set with the union of the supplied intervals. */
  lemma AndDenotes(cs: set<Constraint>, items: seq<Constraint>, x: int)
    requires AllValid(cs) && ValidItems(items)
    ensures AllValid(And(cs, items))
    ensures Denotes(And(cs, items), x) <==> Denotes(cs, x) && Allows(items, x)
  {
    forall d | d in And(cs, items)
      ensures Valid(d)
      ensures Contains(d, x) ==> Denotes(cs, x) && Allows(items, x)
    {
      var c :| c in cs && d in Refine(c, items);
      RefineMember(c, items, d);
      var i :| 0 <= i < |items| && Intersect(items[i], c) == Some(d);
      IntersectExact(items[i], c, x);
    }
    if Denotes(cs, x) && Allows(items, x) {
      var c :| c in cs && Contains(c, x);
      var i :| 0 <= i < |items| && Contains(items[i], x);
      IntersectExact(items[i], c, x);
      var d := Intersect(items[i], c).value;
      RefineMember(c, items, d);
      assert d in And(cs, items);
    }
  }

  /** A supplied fixed offset that the set denotes, and a fixed offset already in the set that
      the supplied intervals allow, is in the new set as a fixed offset. */
  lemma AndFixed(cs: set<Constraint>, items: seq<Constraint>, x: int)
    requires AllValid(cs) && ValidItems(items)
    requires Denotes(cs, x) && Allows(items, x)
    requires Fixed(x) in cs || Fixed(x) in items
    ensures Fixed(x) in And(cs, items)
  {
    var fixed := Fixed(x);
    if fixed in cs {
      var i :| 0 <= i < |items| && Contains(items[i], x);
      IntersectFixed(items[i], fixed);
      RefineMember(fixed, items, fixed);
    } else {
      var i :| 0 <= i < |items| && items[i] == fixed;
      var c :| c in cs && Contains(c, x);
      IntersectFixed(c, items[i]);
      RefineMember(c, items, fixed);
    }
  }

  /** For a fixed offset, the intersections are the offset itself or nothing. */
  lemma RefineFixed(c: Constraint, items: seq<Constraint>)
    requires Valid(c) && c.length == 0 && ValidItems(items)
    ensures Refine(c, items) == if Allows(items, c.start) then {c} else {}
  {
    forall d ensures d in Refine(c, items) <==> d == c && Allows(items, c.start) {
      RefineMember(c, items, d);
      if i :| 0 <= i < |items| && Intersect(items[i], c) == Some(d) {
        IntersectFixed(items[i], c);
      }
      if d == c && Allows(items, c.start) {
        var i :| 0 <= i < |items| && Contains(items[i], c.start);
        IntersectFixed(items[i], c);
      }
    }
  }

  class Constraints {
    var constraints: set<Constraint>
    var onlyFixedOffsets: bool

    ghost predicate Ok()
      reads this
    {
      AllValid(constraints) && (onlyFixedOffsets ==> forall c :: c in constraints ==> c.length == 0)
    }

    constructor ()
      ensures Ok() && constraints == {ALL}
    {
      constraints, onlyFixedOffsets := {ALL}, false;
    }

    /** Both paths, the one that only filters fixed offsets and the general one, produce the set
        of pairwise intersections. */
    method AndAlso(items: seq<Constraint>)
      requires Ok() && ValidItems(items)
      modifies this
      ensures Ok() && constraints == And(old(constraints), items)
    {
      if onlyFixedOffsets {
        Retain(items);
      } else if constraints != {} {
        RefineAll(items);
      } else {
        assert And({}, items) == {};
      }
    }

    /** Keeps the fixed offsets that some supplied interval contains. */
    method Retain(items: seq<Constraint>)
      requires Ok() && onlyFixedOffsets && ValidItems(items)
      modifies this
      ensures Ok() && constraints == And(old(constraints), items)
    {
      var previous := constraints;
      var kept: set<Constraint> := {};
      var todo := previous;
      while todo != {}
        invariant todo <= previous && kept == And(previous - todo, items)
        decreases |todo|
      {
        var c :| c in todo;
        var found := AnyIntersects(c, items);
        AndSplit(previous - todo, c, items);
        RefineFixed(c, items);
        if found {
          kept := kept + {c};
        }
        assert previous - (todo - {c}) == (previous - todo) + {c};
        todo := todo - {c};
      }
      assert previous - {} == previous;
      constraints := kept;
      AndStaysFixed(previous, items);
    }

    method AnyIntersects(c: Constraint, items: seq<Constraint>) returns (found: bool)
      requires Valid(c) && c.length == 0 && ValidItems(items)
      ensures found <==> Allows(items, c.start)
    {
      for i := 0 to |items|
        invariant forall j :: 0 <= j < i ==> !Contains(items[j], c.start)
      {
        IntersectFixed(items[i], c);
        if Intersect(items[i], c).Some? {
          return true;
        }
      }
      return false;
    }

    /** Inserts the intersections of one constraint; a fixed offset needs one match only. */
    method InsertRefined(c: Constraint, items: seq<Constraint>, onlyFixed: bool) returns (stillFixed: bool)
      requires Valid(c) && ValidItems(items)
      modifies this`constraints
      ensures constraints == old(constraints) + Refine(c, items)
      ensures stillFixed <==> onlyFixed && forall d :: d in Refine(c, items) ==> d.length == 0
    {
      stillFixed := onlyFixed;
      var i := 0;
      while i < |items|
        invariant 0 <= i <= |items|
        invariant constraints == old(constraints) + Refine(c, items[..i])
        invariant stillFixed <==> onlyFixed && forall d :: d in Refine(c, items[..i]) ==> d.length == 0
      {
        assert items[..i + 1][..i] == items[..i];
        var next := Intersect(items[i], c);
        if next.Some? {
          constraints := constraints + {next.value};
          stillFixed := stillFixed && next.value.length == 0;
          if c.length == 0 {
            FirstMatch(c, items, i);
            return;
          }
        }
        i := i + 1;
      }
      assert items[..|items|] == items;
    }

    /** Intersects every constraint with every supplied one. */
    method RefineAll(items: seq<Constraint>)
      requires Ok() && !onlyFixedOffsets && ValidItems(items)
      modifies this
      ensures Ok() && constraints == And(old(constraints), items)
    {
      var previous := constraints;
      constraints := {};
      var onlyFixed := InsertAllRefined(previous, items);
      AndDenotes(previous, items, 0);
      onlyFixedOffsets := onlyFixed;
    }

    method InsertAllRefined(previous: set<Constraint>, items: seq<Constraint>) returns (onlyFixed: bool)
      requires constraints == {} && AllValid(previous) && ValidItems(items)
      modifies this`constraints
      ensures constraints == And(previous, items)
      ensures onlyFixed <==> forall d :: d in constraints ==> d.length == 0
    {
      var todo := previous;
      ghost var done: set<Constraint> := {};
      AndNone(items);
      onlyFixed := true;
      while todo != {}
        invariant done + todo == previous
        invariant constraints == And(done, items)
        invariant onlyFixed <==> forall d :: d in constraints ==> d.length == 0
        decreases |todo|
      {
        var c :| c in todo;
        AndSplit(done, c, items);
        onlyFixed := InsertRefined(c, items, onlyFixed);
        done := done + {c};
        todo := todo - {c};
      }
      assert done == previous;
    }
  }

  lemma AndNone(items: seq<Constraint>)
    ensures And({}, items) == {}
  {
  }

  /** Leaving the inner loop early loses nothing for a fixed offset. */
  lemma FirstMatch(c: Constraint, items: seq<Constraint>, i: nat)
    requires Valid(c) && c.length == 0 && ValidItems(items) && i < |items| && Intersect(items[i], c).Some?
    ensures Refine(c, items) == {c} && Refine(c, items[..i]) + {Intersect(items[i], c).value} == {c}
  {
    IntersectFixed(items[i], c);
    RefineFixed(c, items);
    RefineFixed(c, items[..i]);
  }

  lemma AndSplit(cs: set<Constraint>, c: Constraint, items: seq<Constraint>)
    ensures And(cs + {c}, items) == And(cs, items) + Refine(c, items)
  {
  }

  lemma AndStaysFixed(cs: set<Constraint>, items: seq<Constraint>)
    requires AllValid(cs) && ValidItems(items) && forall c :: c in cs ==> c.length == 0
    ensures And(cs, items) <= cs
  {
    forall d | d in And(cs, items) ensures d in cs {
      var c :| c in cs && d in Refine(c, items);
      RefineFixed(c, items);
    }
  }

  // ----------------------------------------------------- sequences of `and` calls

  /** The set after `and` with each list of `calls` in turn. */
  ghost function AndMany(calls: seq<seq<Constraint>>): set<Constraint>
  {
    if |calls| == 0 then {ALL} else And(AndMany(calls[..|calls| - 1]), calls[|calls| - 1])
  }

  predicate ValidCalls(calls: seq<seq<Constraint>>) { forall k :: 0 <= k < |calls| ==> ValidItems(calls[k]) }

  ghost predicate AllowedByAll(calls: seq<seq<Constraint>>, x: int)
  {
    forall k :: 0 <= k < |calls| ==> Allows(calls[k], x)
  }

  /** After any sequence of calls the set denotes exactly the `i64` offsets that every call allows. */
  lemma {:induction false} AndManyDenotes(calls: seq<seq<Constraint>>, x: int)
    requires ValidCalls(calls)
    ensures AllValid(AndMany(calls))
    ensures Denotes(AndMany(calls), x) <==> I64_MIN <= x <= I64_MAX && AllowedByAll(calls, x)
    decreases |calls|
  {
    if |calls| > 0 {
      var n := |calls| - 1;
      AndManyDenotes(calls[..n], x);
      AndDenotes(AndMany(calls[..n]), calls[n], x);
    } else {
      assert ALL in AndMany(calls);
    }
  }

  /** The offsets that the set holds as single values (`real_offsets`). */
  ghost predicate RealOffset(cs: set<Constraint>, x: int) { Fixed(x) in cs }

  /** Every real offset is allowed by every call. */
  lemma RealOffsetSound(calls: seq<seq<Constraint>>, x: int)
    requires ValidCalls(calls) && RealOffset(AndMany(calls), x)
    ensures AllowedByAll(calls, x)
  {
    assert Contains(Fixed(x), x);
    AndManyDenotes(calls, x);
  }

  /** Every offset that some call names exactly and all calls allow is a real offset. */
  lemma {:induction false} RealOffsetComplete(calls: seq<seq<Constraint>>, x: int, k: nat)
    requires ValidCalls(calls) && I64_MIN <= x <= I64_MAX && AllowedByAll(calls, x)
    requires k < |calls| && Fixed(x) in calls[k]
    ensures RealOffset(AndMany(calls), x)
    decreases |calls|
  {
    var n := |calls| - 1;
    AndManyDenotes(calls[..n], x);
    if k < n {
      RealOffsetComplete(calls[..n], x, k);
    }
    AndFixed(AndMany(calls[..n]), calls[n], x);
  }
}
