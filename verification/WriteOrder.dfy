/** Resolving which of several overlapping outputs is written last. */
module WriteOrder {
  import opened Options

  /** `later` is written after `earlier`. */
  datatype After = After(later: nat, earlier: nat)

  function Mentioned(rel: set<After>): set<nat>
  {
    (set v | v in rel :: v.later) + (set v | v in rel :: v.earlier)
  }

  // ------------------------------------------------------- orders and cycles

  predicate Distinct(q: seq<nat>) { forall i, j :: 0 <= i < j < |q| ==> q[i] != q[j] }

  function Elements(q: seq<nat>): set<nat> { set x | x in q }

  /** A listing of all nodes in which nothing comes before, or at, something it must follow. */
  predicate WriteSequence(q: seq<nat>, nodes: set<nat>, rel: set<After>)
  {
    && Distinct(q) && Elements(q) == nodes
    && forall i, j :: 0 <= i <= j < |q| ==> After(q[i], q[j]) !in rel
  }

  /** Consecutive elements are related. */
  predicate Chain(p: seq<nat>, rel: set<After>)
  {
    forall i :: 0 <= i < |p| - 1 ==> After(p[i], p[i + 1]) in rel
  }

  ghost predicate Cyclic(rel: set<After>)
  {
    exists p :: |p| >= 2 && Chain(p, rel) && p[0] == p[|p| - 1]
  }

  /** The first list is not after the second one in lexicographic order. */
  predicate LexAtMost(p: seq<nat>, q: seq<nat>)
  {
    |p| == 0 || (|q| > 0 && (p[0] < q[0] || (p[0] == q[0] && LexAtMost(p[1..], q[1..]))))
  }

  // -------------------------------------------------------------- specification

  /** The nodes that need not wait for any other one. */
  function Ready(nodes: set<nat>, rel: set<After>): set<nat>
  {
    set n | n in nodes && forall v :: v in rel ==> v.later != n
  }

  lemma {:induction false} LeastExists(s: set<nat>) returns (m: nat)
    requires s != {}
    ensures m in s && forall x :: x in s ==> m <= x
    decreases |s|
  {
    m :| m in s;
    var rest := s - {m};
    assert forall x :: x in s ==> x == m || x in rest;
    if rest != {} {
      var least := LeastExists(rest);
      if least < m {
        m := least;
      }
    }
  }

  lemma LeastIsDefined(s: set<nat>)
    requires s != {}
    ensures exists m :: m in s && forall x :: x in s ==> m <= x
  {
    var m := LeastExists(s);
  }

  ghost function Least(s: set<nat>): (m: nat)
    requires s != {}
    ensures m in s && forall x :: x in s ==> m <= x
  {
    LeastIsDefined(s);
    var m :| m in s && forall x :: x in s ==> m <= x;
    m
  }

  function Without(rel: set<After>, n: nat): set<After>
  {
    set v | v in rel && v.later != n && v.earlier != n
  }

  /** Takes the least ready node, removes it, and goes on until no node is ready. */
  ghost function Taken(nodes: set<nat>, rel: set<After>): seq<nat>
    decreases nodes
  {
    if Ready(nodes, rel) == {} then []
    else
      var m := Least(Ready(nodes, rel));
      [m] + Taken(nodes - {m}, Without(rel, m))
  }

  /** The nodes left when no node is ready. */
  ghost function Stuck(nodes: set<nat>, rel: set<After>): set<nat>
    decreases nodes
  {
    if Ready(nodes, rel) == {} then nodes
    else
      var m := Least(Ready(nodes, rel));
      Stuck(nodes - {m}, Without(rel, m))
  }

  // -------------------------------------------------- what the specification means

  predicate Closed(nodes: set<nat>, rel: set<After>)
  {
    forall v :: v in rel ==> v.later in nodes && v.earlier in nodes
  }

  lemma {:induction false} TakenElements(nodes: set<nat>, rel: set<After>)
    ensures Stuck(nodes, rel) <= nodes
    ensures Elements(Taken(nodes, rel)) == nodes - Stuck(nodes, rel)
    ensures Distinct(Taken(nodes, rel))
    decreases nodes
  {
    if Ready(nodes, rel) != {} {
      var m := Least(Ready(nodes, rel));
      var rest := Taken(nodes - {m}, Without(rel, m));
      TakenElements(nodes - {m}, Without(rel, m));
      var q := Taken(nodes, rel);
      assert q == [m] + rest;
      assert m !in rest by { assert m !in Elements(rest); }
      assert Elements(q) == {m} + Elements(rest);
    }
  }

  /** When nothing is left over, the taken nodes are a write sequence. */
  lemma {:induction false} TakenOrdered(nodes: set<nat>, rel: set<After>)
    requires Closed(nodes, rel) && Stuck(nodes, rel) == {}
    ensures WriteSequence(Taken(nodes, rel), nodes, rel)
    decreases nodes
  {
    TakenElements(nodes, rel);
    if Ready(nodes, rel) == {} {
      assert nodes == {};
    } else {
      var m := Least(Ready(nodes, rel));
      var rest := Taken(nodes - {m}, Without(rel, m));
      TakenOrdered(nodes - {m}, Without(rel, m));
      var q := Taken(nodes, rel);
      assert q == [m] + rest;
      forall i, j | 0 <= i <= j < |q| ensures After(q[i], q[j]) !in rel {
        if i > 0 {
          assert q[i] == rest[i - 1] && q[j] == rest[j - 1];
          assert q[i] in Elements(rest) && q[j] in Elements(rest);
        }
      }
    }
  }

  /** No write sequence is lexicographically smaller than the taken one. */
  lemma {:induction false} TakenLeast(nodes: set<nat>, rel: set<After>, q: seq<nat>)
    requires Closed(nodes, rel) && WriteSequence(q, nodes, rel)
    ensures LexAtMost(Taken(nodes, rel), q)
    decreases nodes
  {
    if Ready(nodes, rel) != {} {
      var m := Least(Ready(nodes, rel));
      assert |q| > 0 by { assert m in Elements(q); }
      FirstIsReady(nodes, rel, q);
      if q[0] == m {
        RestOrdered(nodes, rel, q);
        TakenLeast(nodes - {m}, Without(rel, m), q[1..]);
      }
    }
  }

  lemma FirstIsReady(nodes: set<nat>, rel: set<After>, q: seq<nat>)
    requires Closed(nodes, rel) && WriteSequence(q, nodes, rel) && |q| > 0
    ensures q[0] in Ready(nodes, rel)
  {
    assert q[0] in Elements(q);
    forall v | v in rel ensures v.later != q[0] {
      assert v.earlier in Elements(q);
      var j :| 0 <= j < |q| && q[j] == v.earlier;
      assert After(q[0], q[j]) !in rel;
    }
  }

  lemma RestOrdered(nodes: set<nat>, rel: set<After>, q: seq<nat>)
    requires WriteSequence(q, nodes, rel) && |q| > 0
    ensures WriteSequence(q[1..], nodes - {q[0]}, Without(rel, q[0]))
  {
    assert Elements(q) == {q[0]} + Elements(q[1..]) by {
      assert q == [q[0]] + q[1..];
    }
    assert q[0] !in q[1..];
  }

  /** In a write sequence, chains lead backwards. */
  lemma {:induction false} ChainDescends(q: seq<nat>, nodes: set<nat>, rel: set<After>, p: seq<nat>, i: nat, j: nat)
    requires Closed(nodes, rel) && WriteSequence(q, nodes, rel) && Chain(p, rel) && |p| >= 2
    requires i < |q| && j < |q| && q[i] == p[0] && q[j] == p[|p| - 1]
    ensures j < i
    decreases |p|
  {
    var v := After(p[0], p[1]);
    assert v in rel;
    assert p[1] in Elements(q);
    var k :| 0 <= k < |q| && q[k] == p[1];
    assert k < i;
    if |p| > 2 {
      assert Chain(p[1..], rel) by {
        forall n | 0 <= n < |p[1..]| - 1 ensures After(p[1..][n], p[1..][n + 1]) in rel {
          assert After(p[n + 1], p[n + 1 + 1]) in rel;
        }
      }
      ChainDescends(q, nodes, rel, p[1..], k, j);
    } else {
      assert k == j;
    }
  }

  lemma OrderedIsAcyclic(q: seq<nat>, nodes: set<nat>, rel: set<After>)
    requires Closed(nodes, rel) && WriteSequence(q, nodes, rel)
    ensures !Cyclic(rel)
  {
    if Cyclic(rel) {
      var p :| |p| >= 2 && Chain(p, rel) && p[0] == p[|p| - 1];
      assert After(p[0], p[1]) in rel;
      assert p[0] in Elements(q);
      var i :| 0 <= i < |q| && q[i] == p[0];
      ChainDescends(q, nodes, rel, p, i, i);
      assert false;
    }
  }

  /** Every node that is left over waits for another one that is left over. */
  lemma {:induction false} StuckWait(nodes: set<nat>, rel: set<After>, n: nat)
    requires Closed(nodes, rel) && n in Stuck(nodes, rel)
    ensures exists v :: v in rel && v.later == n && v.earlier in Stuck(nodes, rel)
    decreases nodes
  {
    if Ready(nodes, rel) == {} {
      assert n !in Ready(nodes, rel);
      var v :| v in rel && v.later == n;
    } else {
      var m := Least(Ready(nodes, rel));
      StuckWait(nodes - {m}, Without(rel, m), n);
      var v :| v in Without(rel, m) && v.later == n && v.earlier in Stuck(nodes, rel);
      assert v in rel;
    }
  }

  /** A walk of any length through nodes that are left over. */
  lemma {:induction false} StuckWalk(nodes: set<nat>, rel: set<After>, k: nat) returns (p: seq<nat>)
    requires Closed(nodes, rel) && Stuck(nodes, rel) != {}
    ensures |p| == k + 1 && Chain(p, rel) && Elements(p) <= Stuck(nodes, rel)
    decreases k
  {
    if k == 0 {
      var n :| n in Stuck(nodes, rel);
      p := [n];
    } else {
      var q := StuckWalk(nodes, rel, k - 1);
      var n := q[|q| - 1];
      assert n in Elements(q);
      StuckWait(nodes, rel, n);
      var v :| v in rel && v.later == n && v.earlier in Stuck(nodes, rel);
      p := q + [v.earlier];
      assert v == After(n, v.earlier);
      assert Elements(p) == Elements(q) + {v.earlier};
    }
  }

  /** A list longer than the set of its elements has a repetition. */
  lemma {:induction false} Pigeonhole(p: seq<nat>, s: set<nat>) returns (i: nat, j: nat)
    requires Elements(p) <= s && |p| > |s|
    ensures i < j < |p| && p[i] == p[j]
    decreases |p|
  {
    var n := |p| - 1;
    assert p[n] in Elements(p);
    if k :| 0 <= k < n && p[k] == p[n] {
      return k, n;
    }
    assert Elements(p[..n]) <= s - {p[n]} by {
      forall x | x in Elements(p[..n]) ensures x in s && x != p[n] {
        assert x in Elements(p);
      }
    }
    i, j := Pigeonhole(p[..n], s - {p[n]});
  }

  lemma StuckIsCyclic(nodes: set<nat>, rel: set<After>)
    requires Closed(nodes, rel) && Stuck(nodes, rel) != {}
    ensures Cyclic(rel)
  {
    var s := Stuck(nodes, rel);
    var p := StuckWalk(nodes, rel, |s|);
    var i, j := Pigeonhole(p, s);
    var cycle := p[i..j + 1];
    assert Chain(cycle, rel) by {
      forall k | 0 <= k < |cycle| - 1 ensures After(cycle[k], cycle[k + 1]) in rel {
        assert After(p[i + k], p[i + k + 1]) in rel;
      }
    }
    assert |cycle| >= 2 && cycle[0] == cycle[|cycle| - 1];
  }

  // ---------------------------------------------------------------- the loop

  /** The position of the least output that no remaining requirement puts later. */
  method FindNext(outputs: seq<nat>, order: seq<After>) returns (next: Option<nat>)
    requires Distinct(outputs)
    ensures next.None? <==> Ready(Elements(outputs), (set v | v in order)) == {}
    ensures next.Some? ==>
              next.value < |outputs| && outputs[next.value] == Least(Ready(Elements(outputs), (set v | v in order)))
  {
    ghost var ready := Ready(Elements(outputs), (set v | v in order));
    next := None;
    for i := 0 to |outputs|
      invariant next.Some? ==> next.value < i && outputs[next.value] in ready
      invariant forall j :: 0 <= j < i && outputs[j] in ready ==> next.Some? && outputs[next.value] <= outputs[j]
    {
      var blocked := Blocked(outputs[i], order);
      if !blocked && (next.None? || outputs[i] < outputs[next.value]) {
        next := Some(i);
      }
    }
    forall x | x in ready ensures next.Some? && outputs[next.value] <= x {
      var j :| 0 <= j < |outputs| && outputs[j] == x;
    }
  }

  method Blocked(output: nat, order: seq<After>) returns (blocked: bool)
    ensures blocked <==> exists v :: v in order && v.later == output
  {
    for i := 0 to |order|
      invariant forall j :: 0 <= j < i ==> order[j].later != output
    {
      if order[i].later == output {
        return true;
      }
    }
    return false;
  }

  method RetainOthers(order: seq<After>, n: nat) returns (r: seq<After>)
    ensures (set v | v in r) == Without((set v | v in order), n)
  {
    r := [];
    for i := 0 to |order|
      invariant forall v :: v in r <==> v in order[..i] && v.later != n && v.earlier != n
    {
      if order[i].later != n && order[i].earlier != n {
        r := r + [order[i]];
      }
    }
    assert order[..|order|] == order;
  }

  /** The distinct outputs in the order in which the requirements mention them. */
  method UniqueOutputs(order: seq<After>) returns (outputs: seq<nat>)
    ensures Distinct(outputs) && Elements(outputs) == Mentioned(set v | v in order)
  {
    outputs := [];
    for i := 0 to |order|
      invariant Distinct(outputs)
      invariant forall x :: x in outputs <==> exists j :: 0 <= j < i && (order[j].later == x || order[j].earlier == x)
    {
      if order[i].later !in outputs {
        outputs := outputs + [order[i].later];
      }
      if order[i].earlier !in outputs {
        outputs := outputs + [order[i].earlier];
      }
    }
    ghost var rel := set v | v in order;
    forall x ensures x in Elements(outputs) <==> x in Mentioned(rel) {
      if x in outputs {
        var j :| 0 <= j < |order| && (order[j].later == x || order[j].earlier == x);
        assert order[j] in rel;
      }
      if x in Mentioned(rel) {
        var v :| v in rel && (v.later == x || v.earlier == x);
        var j :| 0 <= j < |order| && order[j] == v;
      }
    }
  }

  /** What `resolve_order` returns for a set of requirements. */
  ghost function Resolved(rel: set<After>): Option<seq<nat>>
  {
    var nodes := Mentioned(rel);
    if Stuck(nodes, rel) == {} then Some(Taken(nodes, rel)) else None
  }

  lemma MentionedClosed(rel: set<After>)
    ensures Closed(Mentioned(rel), rel)
  {
  }

  /** The result is determined by the set of requirements, whatever the order in which it is
      listed. */
  method ResolveOrder(listing: seq<After>) returns (result: Option<seq<nat>>)
    ensures result == Resolved(set v | v in listing)
  {
    var order := listing;
    var outputs := UniqueOutputs(order);
    ghost var rel := set v | v in listing;
    ghost var nodes := Mentioned(rel);
    var sequence: seq<nat> := [];
    var next := FindNext(outputs, order);
    while next.Some?
      invariant Distinct(outputs)
      invariant next.None? <==> Ready(Elements(outputs), (set v | v in order)) == {}
      invariant next.Some? ==>
                  next.value < |outputs| && outputs[next.value] == Least(Ready(Elements(outputs), (set v | v in order)))
      invariant Taken(nodes, rel) == sequence + Taken(Elements(outputs), (set v | v in order))
      invariant Stuck(nodes, rel) == Stuck(Elements(outputs), (set v | v in order))
      decreases |outputs|
    {
      var i := next.value;
      var n := outputs[i];
      ghost var left, before := Elements(outputs), set v | v in order;
      RemoveAt(outputs, i);
      outputs := outputs[..i] + outputs[i + 1..];
      assert sequence + ([n] + Taken(left - {n}, Without(before, n)))
        == (sequence + [n]) + Taken(left - {n}, Without(before, n));
      sequence := sequence + [n];
      order := RetainOthers(order, n);
      next := FindNext(outputs, order);
    }
    if |outputs| == 0 {
      assert Elements(outputs) == {};
      assert sequence + [] == sequence;
      result := Some(sequence);
    } else {
      assert outputs[0] in Elements(outputs);
      result := None;
    }
  }

  lemma RemoveAt(q: seq<nat>, i: nat)
    requires Distinct(q) && i < |q|
    ensures Distinct(q[..i] + q[i + 1..])
    ensures Elements(q[..i] + q[i + 1..]) == Elements(q) - {q[i]}
  {
    var r := q[..i] + q[i + 1..];
    forall x ensures x in Elements(r) <==> x in Elements(q) && x != q[i] {
      if x in r {
        var j :| 0 <= j < |r| && r[j] == x;
        assert x == if j < i then q[j] else q[j + 1];
      }
      if x in q && x != q[i] {
        var j :| 0 <= j < |q| && q[j] == x;
        assert x == if j < i then r[j] else r[j - 1];
      }
    }
  }

  /** An order is found exactly when the requirements have no cycle; it lists every mentioned
      output once, respects every requirement, and is the least such list. */
  lemma ResolvedCorrect(rel: set<After>)
    ensures Resolved(rel).Some? <==> !Cyclic(rel)
    ensures Resolved(rel).Some? ==> WriteSequence(Resolved(rel).value, Mentioned(rel), rel)
    ensures Resolved(rel).Some? ==> forall q :: WriteSequence(q, Mentioned(rel), rel) ==>
              LexAtMost(Resolved(rel).value, q)
  {
    var nodes := Mentioned(rel);
    MentionedClosed(rel);
    if Stuck(nodes, rel) == {} {
      TakenOrdered(nodes, rel);
      OrderedIsAcyclic(Taken(nodes, rel), nodes, rel);
      forall q | WriteSequence(q, nodes, rel) ensures LexAtMost(Taken(nodes, rel), q) {
        TakenLeast(nodes, rel, q);
      }
    } else {
      StuckIsCyclic(nodes, rel);
    }
  }

  // --------------------------------------------------------- grouping orderings

  datatype Ordering = Ordering(parts: seq<nat>, mappings: map<seq<Option<nat>>, set<After>>, outputs: seq<nat>)

  predicate Shares(a: Ordering, b: Ordering) { exists x :: x in a.outputs && x in b.outputs }

  predicate SharesAny(o: Ordering, group: seq<Ordering>) { exists i :: 0 <= i < |group| && Shares(o, group[i]) }

  /** Each member after the first shares an output with an earlier member. */
  predicate Connected(group: seq<Ordering>)
  {
    |group| > 0 && forall i :: 0 < i < |group| ==> SharesAny(group[i], group[..i])
  }

  /** No member of one group shares an output with a member of the other. */
  predicate Apart(g: seq<Ordering>, h: seq<Ordering>)
  {
    forall i, j :: 0 <= i < |g| && 0 <= j < |h| ==> !Shares(g[i], h[j])
  }

  function Flatten(groups: seq<seq<Ordering>>): multiset<Ordering>
  {
    if |groups| == 0 then multiset{} else Flatten(groups[..|groups| - 1]) + multiset(groups[|groups| - 1])
  }

  method FindShared(orderings: seq<Ordering>, group: seq<Ordering>) returns (index: Option<nat>)
    ensures index.Some? ==> index.value < |orderings| && SharesAny(orderings[index.value], group)
    ensures index.None? ==> Apart(orderings, group)
  {
    for i := 0 to |orderings|
      invariant forall k :: 0 <= k < i ==> !SharesAny(orderings[k], group)
    {
      if SharesAny(orderings[i], group) {
        return Some(i);
      }
    }
    index := None;
    forall i, j | 0 <= i < |orderings| && 0 <= j < |group| ensures !Shares(orderings[i], group[j]) {
      assert !SharesAny(orderings[i], group);
    }
  }

  lemma RemoveMultiset(s: seq<Ordering>, i: nat)
    requires i < |s|
    ensures multiset(s) == multiset(s[..i] + s[i + 1..]) + multiset{s[i]}
  {
    assert s == s[..i] + [s[i]] + s[i + 1..];
  }

  lemma ApartAfterRemoval(s: seq<Ordering>, i: nat, h: seq<Ordering>)
    requires i < |s| && Apart(s, h)
    ensures Apart(s[..i] + s[i + 1..], h)
  {
    var r := s[..i] + s[i + 1..];
    forall k, j | 0 <= k < |r| && 0 <= j < |h| ensures !Shares(r[k], h[j]) {
      assert r[k] == if k < i then s[k] else s[k + 1];
    }
  }

  lemma ConnectedAppend(group: seq<Ordering>, o: Ordering)
    requires Connected(group) && SharesAny(o, group)
    ensures Connected(group + [o])
  {
    var g := group + [o];
    forall i | 0 < i < |g| ensures SharesAny(g[i], g[..i]) {
      if i < |group| {
        assert g[..i] == group[..i];
      } else {
        assert g[..i] == group;
      }
    }
  }

  /** Grows a group from the last ordering until no other ordering shares an output with it. */
  method TakeGroup(orderings: seq<Ordering>) returns (group: seq<Ordering>, rest: seq<Ordering>)
    requires |orderings| > 0
    ensures Connected(group) && Apart(rest, group) && |rest| < |orderings|
    ensures multiset(orderings) == multiset(rest) + multiset(group)
    ensures forall h :: Apart(orderings, h) ==> Apart(rest, h) && Apart(group, h)
  {
    var last := |orderings| - 1;
    group, rest := [orderings[last]], orderings[..last];
    assert orderings == rest + [orderings[last]];
    var index := FindShared(rest, group);
    while index.Some?
      invariant Connected(group) && |rest| < |orderings|
      invariant multiset(orderings) == multiset(rest) + multiset(group)
      invariant forall h :: Apart(orderings, h) ==> Apart(rest, h) && Apart(group, h)
      invariant index.Some? ==> index.value < |rest| && SharesAny(rest[index.value], group)
      invariant index.None? ==> Apart(rest, group)
      decreases |rest|
    {
      var i := index.value;
      RemoveMultiset(rest, i);
      ConnectedAppend(group, rest[i]);
      forall h | Apart(orderings, h) ensures Apart(rest[..i] + rest[i + 1..], h) && Apart(group + [rest[i]], h) {
        ApartAfterRemoval(rest, i, h);
      }
      group, rest := group + [rest[i]], rest[..i] + rest[i + 1..];
      index := FindShared(rest, group);
    }
  }

  lemma ApartSymmetric(g: seq<Ordering>, h: seq<Ordering>)
    requires Apart(g, h)
    ensures Apart(h, g)
  {
    forall i, j | 0 <= i < |h| && 0 <= j < |g| ensures !Shares(h[i], g[j]) {
      assert !Shares(g[j], h[i]);
    }
  }

  lemma FlattenNone()
    ensures Flatten([]) == multiset{}
  {
  }

  lemma FlattenAppend(groups: seq<seq<Ordering>>, group: seq<Ordering>)
    ensures Flatten(groups + [group]) == Flatten(groups) + multiset(group)
  {
    assert (groups + [group])[..|groups|] == groups;
  }

  /** The grouping loop loses and duplicates no ordering; every group is connected through shared
      outputs, and different groups have no output in common. */
  method Group(all: seq<Ordering>) returns (groups: seq<seq<Ordering>>)
    ensures Flatten(groups) == multiset(all)
    ensures forall i :: 0 <= i < |groups| ==> Connected(groups[i])
    ensures forall i, j :: 0 <= i < j < |groups| ==> Apart(groups[i], groups[j])
  {
    hide Connected, Apart, Shares, Flatten;
    groups := [];
    var orderings := all;
    FlattenNone();
    while |orderings| > 0
      invariant Flatten(groups) + multiset(orderings) == multiset(all)
      invariant forall i :: 0 <= i < |groups| ==> Connected(groups[i])
      invariant forall i, j :: 0 <= i < j < |groups| ==> Apart(groups[i], groups[j])
      invariant forall i :: 0 <= i < |groups| ==> Apart(orderings, groups[i])
      decreases |orderings|
    {
      var group, rest := TakeGroup(orderings);
      forall i | 0 <= i < |groups| ensures Apart(groups[i], group) {
        ApartSymmetric(group, groups[i]);
      }
      FlattenAppend(groups, group);
      groups, orderings := groups + [group], rest;
    }
  }

  /** Orderings of which each writes an output that the one before it writes. */
  ghost predicate Linked(path: seq<Ordering>)
  {
    |path| > 0 && forall k :: 0 < k < |path| ==> Link(path, k)
  }

  ghost predicate Link(path: seq<Ordering>, k: nat)
    requires 0 < k < |path|
  {
    exists x :: x in path[k - 1].outputs && x in path[k].outputs
  }

  lemma ChainAppend(path: seq<Ordering>, o: Ordering)
    requires Linked(path) && exists x :: x in path[|path| - 1].outputs && x in o.outputs
    ensures Linked(path + [o])
  {
    var r := path + [o];
    forall k | 0 < k < |r| ensures Link(r, k) {
      if k < |path| {
        assert Link(path, k);
        assert r[k - 1] == path[k - 1] && r[k] == path[k];
      } else {
        var x :| x in path[|path| - 1].outputs && x in o.outputs;
        assert x in r[k - 1].outputs && x in r[k].outputs;
      }
    }
  }

  /** From the first member of a connected group a chain of its members leads to every other. */
  lemma {:induction false} ChainFromFirst(group: seq<Ordering>, i: nat) returns (path: seq<Ordering>)
    requires Connected(group) && i < |group|
    ensures Linked(path) && path[0] == group[0] && path[|path| - 1] == group[i]
    ensures forall k :: 0 <= k < |path| ==> path[k] in group
    decreases i
  {
    if i == 0 {
      path := [group[0]];
    } else {
      assert SharesAny(group[i], group[..i]);
      var j :| 0 <= j < i && Shares(group[i], group[..i][j]);
      path := ChainFromFirst(group, j);
      assert exists x :: x in group[j].outputs && x in group[i].outputs;
      ChainAppend(path, group[i]);
      path := path + [group[i]];
    }
  }

  lemma {:induction false} ChainReversed(path: seq<Ordering>) returns (r: seq<Ordering>)
    requires Linked(path)
    ensures Linked(r) && r[0] == path[|path| - 1] && r[|r| - 1] == path[0]
    ensures forall k :: 0 <= k < |r| ==> r[k] in path
    decreases |path|
  {
    if |path| == 1 {
      r := path;
    } else {
      var rest := path[1..];
      forall k | 0 < k < |rest| ensures Link(rest, k) {
        assert Link(path, k + 1);
      }
      r := ChainReversed(rest);
      assert Link(path, 1);
      ChainAppend(r, path[0]);
      r := r + [path[0]];
    }
  }

  lemma {:induction false} ChainJoined(a: seq<Ordering>, b: seq<Ordering>)
    requires Linked(a) && Linked(b) && a[|a| - 1] == b[0]
    ensures Linked(a + b[1..])
    decreases |b|
  {
    var n := |b| - 1;
    if n == 0 {
      assert a + b[1..] == a;
    } else {
      var front := b[..n];
      forall k | 0 < k < |front| ensures Link(front, k) {
        assert Link(b, k);
      }
      ChainJoined(a, front);
      var r := a + front[1..];
      assert r[|r| - 1] == b[n - 1];
      assert Link(b, n);
      ChainAppend(r, b[n]);
      assert a + b[1..] == r + [b[n]];
    }
  }

  /** Two members of one group are linked by a chain of members of it. */
  lemma ConnectedChain(group: seq<Ordering>, i: nat, j: nat) returns (path: seq<Ordering>)
    requires Connected(group) && i < |group| && j < |group|
    ensures Linked(path) && path[0] == group[i] && path[|path| - 1] == group[j]
    ensures forall k :: 0 <= k < |path| ==> path[k] in group
  {
    var a := ChainFromFirst(group, i);
    var b := ChainFromFirst(group, j);
    var r := ChainReversed(a);
    ChainJoined(r, b);
    path := r + b[1..];
  }

  /** No chain leads from one group into another: the groups are the components of what is linked
      through shared outputs. */
  lemma {:induction false} ChainStays(groups: seq<seq<Ordering>>, i: nat, path: seq<Ordering>, k: nat)
    requires forall a, b :: 0 <= a < b < |groups| ==> Apart(groups[a], groups[b])
    requires i < |groups| && Linked(path) && path[0] in groups[i] && k < |path|
    requires forall k :: 0 <= k < |path| ==> exists g :: 0 <= g < |groups| && path[k] in groups[g]
    ensures path[k] in groups[i]
    decreases k
  {
    if k > 0 {
      ChainStays(groups, i, path, k - 1);
      var g :| 0 <= g < |groups| && path[k] in groups[g];
      assert Link(path, k);
      var x :| x in path[k - 1].outputs && x in path[k].outputs;
      SharedNotApart(groups[g], groups[i], path[k], path[k - 1], x);
      SharedNotApart(groups[i], groups[g], path[k - 1], path[k], x);
    }
  }

  lemma SharedNotApart(g: seq<Ordering>, h: seq<Ordering>, a: Ordering, b: Ordering, x: nat)
    requires a in g && b in h && x in a.outputs && x in b.outputs
    ensures !Apart(g, h)
  {
    var i :| 0 <= i < |g| && g[i] == a;
    var j :| 0 <= j < |h| && h[j] == b;
    assert Shares(g[i], h[j]);
  }

  // ---------------------------------------------------------- combining a group

  /** The requirements that some member of the group lists under a key. */
  ghost predicate Listed(group: seq<Ordering>, key: seq<Option<nat>>, v: After)
  {
    exists i :: 0 <= i < |group| && key in group[i].mappings && v in group[i].mappings[key]
  }

  ghost predicate HasKey(group: seq<Ordering>, key: seq<Option<nat>>)
  {
    exists i :: 0 <= i < |group| && key in group[i].mappings
  }

  /** Adds the entries of one ordering to the combined mapping. */
  method Extend(combined: map<seq<Option<nat>>, set<After>>, o: Ordering) returns (r: map<seq<Option<nat>>, set<After>>)
    ensures forall k :: k in r <==> k in combined || k in o.mappings
    ensures forall k, v :: k in r ==>
              (v in r[k] <==> (k in combined && v in combined[k]) || (k in o.mappings && v in o.mappings[k]))
  {
    r := combined;
    var todo := o.mappings.Keys;
    while todo != {}
      invariant todo <= o.mappings.Keys
      invariant forall k :: k in r <==> k in combined || k in o.mappings.Keys - todo
      invariant forall k, v :: k in r ==>
        (v in r[k] <==> (k in combined && v in combined[k]) || (k in o.mappings.Keys - todo && v in o.mappings[k]))
      decreases |todo|
    {
      var key :| key in todo;
      var present := if key in r then r[key] else {};
      r := r[key := present + o.mappings[key]];
      todo := todo - {key};
    }
  }

  method UniqueConcat(group: seq<Ordering>) returns (outputs: seq<nat>)
    ensures Distinct(outputs)
    ensures forall x :: x in outputs <==> exists i :: 0 <= i < |group| && x in group[i].outputs
  {
    outputs := [];
    for i := 0 to |group|
      invariant Distinct(outputs)
      invariant forall x :: x in outputs <==> exists k :: 0 <= k < i && x in group[k].outputs
    {
      ghost var before := outputs;
      for j := 0 to |group[i].outputs|
        invariant Distinct(outputs)
        invariant forall x :: x in outputs <==> x in before || x in group[i].outputs[..j]
      {
        var x := group[i].outputs[j];
        assert group[i].outputs[..j + 1] == group[i].outputs[..j] + [x];
        if x !in outputs {
          outputs := outputs + [x];
        }
      }
      assert group[i].outputs[..|group[i].outputs|] == group[i].outputs;
    }
  }

  /** Combining fails on groups with different part lists; otherwise each key holds exactly the
      union of what the members list under it. */
  method CombineGroup(group: seq<Ordering>) returns (r: Option<Ordering>)
    requires |group| > 0
    ensures r.Some? <==> forall i :: 0 <= i < |group| ==> group[i].parts == group[0].parts
    ensures r.Some? ==> r.value.parts == group[0].parts && Distinct(r.value.outputs)
    ensures r.Some? ==> forall x :: x in r.value.outputs <==> exists i :: 0 <= i < |group| && x in group[i].outputs
    ensures r.Some? ==> forall k :: k in r.value.mappings <==> HasKey(group, k)
    ensures r.Some? ==> forall k, v :: k in r.value.mappings ==> (v in r.value.mappings[k] <==> Listed(group, k, v))
  {
    if exists i :: 0 <= i < |group| && group[i].parts != group[0].parts {
      return None;
    }
    var outputs := UniqueConcat(group);
    var combined: map<seq<Option<nat>>, set<After>> := map[];
    for i := 0 to |group|
      invariant forall k :: k in combined <==> HasKey(group[..i], k)
      invariant forall k, v :: k in combined ==> (v in combined[k] <==> Listed(group[..i], k, v))
    {
      ghost var before := combined;
      combined := Extend(combined, group[i]);
      CombineStep(group, i);
    }
    assert group[..|group|] == group;
    r := Some(Ordering(group[0].parts, combined, outputs));
  }

  lemma CombineStep(group: seq<Ordering>, i: nat)
    requires i < |group|
    ensures forall k :: HasKey(group[..i + 1], k) <==> HasKey(group[..i], k) || k in group[i].mappings
    ensures forall k, v :: Listed(group[..i + 1], k, v) <==>
              Listed(group[..i], k, v) || (k in group[i].mappings && v in group[i].mappings[k])
  {
    forall k ensures HasKey(group[..i + 1], k) <==> HasKey(group[..i], k) || k in group[i].mappings {
      if HasKey(group[..i], k) {
        var j :| 0 <= j < i && k in group[..i][j].mappings;
        assert group[..i + 1][j] == group[..i][j];
      }
      if HasKey(group[..i + 1], k) {
        var j :| 0 <= j < i + 1 && k in group[..i + 1][j].mappings;
        if j < i { assert group[..i + 1][j] == group[..i][j]; }
      }
      assert group[..i + 1][i] == group[i];
    }
    forall k, v ensures Listed(group[..i + 1], k, v) <==>
                          Listed(group[..i], k, v) || (k in group[i].mappings && v in group[i].mappings[k])
    {
      if Listed(group[..i], k, v) {
        var j :| 0 <= j < i && k in group[..i][j].mappings && v in group[..i][j].mappings[k];
        assert group[..i + 1][j] == group[..i][j];
      }
      if Listed(group[..i + 1], k, v) {
        var j :| 0 <= j < i + 1 && k in group[..i + 1][j].mappings && v in group[..i + 1][j].mappings[k];
        if j < i { assert group[..i + 1][j] == group[..i][j]; }
      }
      assert group[..i + 1][i] == group[i];
    }
  }
}
