/** The topological sort the flattener hands its dependency graph to. The graph is an edge
    list with `(dependency, dependent)` pairs, as `graph.add(dependency, file)` records them.
    The sort is Kahn's algorithm: repeatedly take the first remaining node (in order of first
    appearance in the edge list) that no remaining node must precede. */
module TopoSort {
  import opened Outcomes
  import opened Dedup

  type Edge = (string, string)

  /** Both endpoints of every edge, in insertion order. */
  function Endpoints(g: seq<Edge>): seq<string> {
    if g == [] then [] else Endpoints(g[..|g| - 1]) + [g[|g| - 1].0, g[|g| - 1].1]
  }

  /** The graph's nodes, each once, in order of first appearance. */
  function Nodes(g: seq<Edge>): seq<string> {
    Unique(Endpoints(g))
  }

  function EdgeSet(g: seq<Edge>): set<Edge> {
    set e | e in g
  }

  predicate IsPath(edges: set<Edge>, p: seq<string>) {
    forall i :: 0 <= i < |p| - 1 ==> (p[i], p[i + 1]) in edges
  }

  predicate IsCycle(edges: set<Edge>, p: seq<string>) {
    |p| >= 2 && p[0] == p[|p| - 1] && IsPath(edges, p)
  }

  ghost predicate HasCycle(edges: set<Edge>) {
    exists p :: IsCycle(edges, p)
  }

  /** Every edge's dependency comes strictly before its dependent. */
  predicate RespectsEdges(edges: set<Edge>, order: seq<string>) {
    forall i, j :: 0 <= i < |order| && 0 <= j < |order| && (order[i], order[j]) in edges ==> i < j
  }

  /** What the flattener relies on from `graph.sort()`: each node once, every node present,
      every edge respected. */
  ghost predicate IsTopologicalOrder(g: seq<Edge>, order: seq<string>) {
    && NoDup(order)
    && (forall x :: x in order <==> x in Endpoints(g))
    && RespectsEdges(EdgeSet(g), order)
  }

  predicate HasPredIn(edges: set<Edge>, rest: seq<string>, n: string) {
    exists j :: 0 <= j < |rest| && (rest[j], n) in edges
  }

  /** The first index at or after `i` of a node without a predecessor among `rest`, or -1. */
  function FirstReady(edges: set<Edge>, rest: seq<string>, i: nat): (k: int)
    ensures k == -1 || i <= k < |rest|
    ensures k >= 0 ==> !HasPredIn(edges, rest, rest[k])
    ensures forall j :: i <= j < |rest| && (k == -1 || j < k) ==> HasPredIn(edges, rest, rest[j])
    decreases |rest| - i
  {
    if i >= |rest| then -1
    else if !HasPredIn(edges, rest, rest[i]) then i
    else FirstReady(edges, rest, i + 1)
  }

  function KahnFrom(edges: set<Edge>, rest: seq<string>, acc: seq<string>): Option<seq<string>>
    decreases |rest|
  {
    if rest == [] then Some(acc)
    else
      var k := FirstReady(edges, rest, 0);
      if k < 0 then None
      else KahnFrom(edges, rest[..k] + rest[k + 1..], acc + [rest[k]])
  }

  /** `graph.sort()`: None is the "There is a cycle in the graph" failure. */
  function Sort(g: seq<Edge>): Option<seq<string>> {
    KahnFrom(EdgeSet(g), Nodes(g), [])
  }

  // ---- correctness of the sort ----

  /** The loop invariant of Kahn's algorithm. */
  ghost predicate KahnInv(edges: set<Edge>, rest: seq<string>, acc: seq<string>) {
    && NoDup(acc + rest)
    && RespectsEdges(edges, acc)
    && (forall i, j :: 0 <= i < |rest| && 0 <= j < |acc| ==> (rest[i], acc[j]) !in edges)
  }

  lemma RemoveAt(rest: seq<string>, k: nat)
    requires k < |rest|
    ensures var rest' := rest[..k] + rest[k + 1..];
      |rest'| == |rest| - 1 &&
      (forall x :: x in rest' ==> x in rest) &&
      (forall i :: 0 <= i < |rest'| ==> rest'[i] == rest[if i < k then i else i + 1])
  {
  }

  lemma KahnStep(edges: set<Edge>, rest: seq<string>, acc: seq<string>, k: nat)
    requires KahnInv(edges, rest, acc)
    requires k < |rest| && !HasPredIn(edges, rest, rest[k])
    ensures KahnInv(edges, rest[..k] + rest[k + 1..], acc + [rest[k]])
    ensures multiset(acc + rest) == multiset((acc + [rest[k]]) + (rest[..k] + rest[k + 1..]))
  {
    var n := rest[k];
    var rest' := rest[..k] + rest[k + 1..];
    var acc' := acc + [n];
    RemoveAt(rest, k);
    MoveKeepsElements(rest, acc, k);
    assert NoDup(acc' + rest') by {
      DistinctFromMultiset(acc + rest, acc' + rest');
    }
    forall i, j | 0 <= i < |acc'| && 0 <= j < |acc'| && (acc'[i], acc'[j]) in edges
      ensures i < j
    {
      if j == |acc| && i < |acc| {
        assert (acc[i], n) in edges;
        assert acc[i] == (acc + rest)[i] && n == (acc + rest)[|acc| + k];
      }
    }
    forall i, j | 0 <= i < |rest'| && 0 <= j < |acc'|
      ensures (rest'[i], acc'[j]) !in edges
    {
      var i0 := if i < k then i else i + 1;
      assert rest'[i] == rest[i0];
      if j == |acc| {
        assert !((rest[i0], n) in edges);
      }
    }
  }

  /** Two sequences with the same multiset of elements are both duplicate-free or neither. */
  lemma DistinctFromMultiset(a: seq<string>, b: seq<string>)
    requires NoDup(a) && multiset(a) == multiset(b)
    ensures NoDup(b)
  {
    forall i, j | 0 <= i < j < |b| ensures b[i] != b[j] {
      var x := b[i];
      NoDupCount(a, x);
      assert b == b[..i] + [x] + b[i + 1..j] + [b[j]] + b[j + 1..];
      assert multiset(b) == multiset(b[..i]) + multiset{x} + multiset(b[i + 1..j]) + multiset{b[j]} + multiset(b[j + 1..]);
    }
  }

  lemma {:induction false} NoDupCount(a: seq<string>, x: string)
    requires NoDup(a)
    ensures multiset(a)[x] <= 1
    decreases |a|
  {
    if a != [] {
      assert a == [a[0]] + a[1..];
      NoDupCount(a[1..], x);
      if a[0] == x {
        assert x !in a[1..];
        assert multiset(a[1..])[x] == 0;
      }
    }
  }

  /** Taking the node at `k` out of `rest` and onto `acc` keeps the elements overall. */
  lemma MoveKeepsElements(rest: seq<string>, acc: seq<string>, k: nat)
    requires k < |rest|
    ensures multiset(acc + rest) == multiset((acc + [rest[k]]) + (rest[..k] + rest[k + 1..]))
  {
    assert rest == rest[..k] + [rest[k]] + rest[k + 1..];
    assert acc + rest == acc + rest[..k] + [rest[k]] + rest[k + 1..];
    assert (acc + [rest[k]]) + (rest[..k] + rest[k + 1..]) == acc + [rest[k]] + rest[..k] + rest[k + 1..];
  }

  /** On success Kahn's algorithm returns the accumulated and remaining nodes, reordered. */
  lemma {:induction false} KahnPermutes(edges: set<Edge>, rest: seq<string>, acc: seq<string>)
    ensures var r := KahnFrom(edges, rest, acc);
      r.Some? ==> multiset(r.value) == multiset(acc + rest)
    decreases |rest|
  {
    if rest == [] {
      assert acc + rest == acc;
    } else {
      var k := FirstReady(edges, rest, 0);
      if k >= 0 {
        MoveKeepsElements(rest, acc, k);
        KahnPermutes(edges, rest[..k] + rest[k + 1..], acc + [rest[k]]);
      }
    }
  }

  lemma KahnDone(edges: set<Edge>, acc: seq<string>)
    requires KahnInv(edges, [], acc)
    ensures NoDup(acc) && RespectsEdges(edges, acc)
  {
    assert acc + [] == acc;
  }

  lemma KahnUnfold(edges: set<Edge>, rest: seq<string>, acc: seq<string>)
    requires rest != [] && FirstReady(edges, rest, 0) >= 0
    ensures var k := FirstReady(edges, rest, 0);
      KahnFrom(edges, rest, acc) == KahnFrom(edges, rest[..k] + rest[k + 1..], acc + [rest[k]])
  {
  }

  /** A successful result is an order without repeats that respects every edge. */
  predicate Ordered(edges: set<Edge>, r: Option<seq<string>>) {
    r.Some? ==> NoDup(r.value) && RespectsEdges(edges, r.value)
  }

  /** On success Kahn's algorithm returns an order without repeats that respects every edge. */
  lemma {:induction false} KahnOrders(edges: set<Edge>, rest: seq<string>, acc: seq<string>)
    requires KahnInv(edges, rest, acc)
    ensures Ordered(edges, KahnFrom(edges, rest, acc))
    decreases |rest|, 1
  {
    if rest == [] {
      KahnDone(edges, acc);
    } else if FirstReady(edges, rest, 0) >= 0 {
      KahnOrdersMove(edges, rest, acc);
    }
  }

  /** The step case: the first ready node moves to the order. */
  lemma {:induction false} KahnOrdersMove(edges: set<Edge>, rest: seq<string>, acc: seq<string>)
    requires KahnInv(edges, rest, acc)
    requires rest != [] && FirstReady(edges, rest, 0) >= 0
    ensures Ordered(edges, KahnFrom(edges, rest, acc))
    decreases |rest|, 0
  {
    var k := FirstReady(edges, rest, 0);
    KahnStep(edges, rest, acc, k);
    KahnOrders(edges, rest[..k] + rest[k + 1..], acc + [rest[k]]);
    KahnUnfold(edges, rest, acc);
  }

  /** On success Kahn's algorithm returns a permutation of the nodes respecting every edge. */
  lemma KahnSound(edges: set<Edge>, rest: seq<string>, acc: seq<string>)
    requires KahnInv(edges, rest, acc)
    ensures var r := KahnFrom(edges, rest, acc);
      r.Some? ==> NoDup(r.value) && RespectsEdges(edges, r.value) &&
                  multiset(r.value) == multiset(acc + rest)
  {
    KahnPermutes(edges, rest, acc);
    KahnOrders(edges, rest, acc);
  }

  /** Kahn's algorithm fails only when the remaining nodes each have a remaining predecessor;
      `stuck` is the set of nodes left at that point. */
  lemma {:induction false} KahnFailure(edges: set<Edge>, rest: seq<string>, acc: seq<string>)
    returns (stuck: seq<string>)
    requires KahnFrom(edges, rest, acc).None?
    ensures stuck != [] && forall x :: x in stuck ==> x in rest
    ensures forall j :: 0 <= j < |stuck| ==> HasPredIn(edges, stuck, stuck[j])
    decreases |rest|
  {
    var k := FirstReady(edges, rest, 0);
    if k < 0 {
      stuck := rest;
    } else {
      var rest' := rest[..k] + rest[k + 1..];
      RemoveAt(rest, k);
      stuck := KahnFailure(edges, rest', acc + [rest[k]]);
    }
  }

  /** A nonempty set of nodes each of which has a predecessor inside it contains a cycle. */
  lemma StuckHasCycle(edges: set<Edge>, stuck: seq<string>)
    requires stuck != []
    requires forall j :: 0 <= j < |stuck| ==> HasPredIn(edges, stuck, stuck[j])
    ensures HasCycle(edges)
  {
    var q := BackChain(edges, stuck, |stuck|);
    var i, j := Pigeonhole(q, stuck);
    var p := ChainCycle(edges, q, i, j);
  }

  /** A backward chain that revisits a node, read forwards between the visits, is a cycle. */
  lemma ChainCycle(edges: set<Edge>, q: seq<string>, i: nat, j: nat) returns (p: seq<string>)
    requires i < j < |q| && q[i] == q[j]
    requires forall t :: 0 <= t < |q| - 1 ==> (q[t + 1], q[t]) in edges
    ensures IsCycle(edges, p)
  {
    p := seq(j - i + 1, t requires 0 <= t <= j - i => q[j - t]);
    forall t | 0 <= t < |p| - 1 ensures (p[t], p[t + 1]) in edges {
      var u := j - t - 1;
      assert p[t] == q[u + 1] && p[t + 1] == q[u];
    }
  }

  /** A chain walked backwards along edges, staying among `stuck`. */
  lemma {:induction false} BackChain(edges: set<Edge>, stuck: seq<string>, len: nat) returns (q: seq<string>)
    requires stuck != []
    requires forall j :: 0 <= j < |stuck| ==> HasPredIn(edges, stuck, stuck[j])
    ensures |q| == len + 1
    ensures forall t :: 0 <= t < |q| ==> q[t] in stuck
    ensures forall t :: 0 <= t < |q| - 1 ==> (q[t + 1], q[t]) in edges
    decreases len
  {
    if len == 0 {
      q := [stuck[0]];
    } else {
      var q0 := BackChain(edges, stuck, len - 1);
      var last := q0[|q0| - 1];
      var li :| 0 <= li < |stuck| && stuck[li] == last;
      assert HasPredIn(edges, stuck, stuck[li]);
      var m :| 0 <= m < |stuck| && (stuck[m], last) in edges;
      q := q0 + [stuck[m]];
    }
  }

  /** A sequence longer than the set of values it draws from repeats a value. */
  lemma Pigeonhole(q: seq<string>, s: seq<string>) returns (i: nat, j: nat)
    requires |q| > |s|
    requires forall t :: 0 <= t < |q| ==> q[t] in s
    ensures i < j < |q| && q[i] == q[j]
  {
    if NoDup(q) {
      DistinctCard(q);
      SubsetCard(set x | x in q, set x | x in s);
      SetCardAtMost(s);
      assert false;
    }
    i, j :| 0 <= i < j < |q| && q[i] == q[j];
  }

  lemma {:induction false} DistinctCard(q: seq<string>)
    requires NoDup(q)
    ensures |set x | x in q| == |q|
    decreases |q|
  {
    if q != [] {
      var t := q[..|q| - 1];
      DistinctCard(t);
      assert (set x | x in q) == (set x | x in t) + {q[|q| - 1]};
      assert q[|q| - 1] !in t;
    }
  }

  lemma {:induction false} SetCardAtMost(s: seq<string>)
    ensures |set x | x in s| <= |s|
    decreases |s|
  {
    if s != [] {
      var t := s[..|s| - 1];
      SetCardAtMost(t);
      assert (set x | x in s) == (set x | x in t) + {s[|s| - 1]};
    }
  }

  lemma {:induction false} SubsetCard(a: set<string>, b: set<string>)
    requires a <= b
    ensures |a| <= |b|
    decreases |a|
  {
    if a != {} {
      var x :| x in a;
      SubsetCard(a - {x}, b - {x});
    }
  }

  /** Along a path, positions in a respecting order strictly increase. */
  lemma PathIncreases(edges: set<Edge>, order: seq<string>, p: seq<string>)
    requires RespectsEdges(edges, order)
    requires forall e :: e in edges ==> e.0 in order && e.1 in order
    requires |p| >= 2 && IsPath(edges, p)
    ensures p[0] in order && p[|p| - 1] in order
    ensures IndexOf(order, p[0]) < IndexOf(order, p[|p| - 1])
  {
    var n := |p|;
    assert (p[0], p[1]) in edges;
    var t := 1;
    while t < n - 1
      invariant 1 <= t <= n - 1
      invariant p[t] in order && IndexOf(order, p[0]) < IndexOf(order, p[t])
    {
      assert (p[t], p[t + 1]) in edges;
      t := t + 1;
    }
  }

  /** An order that respects every edge and holds every endpoint rules out a cycle. */
  lemma OrderRulesOutCycle(edges: set<Edge>, order: seq<string>)
    requires RespectsEdges(edges, order)
    requires forall e :: e in edges ==> e.0 in order && e.1 in order
    ensures !HasCycle(edges)
  {
    forall p ensures !IsCycle(edges, p) {
      if |p| >= 2 && IsPath(edges, p) {
        PathIncreases(edges, order, p);
      }
    }
  }

  // ---- the sort's contract ----

  lemma {:induction false} EndpointsOf(g: seq<Edge>)
    ensures forall e :: e in EdgeSet(g) ==> e.0 in Endpoints(g) && e.1 in Endpoints(g)
    ensures forall x :: x in Endpoints(g) ==> exists e :: e in g && (x == e.0 || x == e.1)
    decreases |g|
  {
    if g != [] {
      EndpointsOf(g[..|g| - 1]);
      forall e | e in EdgeSet(g) ensures e.0 in Endpoints(g) && e.1 in Endpoints(g) {
        if e != g[|g| - 1] {
          assert e in g[..|g| - 1];
        }
      }
      forall x | x in Endpoints(g) ensures exists e :: e in g && (x == e.0 || x == e.1) {
        if x in Endpoints(g[..|g| - 1]) {
          var e :| e in g[..|g| - 1] && (x == e.0 || x == e.1);
          assert e in g;
        } else {
          assert g[|g| - 1] in g;
        }
      }
    }
  }

  lemma SortSomeCorrect(g: seq<Edge>)
    requires Sort(g).Some?
    ensures IsTopologicalOrder(g, Sort(g).value)
    ensures !HasCycle(EdgeSet(g))
  {
    var nodes := Nodes(g);
    var edges := EdgeSet(g);
    assert [] + nodes == nodes;
    KahnSound(edges, nodes, []);
    EndpointsOf(g);
    var order := Sort(g).value;
    assert multiset(order) == multiset(nodes);
    forall x ensures x in order <==> x in Endpoints(g) {
      assert x in order <==> x in multiset(order);
      assert x in nodes <==> x in multiset(nodes);
    }
    OrderRulesOutCycle(edges, order);
  }

  lemma SortNoneCycle(g: seq<Edge>)
    requires Sort(g).None?
    ensures HasCycle(EdgeSet(g))
  {
    var stuck := KahnFailure(EdgeSet(g), Nodes(g), []);
    StuckHasCycle(EdgeSet(g), stuck);
  }

  /** The sort succeeds exactly when the graph has no cycle, and then returns a
      topological order. */
  lemma SortCorrect(g: seq<Edge>)
    ensures Sort(g).Some? <==> !HasCycle(EdgeSet(g))
    ensures Sort(g).Some? ==> IsTopologicalOrder(g, Sort(g).value)
  {
    if Sort(g).Some? { SortSomeCorrect(g); } else { SortNoneCycle(g); }
  }

  // ---- the sort as a program ----

  /** Whether some node of `rest` must precede `n`. */
  method HasPredecessor(edges: set<Edge>, rest: seq<string>, n: string) returns (b: bool)
    ensures b <==> HasPredIn(edges, rest, n)
  {
    b := false;
    var j := 0;
    while j < |rest| && !b
      invariant 0 <= j <= |rest|
      invariant b <==> exists t :: 0 <= t < j && (rest[t], n) in edges
    {
      b := (rest[j], n) in edges;
      j := j + 1;
    }
  }

  /** The first node of `rest` that nothing remaining must precede, or -1. */
  method FindReady(edges: set<Edge>, rest: seq<string>) returns (k: int)
    ensures k == FirstReady(edges, rest, 0)
  {
    var i := 0;
    while i < |rest|
      invariant 0 <= i <= |rest|
      invariant FirstReady(edges, rest, i) == FirstReady(edges, rest, 0)
    {
      var blocked := HasPredecessor(edges, rest, rest[i]);
      if !blocked {
        return i;
      }
      i := i + 1;
    }
    return -1;
  }

  /** Kahn's algorithm over the edge list: a topological order of its nodes, or None
      exactly when the graph has a cycle. */
  method TopologicalSort(g: seq<Edge>) returns (r: Option<seq<string>>)
    ensures r == Sort(g)
    ensures r.Some? <==> !HasCycle(EdgeSet(g))
    ensures r.Some? ==> IsTopologicalOrder(g, r.value)
  {
    SortCorrect(g);
    var edges := EdgeSet(g);
    var rest := Nodes(g);
    var acc := [];
    while rest != []
      invariant KahnFrom(edges, rest, acc) == Sort(g)
      decreases |rest|
    {
      var k := FindReady(edges, rest);
      if k < 0 {
        return None;
      }
      rest, acc := rest[..k] + rest[k + 1..], acc + [rest[k]];
    }
    return Some(acc);
  }
}
