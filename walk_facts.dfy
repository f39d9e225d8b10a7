/** Further facts about `dependenciesDfs`: the edges into a walked file are exactly its
    imports, in source order (nested walks only ever record edges into files they visit for
    the first time); every import is resolved; every visited file is a root or an import. */
module WalkFacts {
  import opened Outcomes
  import opened Sources
  import opened TopoSort
  import opened DependencyWalk

  /** The edges of `g` into `file`, in recording order. */
  function EdgesInto(g: seq<Edge>, file: string): seq<Edge> {
    if g == [] then []
    else (if g[0].1 == file then [g[0]] else []) + EdgesInto(g[1..], file)
  }

  /** One edge `(dependency, file)` per import, in source order. */
  function ImportEdges(deps: seq<string>, file: string): (r: seq<Edge>)
    ensures |r| == |deps| && forall i :: 0 <= i < |deps| ==> r[i] == (deps[i], file)
  {
    seq(|deps|, i requires 0 <= i < |deps| => (deps[i], file))
  }

  lemma {:induction false} EdgesIntoConcat(a: seq<Edge>, b: seq<Edge>, file: string)
    ensures EdgesInto(a + b, file) == EdgesInto(a, file) + EdgesInto(b, file)
    decreases |a|
  {
    if a == [] {
      assert a + b == b;
    } else {
      assert (a + b)[0] == a[0] && (a + b)[1..] == a[1..] + b;
      EdgesIntoConcat(a[1..], b, file);
    }
  }

  lemma {:induction false} EdgesIntoNone(g: seq<Edge>, file: string)
    requires forall k :: 0 <= k < |g| ==> g[k].1 != file
    ensures EdgesInto(g, file) == []
    decreases |g|
  {
    if g != [] {
      EdgesIntoNone(g[1..], file);
    }
  }

  /** Edges added between `a` and `b` point into files first visited between them. */
  ghost predicate NewTargetsIn(a: WalkState, b: WalkState)
    requires Extends(a, b)
  {
    forall k :: |a.graph| <= k < |b.graph| ==> b.graph[k].1 in b.visited[|a.visited|..]
  }

  /** Files visited between `a` and `b` were not visited in `a`. */
  ghost predicate FreshVisits(a: WalkState, b: WalkState)
    requires Extends(a, b)
  {
    forall k :: |a.visited| <= k < |b.visited| ==> b.visited[k] !in a.visited
  }

  /** What a loop from position `i` adds: freshly visited files, and edges into `file`
      or into those fresh files. */
  ghost predicate DepsFresh(st: WalkState, b: WalkState, file: string)
    requires Extends(st, b)
  {
    && FreshVisits(st, b)
    && forall k :: |st.graph| <= k < |b.graph| ==>
         b.graph[k].1 == file || b.graph[k].1 in b.visited[|st.visited|..]
  }

  lemma {:induction false} WalkFileFresh(env: Env, st: WalkState, file: string)
    ensures var r := WalkFile(env, st, file);
      r.Ok? ==> NewTargetsIn(st, r.value) && (file !in st.visited ==> FreshVisits(st, r.value))
    decreases Unvisited(env, st.visited + [file]), 1, 0, 0
  {
    var r := WalkFile(env, st, file);
    if r.Ok? {
      var st1 := st.(visited := st.visited + [file]);
      var deps := DepsOf(env, file).value;
      assert r == WalkDeps(env, st1, file, deps, 0);
      WalkDepsFresh(env, st1, file, deps, 0);
      PushedFresh(st, st1, r.value, file);
    }
  }

  lemma PushedFresh(st: WalkState, st1: WalkState, b: WalkState, file: string)
    requires st1 == st.(visited := st.visited + [file])
    requires Extends(st1, b) && DepsFresh(st1, b, file)
    ensures Extends(st, b) && NewTargetsIn(st, b)
    ensures file !in st.visited ==> FreshVisits(st, b)
  {
    assert b.visited[|st.visited|] == file;
    forall k | |st.graph| <= k < |b.graph|
      ensures b.graph[k].1 in b.visited[|st.visited|..]
    {
      if b.graph[k].1 != file {
        var t := b.graph[k].1;
        assert t in b.visited[|st1.visited|..];
        var m :| 0 <= m < |b.visited| - |st1.visited| && b.visited[|st1.visited|..][m] == t;
        assert b.visited[|st.visited|..][m + 1] == t;
      } else {
        assert b.visited[|st.visited|..][0] == file;
      }
    }
    if file !in st.visited {
      forall k | |st.visited| <= k < |b.visited| ensures b.visited[k] !in st.visited {
        if k > |st.visited| {
          assert b.visited[k] !in st1.visited;
        }
      }
    }
  }

  /** A step of the loop succeeds only on an import the resolver knows. */
  lemma StepResolves(env: Env, st: WalkState, file: string, deps: seq<string>, i: nat)
    requires i < |deps| && WalkDeps(env, st, file, deps, i).Ok?
    ensures deps[i] in env.files
  {
  }

  lemma {:induction false} WalkDepsFresh(env: Env, st: WalkState, file: string, deps: seq<string>, i: nat)
    requires i <= |deps|
    ensures var r := WalkDeps(env, st, file, deps, i); r.Ok? ==> DepsFresh(st, r.value, file)
    decreases Unvisited(env, st.visited), 0, |deps| - i, 1
  {
    var r := WalkDeps(env, st, file, deps, i);
    if i < |deps| && r.Ok? {
      StepResolves(env, st, file, deps, i);
      if deps[i] in st.visited {
        FreshVisitedStep(env, st, file, deps, i);
      } else {
        FreshNestedStep(env, st, file, deps, i);
      }
    }
  }

  lemma {:induction false} FreshVisitedStep(env: Env, st: WalkState, file: string, deps: seq<string>, i: nat)
    requires i < |deps| && deps[i] in env.files && deps[i] in st.visited
    ensures var r := WalkDeps(env, st, file, deps, i); r.Ok? ==> DepsFresh(st, r.value, file)
    decreases Unvisited(env, st.visited), 0, |deps| - i, 0
  {
    var st1 := st.(graph := st.graph + [(deps[i], file)]);
    VisitedUnfold(env, st, file, deps, i);
    WalkDepsFresh(env, st1, file, deps, i + 1);
    var r := WalkDeps(env, st1, file, deps, i + 1);
    if r.Ok? {
      var b := r.value;
      forall k | |st.graph| <= k < |b.graph|
        ensures b.graph[k].1 == file || b.graph[k].1 in b.visited[|st.visited|..]
      {
        if k == |st.graph| {
          assert b.graph[k] == st1.graph[k];
        }
      }
    }
  }

  lemma {:induction false} FreshNestedStep(env: Env, st: WalkState, file: string, deps: seq<string>, i: nat)
    requires i < |deps| && deps[i] in env.files && deps[i] !in st.visited
    ensures var r := WalkDeps(env, st, file, deps, i); r.Ok? ==> DepsFresh(st, r.value, file)
    decreases Unvisited(env, st.visited), 0, |deps| - i, 0
  {
    var d := deps[i];
    var st1 := st.(graph := st.graph + [(d, file)]);
    NestedUnfold(env, st, file, deps, i);
    UnvisitedShrinks(env, st1.visited, d);
    WalkFileFresh(env, st1, d);
    var w := WalkFile(env, st1, d);
    if w.Ok? {
      var st2 := w.value;
      assert Extends(st1, st2);
      UnvisitedMonotone(env, st1.visited, st2.visited);
      assert Unvisited(env, st2.visited) <= Unvisited(env, st.visited);
      WalkDepsFresh(env, st2, file, deps, i + 1);
      var r := WalkDeps(env, st2, file, deps, i + 1);
      if r.Ok? {
        assert Extends(st2, r.value) && DepsFresh(st2, r.value, file);
        NestedCombine(st, st1, st2, r.value, file);
      }
    }
  }

  /** Gluing the facts about a nested walk and the rest of the loop. */
  lemma NestedCombine(st: WalkState, st1: WalkState, st2: WalkState, b: WalkState, file: string)
    requires st1.visited == st.visited && |st1.graph| == |st.graph| + 1 && st1.graph[|st.graph|].1 == file
    requires Extends(st, st1) && Extends(st1, st2) && Extends(st2, b)
    requires NewTargetsIn(st1, st2) && FreshVisits(st1, st2)
    requires DepsFresh(st2, b, file)
    ensures Extends(st, b) && DepsFresh(st, b, file)
  {
    ExtendsTrans(st, st1, st2);
    ExtendsTrans(st, st2, b);
    ExtendsMembers(st1, st2);
    forall k | |st.visited| <= k < |b.visited| ensures b.visited[k] !in st.visited {
      if k < |st2.visited| {
        assert b.visited[k] == st2.visited[k];
      }
    }
    forall k | |st.graph| <= k < |b.graph|
      ensures b.graph[k].1 == file || b.graph[k].1 in b.visited[|st.visited|..]
    {
      if |st1.graph| <= k < |st2.graph| {
        assert b.graph[k] == st2.graph[k];
        var t := st2.graph[k].1;
        assert t in st2.visited[|st1.visited|..];
        var m :| 0 <= m < |st2.visited| - |st1.visited| && st2.visited[|st1.visited|..][m] == t;
        assert b.visited[|st.visited|..][m] == st2.visited[|st.visited| + m] == t;
      } else if k >= |st2.graph| && b.graph[k].1 != file {
        var t := b.graph[k].1;
        var m :| 0 <= m < |b.visited| - |st2.visited| && b.visited[|st2.visited|..][m] == t;
        assert b.visited[|st.visited|..][m + |st2.visited| - |st.visited|] == t;
      } else if k < |st1.graph| {
        assert k == |st.graph|;
        assert b.graph[k] == st1.graph[k];
      }
    }
  }

  /** The loop from position `i` records the edges into `file` of `deps[i..]`, in order. */
  lemma {:induction false} WalkDepsEdgeOrder(env: Env, st: WalkState, file: string, deps: seq<string>, i: nat)
    requires i <= |deps| && file in st.visited
    ensures var r := WalkDeps(env, st, file, deps, i);
      r.Ok? ==> EdgesInto(r.value.graph[|st.graph|..], file) == ImportEdges(deps[i..], file)
    decreases |deps| - i
  {
    var r := WalkDeps(env, st, file, deps, i);
    if i == |deps| {
      assert r.value.graph[|st.graph|..] == [];
    } else if r.Ok? {
      var mid := StepMiddle(env, st, file, deps, i);
      WalkDepsEdgeOrder(env, mid, file, deps, i + 1);
      EdgeOrderGlue(st, mid, r.value, file, deps, i);
    }
  }

  /** The state after step `i` of the loop: the edge `(deps[i], file)` and possibly a nested
      walk that records no edge into `file`. */
  lemma StepMiddle(env: Env, st: WalkState, file: string, deps: seq<string>, i: nat) returns (mid: WalkState)
    requires i < |deps| && file in st.visited && WalkDeps(env, st, file, deps, i).Ok?
    ensures var st1 := st.(graph := st.graph + [(deps[i], file)]);
      && Extends(st1, mid) && file in mid.visited
      && WalkDeps(env, st, file, deps, i) == WalkDeps(env, mid, file, deps, i + 1)
      && EdgesInto(mid.graph[|st1.graph|..], file) == []
  {
    var d := deps[i];
    var st1 := st.(graph := st.graph + [(d, file)]);
    StepResolves(env, st, file, deps, i);
    if d in st.visited {
      VisitedUnfold(env, st, file, deps, i);
      mid := st1;
      assert mid.graph[|st1.graph|..] == [];
    } else {
      NestedUnfold(env, st, file, deps, i);
      mid := WalkFile(env, st1, d).value;
      WalkFileFresh(env, st1, d);
      ExtendsMembers(st1, mid);
      forall k | 0 <= k < |mid.graph[|st1.graph|..]| ensures mid.graph[|st1.graph|..][k].1 != file {
        var t := mid.graph[|st1.graph| + k].1;
        assert t in mid.visited[|st1.visited|..];
        var m :| 0 <= m < |mid.visited| - |st1.visited| && mid.visited[|st1.visited|..][m] == t;
        assert mid.visited[|st1.visited| + m] == t;
      }
      EdgesIntoNone(mid.graph[|st1.graph|..], file);
    }
  }

  lemma EdgeOrderGlue(st: WalkState, mid: WalkState, b: WalkState, file: string, deps: seq<string>, i: nat)
    requires i < |deps|
    requires var st1 := st.(graph := st.graph + [(deps[i], file)]);
      Extends(st1, mid) && EdgesInto(mid.graph[|st1.graph|..], file) == []
    requires Extends(mid, b)
    requires EdgesInto(b.graph[|mid.graph|..], file) == ImportEdges(deps[i + 1..], file)
    ensures Extends(st, b)
    ensures EdgesInto(b.graph[|st.graph|..], file) == ImportEdges(deps[i..], file)
  {
    var d := deps[i];
    var st1 := st.(graph := st.graph + [(d, file)]);
    ExtendsTrans(st1, mid, b);
    var g := b.graph;
    var n := |st.graph|;
    assert g[n..] == [(d, file)] + g[n + 1..|mid.graph|] + g[|mid.graph|..] by {
      assert g[n] == st1.graph[n];
    }
    assert g[n + 1..|mid.graph|] == mid.graph[|st1.graph|..];
    EdgesIntoConcat([(d, file)] + g[n + 1..|mid.graph|], g[|mid.graph|..], file);
    EdgesIntoConcat([(d, file)], g[n + 1..|mid.graph|], file);
    assert EdgesInto([(d, file)], file) == [(d, file)] by {
      assert [(d, file)][1..] == [];
    }
    assert ImportEdges(deps[i..], file) == [(d, file)] + ImportEdges(deps[i + 1..], file);
  }

  /** `graph.add(dependency, filePath)` runs for every import of the walked file, in
      source order: the edges a walk of `file` records into `file` are its imports. */
  lemma WalkFileEdgeOrder(env: Env, st: WalkState, file: string)
    requires WalkFile(env, st, file).Ok?
    ensures DepsOf(env, file).Ok?
    ensures EdgesInto(WalkFile(env, st, file).value.graph[|st.graph|..], file)
      == ImportEdges(DepsOf(env, file).value, file)
  {
    var st1 := st.(visited := st.visited + [file]);
    var deps := DepsOf(env, file).value;
    assert WalkFile(env, st, file) == WalkDeps(env, st1, file, deps, 0);
    WalkDepsEdgeOrder(env, st1, file, deps, 0);
    assert deps[0..] == deps;
  }

  // ---- every import is resolved ----

  /** `resolve(dependency)` runs before the `visitedFiles` test, so a loop that succeeds
      has resolved every import from position `i` on, visited or not. */
  lemma {:induction false} WalkDepsResolved(env: Env, st: WalkState, file: string, deps: seq<string>, i: nat)
    requires i <= |deps| && WalkDeps(env, st, file, deps, i).Ok?
    ensures forall j :: i <= j < |deps| ==> deps[j] in env.files
    decreases |deps| - i
  {
    if i < |deps| {
      StepResolves(env, st, file, deps, i);
      var st1 := st.(graph := st.graph + [(deps[i], file)]);
      if deps[i] in st.visited {
        VisitedUnfold(env, st, file, deps, i);
        WalkDepsResolved(env, st1, file, deps, i + 1);
      } else {
        NestedUnfold(env, st, file, deps, i);
        WalkDepsResolved(env, WalkFile(env, st1, deps[i]).value, file, deps, i + 1);
      }
    }
  }

  /** A successful walk of `file` has resolved `file` and every one of its imports, even
      those that were already in `visitedFiles`. */
  lemma WalkFileResolved(env: Env, st: WalkState, file: string)
    requires WalkFile(env, st, file).Ok?
    ensures file in env.files && DepsOf(env, file).Ok?
    ensures forall d :: d in DepsOf(env, file).value ==> d in env.files
  {
    var st1 := st.(visited := st.visited + [file]);
    var deps := DepsOf(env, file).value;
    assert WalkFile(env, st, file) == WalkDeps(env, st1, file, deps, 0);
    WalkDepsResolved(env, st1, file, deps, 0);
  }

  // ---- every visited file is a root or an import ----

  /** Each visited file is one of `roots` or the dependency end of a recorded edge. */
  ghost predicate Justified(st: WalkState, roots: set<string>) {
    forall x :: x in st.visited ==> x in roots || exists e :: e in st.graph && e.0 == x
  }

  lemma JustifiedMonotone(a: WalkState, b: WalkState, roots: set<string>)
    requires Extends(a, b) && Justified(a, roots)
    requires forall k :: |a.visited| <= k < |b.visited| ==>
      b.visited[k] in roots || exists e :: e in b.graph && e.0 == b.visited[k]
    ensures Justified(b, roots)
  {
    ExtendsMembers(a, b);
    forall x | x in b.visited ensures x in roots || exists e :: e in b.graph && e.0 == x {
      var k :| 0 <= k < |b.visited| && b.visited[k] == x;
      if k < |a.visited| {
        assert a.visited[k] == x;
      }
    }
  }

  lemma {:induction false} WalkFileJustified(env: Env, st: WalkState, file: string, roots: set<string>)
    requires Justified(st, roots)
    requires file in roots || exists e :: e in st.graph && e.0 == file
    ensures var r := WalkFile(env, st, file); r.Ok? ==> Justified(r.value, roots)
    decreases Unvisited(env, st.visited + [file]), 1, 0, 0
  {
    var r := WalkFile(env, st, file);
    if r.Ok? {
      var st1 := st.(visited := st.visited + [file]);
      var deps := DepsOf(env, file).value;
      assert r == WalkDeps(env, st1, file, deps, 0);
      JustifiedMonotone(st, st1, roots);
      WalkDepsJustified(env, st1, file, deps, 0, roots);
    }
  }

  lemma {:induction false} WalkDepsJustified(env: Env, st: WalkState, file: string, deps: seq<string>, i: nat, roots: set<string>)
    requires i <= |deps| && Justified(st, roots)
    ensures var r := WalkDeps(env, st, file, deps, i); r.Ok? ==> Justified(r.value, roots)
    decreases Unvisited(env, st.visited), 0, |deps| - i, 1
  {
    var r := WalkDeps(env, st, file, deps, i);
    if i < |deps| && r.Ok? {
      StepResolves(env, st, file, deps, i);
      var st1 := st.(graph := st.graph + [(deps[i], file)]);
      JustifiedMonotone(st, st1, roots);
      if deps[i] in st.visited {
        VisitedUnfold(env, st, file, deps, i);
        WalkDepsJustified(env, st1, file, deps, i + 1, roots);
      } else {
        JustifiedNestedStep(env, st, file, deps, i, roots);
      }
    }
  }

  lemma {:induction false} JustifiedNestedStep(env: Env, st: WalkState, file: string, deps: seq<string>, i: nat, roots: set<string>)
    requires i < |deps| && deps[i] in env.files && deps[i] !in st.visited
    requires Justified(st.(graph := st.graph + [(deps[i], file)]), roots)
    ensures var r := WalkDeps(env, st, file, deps, i); r.Ok? ==> Justified(r.value, roots)
    decreases Unvisited(env, st.visited), 0, |deps| - i, 0
  {
    var d := deps[i];
    var st1 := st.(graph := st.graph + [(d, file)]);
    NestedUnfold(env, st, file, deps, i);
    UnvisitedShrinks(env, st1.visited, d);
    assert st1.graph[|st.graph|] == (d, file);
    WalkFileJustified(env, st1, d, roots);
    var w := WalkFile(env, st1, d);
    if w.Ok? {
      UnvisitedMonotone(env, st1.visited, w.value.visited);
      WalkDepsJustified(env, w.value, file, deps, i + 1, roots);
    }
  }

  // ---- how a walk fails ----

  /** A walk fails only because a file cannot be resolved or cannot be parsed. */
  lemma {:induction false} WalkFileErrors(env: Env, st: WalkState, file: string)
    ensures var r := WalkFile(env, st, file); r.Err? ==> r.error.ResolutionFailure? || r.error.ParseFailure?
    decreases Unvisited(env, st.visited + [file]), 1, 0
  {
    FileUnfold(env, st, file);
    var res := Resolve(env, file);
    if res.Ok? && Dependencies(env, res.value).Ok? {
      WalkDepsErrors(env, st.(visited := st.visited + [file]), file, Dependencies(env, res.value).value, 0);
    }
  }

  lemma {:induction false} WalkDepsErrors(env: Env, st: WalkState, file: string, deps: seq<string>, i: nat)
    requires i <= |deps|
    ensures var r := WalkDeps(env, st, file, deps, i); r.Err? ==> r.error.ResolutionFailure? || r.error.ParseFailure?
    decreases Unvisited(env, st.visited), 0, |deps| - i
  {
    if i < |deps| && deps[i] in env.files {
      var st1 := st.(graph := st.graph + [(deps[i], file)]);
      if deps[i] in st.visited {
        VisitedUnfold(env, st, file, deps, i);
        WalkDepsErrors(env, st1, file, deps, i + 1);
      } else {
        NestedUnfold(env, st, file, deps, i);
        UnvisitedShrinks(env, st1.visited, deps[i]);
        WalkFileErrors(env, st1, deps[i]);
        var w := WalkFile(env, st1, deps[i]);
        if w.Ok? {
          UnvisitedMonotone(env, st1.visited, w.value.visited);
          WalkDepsErrors(env, w.value, file, deps, i + 1);
        }
      }
    }
  }
}
