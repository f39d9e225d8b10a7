/** Repeated entry points: walking a file again after it was walked only re-records edges
    the graph already has, so `getSortedFilePaths(entryPoints)` gives the same files, in the
    same order, as `getSortedFilePaths(unique(entryPoints))`. */
module RepeatedEntries {
  import opened Outcomes
  import opened Dedup
  import opened Sources
  import opened TopoSort
  import opened DependencyWalk
  import opened SortedFiles

  // ---- a walk depends on the visited list only through its set of members ----

  /** `b1` grew out of `a1` by exactly what `b2` grew out of `a2`. */
  ghost predicate SameDelta(a1: WalkState, b1: WalkState, a2: WalkState, b2: WalkState)
    requires Extends(a1, b1) && Extends(a2, b2)
  {
    b1.graph[|a1.graph|..] == b2.graph[|a2.graph|..] && b1.visited[|a1.visited|..] == b2.visited[|a2.visited|..]
  }

  lemma DeltaConcat(a: WalkState, b: WalkState, c: WalkState)
    requires Extends(a, b) && Extends(b, c)
    ensures Extends(a, c)
    ensures c.graph[|a.graph|..] == b.graph[|a.graph|..] + c.graph[|b.graph|..]
    ensures c.visited[|a.visited|..] == b.visited[|a.visited|..] + c.visited[|b.visited|..]
  {
    ExtendsTrans(a, b, c);
  }

  lemma SameDeltaTrans(a1: WalkState, b1: WalkState, c1: WalkState, a2: WalkState, b2: WalkState, c2: WalkState)
    requires Extends(a1, b1) && Extends(b1, c1) && Extends(a2, b2) && Extends(b2, c2)
    requires SameDelta(a1, b1, a2, b2) && SameDelta(b1, c1, b2, c2)
    ensures Extends(a1, c1) && Extends(a2, c2) && SameDelta(a1, c1, a2, c2)
  {
    DeltaConcat(a1, b1, c1);
    DeltaConcat(a2, b2, c2);
  }

  lemma SeenDelta(a1: WalkState, b1: WalkState, a2: WalkState, b2: WalkState)
    requires Extends(a1, b1) && Extends(a2, b2) && SameDelta(a1, b1, a2, b2)
    requires Seen(a1.visited) == Seen(a2.visited)
    ensures Seen(b1.visited) == Seen(b2.visited)
  {
    assert b1.visited == a1.visited + b1.visited[|a1.visited|..];
    assert b2.visited == a2.visited + b2.visited[|a2.visited|..];
    SeenConcat(a1.visited, b1.visited[|a1.visited|..]);
    SeenConcat(a2.visited, b2.visited[|a2.visited|..]);
  }

  lemma SeenConcat(a: seq<string>, b: seq<string>)
    ensures Seen(a + b) == Seen(a) + Seen(b)
  {
    forall x ensures x in Seen(a + b) <==> x in Seen(a) + Seen(b) {
      assert x in a + b <==> x in a || x in b;
    }
  }

  lemma {:induction false} WalkFileShift(env: Env, s1: WalkState, s2: WalkState, file: string)
    requires Seen(s1.visited) == Seen(s2.visited)
    ensures var r1 := WalkFile(env, s1, file); var r2 := WalkFile(env, s2, file);
      && r1.Ok? == r2.Ok? && (r1.Err? ==> r1 == r2)
      && (r1.Ok? ==> SameDelta(s1, r1.value, s2, r2.value))
    decreases Unvisited(env, s1.visited + [file]), 1, 0, 0
  {
    FileUnfold(env, s1, file);
    FileUnfold(env, s2, file);
    var res := Resolve(env, file);
    if res.Ok? && Dependencies(env, res.value).Ok? {
      var deps := Dependencies(env, res.value).value;
      var t1 := s1.(visited := s1.visited + [file]);
      var t2 := s2.(visited := s2.visited + [file]);
      assert Seen(t1.visited) == Seen(t2.visited) by {
        assert Seen(t1.visited) == Seen(s1.visited) + {file};
        assert Seen(t2.visited) == Seen(s2.visited) + {file};
      }
      WalkDepsShift(env, t1, t2, file, deps, 0);
      var r1 := WalkFile(env, s1, file);
      if r1.Ok? {
        VisitThenDelta(s1, s2, file, r1.value, WalkFile(env, s2, file).value);
      }
    }
  }

  lemma {:induction false} WalkDepsShift(env: Env, s1: WalkState, s2: WalkState, file: string, deps: seq<string>, i: nat)
    requires i <= |deps| && Seen(s1.visited) == Seen(s2.visited)
    ensures var r1 := WalkDeps(env, s1, file, deps, i); var r2 := WalkDeps(env, s2, file, deps, i);
      && r1.Ok? == r2.Ok? && (r1.Err? ==> r1 == r2)
      && (r1.Ok? ==> SameDelta(s1, r1.value, s2, r2.value))
    decreases Unvisited(env, s1.visited), 0, |deps| - i, 2
  {
    if i == |deps| {
    } else if deps[i] !in env.files {
      ResolveFailsUnfold(env, s1, file, deps, i);
      ResolveFailsUnfold(env, s2, file, deps, i);
    } else if deps[i] in s1.visited {
      assert deps[i] in Seen(s2.visited);
      ShiftVisitedStep(env, s1, s2, file, deps, i);
    } else {
      assert deps[i] !in Seen(s2.visited);
      ShiftNestedStep(env, s1, s2, file, deps, i);
    }
  }

  lemma {:induction false} ShiftVisitedStep(env: Env, s1: WalkState, s2: WalkState, file: string, deps: seq<string>, i: nat)
    requires i < |deps| && Seen(s1.visited) == Seen(s2.visited)
    requires deps[i] in env.files && deps[i] in s1.visited && deps[i] in s2.visited
    ensures var r1 := WalkDeps(env, s1, file, deps, i); var r2 := WalkDeps(env, s2, file, deps, i);
      && r1.Ok? == r2.Ok? && (r1.Err? ==> r1 == r2)
      && (r1.Ok? ==> SameDelta(s1, r1.value, s2, r2.value))
    decreases Unvisited(env, s1.visited), 0, |deps| - i, 1
  {
    var e := (deps[i], file);
    var t1 := s1.(graph := s1.graph + [e]);
    var t2 := s2.(graph := s2.graph + [e]);
    VisitedUnfold(env, s1, file, deps, i);
    VisitedUnfold(env, s2, file, deps, i);
    WalkDepsShift(env, t1, t2, file, deps, i + 1);
    var r1 := WalkDeps(env, s1, file, deps, i);
    if r1.Ok? {
      var r2 := WalkDeps(env, s2, file, deps, i);
      assert t1.graph[|s1.graph|..] == [e] && t2.graph[|s2.graph|..] == [e];
      assert t1.visited[|s1.visited|..] == [] && t2.visited[|s2.visited|..] == [];
      SameDeltaTrans(s1, t1, r1.value, s2, t2, r2.value);
    }
  }

  lemma {:induction false} ShiftNestedStep(env: Env, s1: WalkState, s2: WalkState, file: string, deps: seq<string>, i: nat)
    requires i < |deps| && Seen(s1.visited) == Seen(s2.visited)
    requires deps[i] in env.files && deps[i] !in s1.visited && deps[i] !in s2.visited
    ensures var r1 := WalkDeps(env, s1, file, deps, i); var r2 := WalkDeps(env, s2, file, deps, i);
      && r1.Ok? == r2.Ok? && (r1.Err? ==> r1 == r2)
      && (r1.Ok? ==> SameDelta(s1, r1.value, s2, r2.value))
    decreases Unvisited(env, s1.visited), 0, |deps| - i, 1
  {
    var d := deps[i];
    var t1 := s1.(graph := s1.graph + [(d, file)]);
    var t2 := s2.(graph := s2.graph + [(d, file)]);
    NestedUnfold(env, s1, file, deps, i);
    NestedUnfold(env, s2, file, deps, i);
    UnvisitedShrinks(env, t1.visited, d);
    WalkFileShift(env, t1, t2, d);
    var w1 := WalkFile(env, t1, d);
    if w1.Ok? {
      var w2 := WalkFile(env, t2, d);
      UnvisitedMonotone(env, t1.visited, w1.value.visited);
      ShiftAfterNested(env, s1, s2, file, deps, i, w1.value, w2.value);
    }
  }

  /** The rest of the loop after both nested walks grew their states alike. */
  lemma {:induction false} ShiftAfterNested(env: Env, s1: WalkState, s2: WalkState, file: string, deps: seq<string>, i: nat,
                                            w1: WalkState, w2: WalkState)
    requires i < |deps| && Seen(s1.visited) == Seen(s2.visited)
    requires var t1 := s1.(graph := s1.graph + [(deps[i], file)]); var t2 := s2.(graph := s2.graph + [(deps[i], file)]);
      && Extends(t1, w1) && Extends(t2, w2) && SameDelta(t1, w1, t2, w2)
    requires WalkDeps(env, s1, file, deps, i) == WalkDeps(env, w1, file, deps, i + 1)
    requires WalkDeps(env, s2, file, deps, i) == WalkDeps(env, w2, file, deps, i + 1)
    requires Unvisited(env, w1.visited) <= Unvisited(env, s1.visited)
    ensures var r1 := WalkDeps(env, s1, file, deps, i); var r2 := WalkDeps(env, s2, file, deps, i);
      && r1.Ok? == r2.Ok? && (r1.Err? ==> r1 == r2)
      && (r1.Ok? ==> SameDelta(s1, r1.value, s2, r2.value))
    decreases Unvisited(env, s1.visited), 0, |deps| - i, 0
  {
    var e := (deps[i], file);
    SeenDelta(s1.(graph := s1.graph + [e]), w1, s2.(graph := s2.graph + [e]), w2);
    WalkDepsShift(env, w1, w2, file, deps, i + 1);
    var r1 := WalkDeps(env, s1, file, deps, i);
    if r1.Ok? {
      EdgeThenDelta(s1, s2, e, w1, w2, r1.value, WalkDeps(env, s2, file, deps, i).value);
    }
  }

  /** Visiting the same file and then growing alike is growing alike. */
  lemma VisitThenDelta(s1: WalkState, s2: WalkState, file: string, r1: WalkState, r2: WalkState)
    requires var t1 := s1.(visited := s1.visited + [file]); var t2 := s2.(visited := s2.visited + [file]);
      && Extends(t1, r1) && Extends(t2, r2) && SameDelta(t1, r1, t2, r2)
    ensures Extends(s1, r1) && Extends(s2, r2) && SameDelta(s1, r1, s2, r2)
  {
    var t1 := s1.(visited := s1.visited + [file]);
    var t2 := s2.(visited := s2.visited + [file]);
    assert t1.visited[|s1.visited|..] == [file] && t2.visited[|s2.visited|..] == [file];
    assert t1.graph[|s1.graph|..] == [] && t2.graph[|s2.graph|..] == [];
    SameDeltaTrans(s1, t1, r1, s2, t2, r2);
  }

  /** Recording the same edge and then growing alike is growing alike. */
  lemma EdgeThenDelta(s1: WalkState, s2: WalkState, e: Edge, w1: WalkState, w2: WalkState, r1: WalkState, r2: WalkState)
    requires var t1 := s1.(graph := s1.graph + [e]); var t2 := s2.(graph := s2.graph + [e]);
      && Extends(t1, w1) && Extends(t2, w2) && SameDelta(t1, w1, t2, w2)
    requires Extends(w1, r1) && Extends(w2, r2) && SameDelta(w1, r1, w2, r2)
    ensures Extends(s1, r1) && Extends(s2, r2) && SameDelta(s1, r1, s2, r2)
  {
    var t1 := s1.(graph := s1.graph + [e]);
    var t2 := s2.(graph := s2.graph + [e]);
    assert t1.graph[|s1.graph|..] == [e] && t2.graph[|s2.graph|..] == [e];
    assert t1.visited[|s1.visited|..] == [] && t2.visited[|s2.visited|..] == [];
    SameDeltaTrans(s1, t1, w1, s2, t2, w2);
    SameDeltaTrans(s1, w1, r1, s2, w2, r2);
  }

  // ---- states that sort alike ----

  /** Same visited files, same edge set, and same node order: the sort cannot tell the two
      graphs apart. */
  ghost predicate Sim(s1: WalkState, s2: WalkState) {
    && Seen(s1.visited) == Seen(s2.visited)
    && EdgeSet(s1.graph) == EdgeSet(s2.graph)
    && Nodes(s1.graph) == Nodes(s2.graph)
  }

  lemma {:induction false} EndpointsConcat(g: seq<Edge>, h: seq<Edge>)
    ensures Endpoints(g + h) == Endpoints(g) + Endpoints(h)
    decreases |h|
  {
    if h != [] {
      var h' := h[..|h| - 1];
      assert (g + h)[..|g + h| - 1] == g + h';
      EndpointsConcat(g, h');
    } else {
      assert g + h == g;
    }
  }

  lemma GrowSim(s1: WalkState, r1: WalkState, s2: WalkState, r2: WalkState)
    requires Sim(s1, s2) && Extends(s1, r1) && Extends(s2, r2) && SameDelta(s1, r1, s2, r2)
    ensures Sim(r1, r2)
  {
    SeenDelta(s1, r1, s2, r2);
    var dg := r1.graph[|s1.graph|..];
    assert r1.graph == s1.graph + dg && r2.graph == s2.graph + dg;
    assert EdgeSet(r1.graph) == EdgeSet(s1.graph) + EdgeSet(dg);
    assert EdgeSet(r2.graph) == EdgeSet(s2.graph) + EdgeSet(dg);
    EndpointsConcat(s1.graph, dg);
    EndpointsConcat(s2.graph, dg);
    UniqueAppend(Endpoints(s1.graph), Endpoints(dg));
    UniqueAppend(Endpoints(s2.graph), Endpoints(dg));
  }

  /** Walking the same file from two states that sort alike gives the same outcome and
      states that sort alike. */
  lemma SimWalk(env: Env, s1: WalkState, s2: WalkState, file: string)
    requires Sim(s1, s2)
    ensures var r1 := WalkFile(env, s1, file); var r2 := WalkFile(env, s2, file);
      && r1.Ok? == r2.Ok? && (r1.Err? ==> r1 == r2)
      && (r1.Ok? ==> Sim(r1.value, r2.value))
  {
    WalkFileShift(env, s1, s2, file);
    if WalkFile(env, s1, file).Ok? {
      GrowSim(s1, WalkFile(env, s1, file).value, s2, WalkFile(env, s2, file).value);
    }
  }

  // ---- walking a file again ----

  /** Re-recording an edge the graph already has changes neither its edge set nor its
      node order. */
  lemma KnownEdge(g: seq<Edge>, e: Edge)
    requires e in g
    ensures EdgeSet(g + [e]) == EdgeSet(g) && Nodes(g + [e]) == Nodes(g)
  {
    assert (g + [e])[..|g|] == g;
    assert Endpoints(g + [e]) == Endpoints(g) + [e.0, e.1];
    EndpointsOf(g);
    assert e in EdgeSet(g);
    UniqueAppend(Endpoints(g), [e.0, e.1]);
    var u := Unique(Endpoints(g));
    assert e.0 in u && e.1 in u;
    assert UniqueFrom(u, [e.0, e.1]) == UniqueFrom(u, [e.1]) by {
      assert [e.0, e.1][1..] == [e.1];
    }
    assert UniqueFrom(u, [e.1]) == UniqueFrom(u, []) by {
      assert [e.1][1..] == [];
    }
  }

  lemma {:induction false} RewalkDeps(env: Env, s: WalkState, file: string, deps: seq<string>, i: nat)
    requires i <= |deps|
    requires forall j :: i <= j < |deps| ==> deps[j] in env.files && deps[j] in s.visited && (deps[j], file) in s.graph
    ensures var r := WalkDeps(env, s, file, deps, i);
      && r.Ok? && r.value.visited == s.visited
      && EdgeSet(r.value.graph) == EdgeSet(s.graph) && Nodes(r.value.graph) == Nodes(s.graph)
    decreases |deps| - i
  {
    if i < |deps| {
      var e := (deps[i], file);
      var t := s.(graph := s.graph + [e]);
      VisitedUnfold(env, s, file, deps, i);
      KnownEdge(s.graph, e);
      RewalkDeps(env, t, file, deps, i + 1);
    }
  }

  /** Every visited file is walked and every edge comes from an import. */
  ghost predicate Settled(env: Env, st: WalkState) {
    DoneExcept(env, st, {}) && EdgesSound(env, st)
  }

  /** Walking a file that was already walked succeeds and leaves a state that sorts alike. */
  lemma Rewalk(env: Env, s: WalkState, file: string)
    requires Settled(env, s) && file in s.visited
    ensures var r := WalkFile(env, s, file); r.Ok? && Sim(s, r.value) && Settled(env, r.value)
  {
    assert Walked(env, s, file);
    var deps := DepsOf(env, file).value;
    FileUnfold(env, s, file);
    var t := s.(visited := s.visited + [file]);
    forall j | 0 <= j < |deps| ensures deps[j] in env.files && deps[j] in t.visited && (deps[j], file) in t.graph {
      assert deps[j] in s.visited;
      assert Walked(env, s, deps[j]);
    }
    RewalkDeps(env, t, file, deps, 0);
    SeenConcat(s.visited, [file]);
    WalkFileInv(env, s, file, {});
  }

  // ---- the entry-point loop ----

  lemma {:induction false} EntriesLoop(env: Env, s1: WalkState, s2: WalkState, seen: seq<string>, es: seq<string>)
    requires Sim(s1, s2) && Settled(env, s1) && NoDup(seen)
    requires forall x :: x in seen ==> x in s1.visited
    ensures |seen| <= |UniqueFrom(seen, es)|
    ensures var r1 := WalkEntries(env, s1, es); var r2 := WalkEntries(env, s2, UniqueFrom(seen, es)[|seen|..]);
      && r1.Ok? == r2.Ok? && (r1.Err? ==> r1 == r2)
      && (r1.Ok? ==> Sim(r1.value, r2.value))
    decreases |es|, 1
  {
    UniqueFromPrefix(seen, es);
    if es == [] {
      assert UniqueFrom(seen, es)[|seen|..] == [];
    } else if es[0] in seen {
      EntriesRepeat(env, s1, s2, seen, es);
    } else {
      EntriesFresh(env, s1, s2, seen, es);
    }
  }

  /** An entry point walked before: its walk changes nothing the sort can see, and the
      deduplicated list skips it. */
  lemma {:induction false} EntriesRepeat(env: Env, s1: WalkState, s2: WalkState, seen: seq<string>, es: seq<string>)
    requires Sim(s1, s2) && Settled(env, s1) && NoDup(seen)
    requires forall x :: x in seen ==> x in s1.visited
    requires es != [] && es[0] in seen && |seen| <= |UniqueFrom(seen, es)|
    ensures var r1 := WalkEntries(env, s1, es); var r2 := WalkEntries(env, s2, UniqueFrom(seen, es)[|seen|..]);
      && r1.Ok? == r2.Ok? && (r1.Err? ==> r1 == r2)
      && (r1.Ok? ==> Sim(r1.value, r2.value))
    decreases |es|, 0
  {
    var x, t := es[0], es[1..];
    assert UniqueFrom(seen, es) == UniqueFrom(seen, t);
    Rewalk(env, s1, x);
    var w1 := WalkFile(env, s1, x);
    ExtendsMembers(s1, w1.value);
    EntriesLoop(env, w1.value, s2, seen, t);
    assert WalkEntries(env, s1, es) == WalkEntries(env, w1.value, t);
  }

  /** A new entry point: both lists walk it next, from states that sort alike. */
  lemma {:induction false} EntriesFresh(env: Env, s1: WalkState, s2: WalkState, seen: seq<string>, es: seq<string>)
    requires Sim(s1, s2) && Settled(env, s1) && NoDup(seen)
    requires forall x :: x in seen ==> x in s1.visited
    requires es != [] && es[0] !in seen && |seen| <= |UniqueFrom(seen, es)|
    ensures var r1 := WalkEntries(env, s1, es); var r2 := WalkEntries(env, s2, UniqueFrom(seen, es)[|seen|..]);
      && r1.Ok? == r2.Ok? && (r1.Err? ==> r1 == r2)
      && (r1.Ok? ==> Sim(r1.value, r2.value))
    decreases |es|, 0
  {
    var x, t := es[0], es[1..];
    var seen' := seen + [x];
    UniqueFromPrefix(seen', t);
    var u := UniqueFrom(seen', t);
    assert u == UniqueFrom(seen, es);
    var es2 := u[|seen|..];
    assert es2 == [x] + u[|seen'|..] by {
      assert u[|seen|] == seen'[|seen|];
    }
    assert es2[0] == x && es2[1..] == u[|seen'|..];
    SimWalk(env, s1, s2, x);
    var w1 := WalkFile(env, s1, x);
    if w1.Ok? {
      var w2 := WalkFile(env, s2, x);
      WalkFileInv(env, s1, x, {});
      ExtendsMembers(s1, w1.value);
      assert w1.value.visited[|s1.visited|] == x;
      assert NoDup(seen') by { NoDupSnoc(seen, x); }
      EntriesLoop(env, w1.value, w2.value, seen', t);
      assert WalkEntries(env, s1, es) == WalkEntries(env, w1.value, t);
      assert WalkEntries(env, s2, es2) == WalkEntries(env, w2.value, es2[1..]);
    }
  }

  /** Passing an entry point more than once gives the same result as passing it once; only
      the cycle error's visited list keeps the repeats (the same files, walked again). */
  lemma RepeatedEntryPoints(env: Env, entryPoints: seq<string>)
    ensures var a := SortedFilePaths(env, entryPoints); var b := SortedFilePaths(env, Unique(entryPoints));
      && (a.Ok? <==> b.Ok?)
      && (a.Ok? ==> a == b)
      && (a.Err? && !a.error.CycleDetected? ==> a == b)
      && (a.Err? && a.error.CycleDetected? ==>
            b.Err? && b.error.CycleDetected? && Seen(a.error.visited) == Seen(b.error.visited))
  {
    var empty := WalkState([], []);
    EntriesLoop(env, empty, empty, [], entryPoints);
    assert UniqueFrom([], entryPoints)[0..] == Unique(entryPoints);
    var w1 := WalkAll(env, entryPoints);
    if w1.Ok? {
      var w2 := WalkAll(env, Unique(entryPoints));
      assert Sort(w1.value.graph) == Sort(w2.value.graph);
      if Sort(w1.value.graph).Some? {
        UniqueIgnoresRepeats(Sort(w1.value.graph).value, entryPoints);
      }
    }
  }
}
