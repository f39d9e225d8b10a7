/** `dependenciesDfs`: the depth-first walk that records one edge `(dependency, file)` per
    import and pushes every walked file onto the shared `visitedFiles` list. */
module DependencyWalk {
  import opened Outcomes
  import opened Sources
  import opened TopoSort

  /** The graph and the visited list that one `getSortedFilePaths` call shares between
      all of its walks. */
  datatype WalkState = WalkState(graph: seq<Edge>, visited: seq<string>)

  function Seen(visited: seq<string>): set<string> {
    set x | x in visited
  }

  /** How many resolvable files are still unvisited: the walk's termination measure. */
  function Unvisited(env: Env, visited: seq<string>): nat {
    |env.files.Keys - Seen(visited)|
  }

  /** `b` is `a` with more edges and more visited files appended. */
  predicate Extends(a: WalkState, b: WalkState) {
    && |a.graph| <= |b.graph| && b.graph[..|a.graph|] == a.graph
    && |a.visited| <= |b.visited| && b.visited[..|a.visited|] == a.visited
  }

  lemma ExtendsTrans(a: WalkState, b: WalkState, c: WalkState)
    requires Extends(a, b) && Extends(b, c)
    ensures Extends(a, c)
  {
    assert c.graph[..|a.graph|] == c.graph[..|b.graph|][..|a.graph|];
    assert c.visited[..|a.visited|] == c.visited[..|b.visited|][..|a.visited|];
  }

  lemma UnvisitedShrinks(env: Env, visited: seq<string>, d: string)
    requires d in env.files && d !in visited
    ensures Unvisited(env, visited + [d]) < Unvisited(env, visited)
  {
    var before := env.files.Keys - Seen(visited);
    assert env.files.Keys - Seen(visited + [d]) == before - {d};
    assert d in before;
  }

  lemma UnvisitedMonotone(env: Env, a: seq<string>, b: seq<string>)
    requires |a| <= |b| && b[..|a|] == a
    ensures Unvisited(env, b) <= Unvisited(env, a)
  {
    forall x | x in a ensures x in b {
      var i :| 0 <= i < |a| && a[i] == x;
      assert b[i] == x;
    }
    SubsetCard(env.files.Keys - Seen(b), env.files.Keys - Seen(a));
  }

  /** Walk one file: push it onto `visited`, resolve it, extract its dependencies, and go
      through them in source order. */
  function WalkFile(env: Env, st: WalkState, file: string): (r: Result<WalkState>)
    ensures r.Ok? ==> Extends(st, r.value)
    ensures r.Ok? ==> |st.visited| < |r.value.visited| && r.value.visited[|st.visited|] == file
    decreases Unvisited(env, st.visited + [file]), 1, 0
  {
    var st1 := st.(visited := st.visited + [file]);
    match Resolve(env, file)
    case Err(e) => Err(e)
    case Ok(resolved) =>
      match Dependencies(env, resolved)
      case Err(e) => Err(e)
      case Ok(deps) =>
        var r := WalkDeps(env, st1, file, deps, 0);
        if r.Ok? then
          ExtendsTrans(st, st1, r.value);
          assert r.value.visited[|st.visited|] == r.value.visited[..|st1.visited|][|st.visited|];
          r
        else r
  }

  /** The `for (let dependency of dependencies)` loop from position `i` on: record the edge,
      resolve the dependency (an unresolvable one is an error even when already visited),
      and walk it only if it is not yet visited. */
  function WalkDeps(env: Env, st: WalkState, file: string, deps: seq<string>, i: nat): (r: Result<WalkState>)
    requires i <= |deps|
    ensures r.Ok? ==> Extends(st, r.value)
    decreases Unvisited(env, st.visited), 0, |deps| - i
  {
    if i == |deps| then Ok(st)
    else
      var d := deps[i];
      var st1 := st.(graph := st.graph + [(d, file)]);
      match Resolve(env, d)
      case Err(e) => Err(e)
      case Ok(_) =>
        if d in st1.visited then
          var r := WalkDeps(env, st1, file, deps, i + 1);
          if r.Ok? then ExtendsTrans(st, st1, r.value); r else r
        else
          UnvisitedShrinks(env, st1.visited, d);
          match WalkFile(env, st1, d)
          case Err(e) => Err(e)
          case Ok(st2) =>
            UnvisitedMonotone(env, st1.visited, st2.visited);
            var r := WalkDeps(env, st2, file, deps, i + 1);
            if r.Ok? then ExtendsTrans(st, st1, st2); ExtendsTrans(st, st2, r.value); r else r
  }

  /** `dependenciesDfs(graph, visitedFiles, filePath)`, the shared state threaded through
      as values: it computes exactly `WalkFile`. */
  method DependenciesDfs(env: Env, graph: seq<Edge>, visitedFiles: seq<string>, filePath: string)
    returns (r: Result<WalkState>)
    ensures r == WalkFile(env, WalkState(graph, visitedFiles), filePath)
    decreases Unvisited(env, visitedFiles + [filePath])
  {
    var start := WalkState(graph, visitedFiles + [filePath]);
    FileUnfold(env, WalkState(graph, visitedFiles), filePath);
    var resolved := Resolve(env, filePath);
    if resolved.Err? {
      return Err(resolved.error);
    }
    var dependencies := Dependencies(env, resolved.value);
    if dependencies.Err? {
      return Err(dependencies.error);
    }
    var deps := dependencies.value;
    var st := start;
    for i := 0 to |deps|
      invariant WalkDeps(env, st, filePath, deps, i) == WalkDeps(env, start, filePath, deps, 0)
      invariant Extends(start, st)
    {
      var dependency := deps[i];
      var st1 := st.(graph := st.graph + [(dependency, filePath)]);
      var resolvedDependency := Resolve(env, dependency);
      if resolvedDependency.Err? {
        ResolveFailsUnfold(env, st, filePath, deps, i);
        return Err(resolvedDependency.error);
      }
      if dependency in st1.visited {
        VisitedUnfold(env, st, filePath, deps, i);
        st := st1;
      } else {
        NestedUnfold(env, st, filePath, deps, i);
        UnvisitedMonotone(env, start.visited, st1.visited);
        UnvisitedShrinks(env, st1.visited, dependency);
        var sub := DependenciesDfs(env, st1.graph, st1.visited, dependency);
        if sub.Err? {
          return Err(sub.error);
        }
        ExtendsTrans(start, st1, sub.value);
        st := sub.value;
      }
    }
    return Ok(st);
  }

  // ---- what a walk establishes ----

  /** Every dependency of `g` is visited and its edge into `g` is recorded. */
  ghost predicate Walked(env: Env, st: WalkState, g: string) {
    && DepsOf(env, g).Ok?
    && forall d :: d in DepsOf(env, g).value ==> d in st.visited && (d, g) in st.graph
  }

  /** Every visited file outside `open` (the files whose loop is still running) is walked. */
  ghost predicate DoneExcept(env: Env, st: WalkState, open: set<string>) {
    forall g :: g in st.visited && g !in open ==> Walked(env, st, g)
  }

  /** Every recorded edge comes from an import of a visited file. */
  ghost predicate EdgesSound(env: Env, st: WalkState) {
    forall e :: e in st.graph ==>
      e.1 in st.visited && DepsOf(env, e.1).Ok? && e.0 in DepsOf(env, e.1).value
  }

  lemma ExtendsMembers(a: WalkState, b: WalkState)
    requires Extends(a, b)
    ensures forall x :: x in a.visited ==> x in b.visited
    ensures forall e :: e in a.graph ==> e in b.graph
  {
    forall x | x in a.visited ensures x in b.visited {
      var i :| 0 <= i < |a.visited| && a.visited[i] == x;
      assert b.visited[i] == x;
    }
    forall e | e in a.graph ensures e in b.graph {
      var i :| 0 <= i < |a.graph| && a.graph[i] == e;
      assert b.graph[i] == e;
    }
  }

  lemma DoneMonotone(env: Env, a: WalkState, b: WalkState, open: set<string>)
    requires Extends(a, b) && DoneExcept(env, a, open)
    requires forall g :: g in b.visited && g !in a.visited ==> g in open
    ensures DoneExcept(env, b, open)
  {
    ExtendsMembers(a, b);
  }

  lemma {:induction false} WalkFileInv(env: Env, st: WalkState, file: string, open: set<string>)
    requires DoneExcept(env, st, open) && EdgesSound(env, st)
    ensures WalkPost(env, WalkFile(env, st, file), file, open)
    decreases Unvisited(env, st.visited + [file]), 1, 0, 0
  {
    var st1 := st.(visited := st.visited + [file]);
    if WalkFile(env, st, file).Ok? {
      var deps := DepsOf(env, file).value;
      assert WalkFile(env, st, file) == WalkDeps(env, st1, file, deps, 0);
      assert Extends(st, st1);
      DoneMonotone(env, st, st1, open + {file});
      WalkDepsInv(env, st1, file, deps, 0, open);
    }
  }

  ghost predicate DepsInvPre(env: Env, st: WalkState, file: string, deps: seq<string>, i: nat, open: set<string>) {
    && i <= |deps| && file in st.visited && DepsOf(env, file) == Ok(deps)
    && DoneExcept(env, st, open + {file}) && EdgesSound(env, st)
    && forall j :: 0 <= j < i ==> deps[j] in st.visited && (deps[j], file) in st.graph
  }

  /** What a successful walk of `file` leaves behind. */
  ghost predicate WalkPost(env: Env, r: Result<WalkState>, file: string, open: set<string>) {
    r.Ok? ==> DoneExcept(env, r.value, open) && EdgesSound(env, r.value) && Walked(env, r.value, file)
  }

  lemma {:induction false} WalkDepsInv(env: Env, st: WalkState, file: string, deps: seq<string>, i: nat, open: set<string>)
    requires DepsInvPre(env, st, file, deps, i, open)
    ensures WalkPost(env, WalkDeps(env, st, file, deps, i), file, open)
    decreases Unvisited(env, st.visited), 0, |deps| - i, 2
  {
    if i == |deps| {
      assert Walked(env, st, file) by {
        forall d | d in deps ensures d in st.visited && (d, file) in st.graph {
          var j :| 0 <= j < |deps| && deps[j] == d;
        }
      }
    } else if deps[i] in env.files {
      if deps[i] in st.visited {
        StepVisited(env, st, file, deps, i, open);
      } else {
        StepNested(env, st, file, deps, i, open);
      }
    }
  }

  lemma {:induction false} StepVisited(env: Env, st: WalkState, file: string, deps: seq<string>, i: nat, open: set<string>)
    requires DepsInvPre(env, st, file, deps, i, open) && i < |deps|
    requires deps[i] in env.files && deps[i] in st.visited
    ensures WalkPost(env, WalkDeps(env, st, file, deps, i), file, open)
    decreases Unvisited(env, st.visited), 0, |deps| - i, 1
  {
    var st1 := st.(graph := st.graph + [(deps[i], file)]);
    RecordEdge(env, st, file, deps, i, open);
    assert WalkDeps(env, st, file, deps, i) == WalkDeps(env, st1, file, deps, i + 1);
    WalkDepsInv(env, st1, file, deps, i + 1, open);
  }

  lemma {:induction false} StepNested(env: Env, st: WalkState, file: string, deps: seq<string>, i: nat, open: set<string>)
    requires DepsInvPre(env, st, file, deps, i, open) && i < |deps|
    requires deps[i] in env.files && deps[i] !in st.visited
    ensures WalkPost(env, WalkDeps(env, st, file, deps, i), file, open)
    decreases Unvisited(env, st.visited), 0, |deps| - i, 1
  {
    var w := WalkFile(env, st.(graph := st.graph + [(deps[i], file)]), deps[i]);
    NestedUnfold(env, st, file, deps, i);
    if w.Ok? {
      NestedKeepsInv(env, st, file, deps, i, open);
      WalkDepsInv(env, w.value, file, deps, i + 1, open);
    }
  }

  /** The nested walk of an unvisited dependency keeps the loop's invariant and does not
      grow the set of unvisited files. */
  lemma NestedKeepsInv(env: Env, st: WalkState, file: string, deps: seq<string>, i: nat, open: set<string>)
    requires DepsInvPre(env, st, file, deps, i, open) && i < |deps|
    requires deps[i] in env.files && deps[i] !in st.visited
    ensures var w := WalkFile(env, st.(graph := st.graph + [(deps[i], file)]), deps[i]);
      w.Ok? ==> DepsInvPre(env, w.value, file, deps, i + 1, open) && Unvisited(env, w.value.visited) <= Unvisited(env, st.visited)
    decreases Unvisited(env, st.visited), 0, |deps| - i, 0
  {
    var d := deps[i];
    var st1 := st.(graph := st.graph + [(d, file)]);
    var w := WalkFile(env, st1, d);
    UnvisitedShrinks(env, st1.visited, d);
    if w.Ok? {
      var st2 := w.value;
      RecordEdge(env, st, file, deps, i, open);
      WalkFileInv(env, st1, d, open + {file});
      assert d in st2.visited by {
        assert st2.visited[|st1.visited|] == d;
      }
      AfterNested(env, st1, st2, file, deps, i, open);
      UnvisitedMonotone(env, st1.visited, st2.visited);
    }
  }

  /** One iteration of the loop that walks an unvisited dependency. */
  lemma VisitedUnfold(env: Env, st: WalkState, file: string, deps: seq<string>, i: nat)
    requires i < |deps| && deps[i] in env.files && deps[i] in st.visited
    ensures WalkDeps(env, st, file, deps, i)
      == WalkDeps(env, st.(graph := st.graph + [(deps[i], file)]), file, deps, i + 1)
  {
  }

  lemma FileUnfold(env: Env, st: WalkState, file: string)
    ensures var res := Resolve(env, file);
      && (res.Err? ==> WalkFile(env, st, file) == Err(res.error))
      && (res.Ok? && Dependencies(env, res.value).Err? ==>
            WalkFile(env, st, file) == Err(Dependencies(env, res.value).error))
      && (res.Ok? && Dependencies(env, res.value).Ok? ==>
            WalkFile(env, st, file)
              == WalkDeps(env, st.(visited := st.visited + [file]), file, Dependencies(env, res.value).value, 0))
  {
  }

  lemma ResolveFailsUnfold(env: Env, st: WalkState, file: string, deps: seq<string>, i: nat)
    requires i < |deps| && Resolve(env, deps[i]).Err?
    ensures WalkDeps(env, st, file, deps, i) == Err(Resolve(env, deps[i]).error)
  {
  }

  lemma NestedUnfold(env: Env, st: WalkState, file: string, deps: seq<string>, i: nat)
    requires i < |deps| && deps[i] in env.files && deps[i] !in st.visited
    ensures var st1 := st.(graph := st.graph + [(deps[i], file)]);
      var w := WalkFile(env, st1, deps[i]);
      && (w.Ok? ==> WalkDeps(env, st, file, deps, i) == WalkDeps(env, w.value, file, deps, i + 1))
      && (w.Err? ==> WalkDeps(env, st, file, deps, i).Err?)
  {
  }

  /** Recording the edge of `deps[i]` keeps the loop's invariant. */
  lemma RecordEdge(env: Env, st: WalkState, file: string, deps: seq<string>, i: nat, open: set<string>)
    requires DepsInvPre(env, st, file, deps, i, open) && i < |deps|
    ensures var st1 := st.(graph := st.graph + [(deps[i], file)]);
      && DoneExcept(env, st1, open + {file}) && EdgesSound(env, st1)
      && (deps[i] in st1.visited ==> DepsInvPre(env, st1, file, deps, i + 1, open))
      && file in st1.visited && (deps[i], file) in st1.graph
      && (forall j :: 0 <= j < i ==> deps[j] in st1.visited && (deps[j], file) in st1.graph)
  {
    var st1 := st.(graph := st.graph + [(deps[i], file)]);
    assert Extends(st, st1);
    ExtendsMembers(st, st1);
    DoneMonotone(env, st, st1, open + {file});
  }

  /** A nested walk of `deps[i]` completed with the loop's invariant intact. */
  lemma AfterNested(env: Env, st1: WalkState, st2: WalkState, file: string, deps: seq<string>, i: nat, open: set<string>)
    requires i < |deps| && file in st1.visited && DepsOf(env, file) == Ok(deps)
    requires forall j :: 0 <= j < i ==> deps[j] in st1.visited && (deps[j], file) in st1.graph
    requires (deps[i], file) in st1.graph
    requires Extends(st1, st2) && deps[i] in st2.visited
    requires DoneExcept(env, st2, open + {file}) && EdgesSound(env, st2)
    ensures DepsInvPre(env, st2, file, deps, i + 1, open)
  {
    ExtendsMembers(st1, st2);
  }
}
