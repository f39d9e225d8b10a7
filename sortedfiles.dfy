/** `getSortedFilePaths`: walk every entry point with one shared graph and visited list,
    sort the graph, then append the entry points and deduplicate. */
module SortedFiles {
  import opened Outcomes
  import opened Dedup
  import opened Sources
  import opened TopoSort
  import opened DependencyWalk
  import opened WalkFacts

  /** The `for (const entryPoint of entryPoints)` loop: walk each entry in turn. */
  function WalkEntries(env: Env, st: WalkState, entries: seq<string>): (r: Result<WalkState>)
    ensures r.Ok? ==> Extends(st, r.value)
    ensures r.Err? ==> r.error.ResolutionFailure? || r.error.ParseFailure?
    decreases |entries|
  {
    if entries == [] then Ok(st)
    else
      match WalkFile(env, st, entries[0])
      case Err(e) => WalkFileErrors(env, st, entries[0]); Err(e)
      case Ok(st1) =>
        var r := WalkEntries(env, st1, entries[1..]);
        if r.Ok? then ExtendsTrans(st, st1, r.value); r else r
  }

  /** The walk of all entry points from an empty graph and an empty visited list. */
  function WalkAll(env: Env, entryPoints: seq<string>): Result<WalkState> {
    WalkEntries(env, WalkState([], []), entryPoints)
  }

  /** The result of `getSortedFilePaths(entryPoints)`. */
  function SortedFilePaths(env: Env, entryPoints: seq<string>): Result<seq<string>> {
    match WalkAll(env, entryPoints)
    case Err(e) => Err(e)
    case Ok(st) =>
      match Sort(st.graph)
      case None => Err(CycleDetected(st.visited))
      case Some(order) => Ok(Unique(order + entryPoints))
  }

  /** `getSortedFilePaths` as a program: the loop over the entry points calls
      `DependenciesDfs`, then the graph is sorted. */
  method GetSortedFilePaths(env: Env, entryPoints: seq<string>) returns (r: Result<seq<string>>)
    ensures r == SortedFilePaths(env, entryPoints)
  {
    var graph: seq<Edge> := [];
    var visitedFiles: seq<string> := [];
    var i := 0;
    while i < |entryPoints|
      invariant 0 <= i <= |entryPoints|
      invariant WalkEntries(env, WalkState(graph, visitedFiles), entryPoints[i..]) == WalkAll(env, entryPoints)
    {
      assert entryPoints[i..][1..] == entryPoints[i + 1..];
      var w := DependenciesDfs(env, graph, visitedFiles, entryPoints[i]);
      if w.Err? {
        return Err(w.error);
      }
      graph, visitedFiles := w.value.graph, w.value.visited;
      i := i + 1;
    }
    assert entryPoints[i..] == [];
    var sorted := TopologicalSort(graph);
    if sorted.None? {
      return Err(CycleDetected(visitedFiles));
    }
    r := Ok(Unique(sorted.value + entryPoints));
  }

  // ---- what the walk of the entry points leaves behind ----

  /** Every visited file is walked, every edge comes from an import, and every visited file
      is an entry point or an import. */
  ghost predicate Closed(env: Env, st: WalkState, roots: set<string>) {
    DoneExcept(env, st, {}) && EdgesSound(env, st) && Justified(st, roots)
  }

  lemma {:induction false} WalkEntriesInv(env: Env, st: WalkState, entries: seq<string>, roots: set<string>)
    requires Closed(env, st, roots)
    requires forall x :: x in entries ==> x in roots
    ensures var r := WalkEntries(env, st, entries);
      r.Ok? ==> Closed(env, r.value, roots) && forall x :: x in entries ==> x in r.value.visited
    decreases |entries|
  {
    var r := WalkEntries(env, st, entries);
    if entries != [] && r.Ok? {
      var w := WalkFile(env, st, entries[0]);
      WalkFileInv(env, st, entries[0], {});
      WalkFileJustified(env, st, entries[0], roots);
      assert w.value.visited[|st.visited|] == entries[0];
      WalkEntriesInv(env, w.value, entries[1..], roots);
      ExtendsMembers(w.value, r.value);
      forall x | x in entries ensures x in r.value.visited {
        if x != entries[0] {
          assert x in entries[1..];
        }
      }
    }
  }

  lemma WalkAllInv(env: Env, entryPoints: seq<string>)
    requires WalkAll(env, entryPoints).Ok?
    ensures var st := WalkAll(env, entryPoints).value;
      Closed(env, st, set x | x in entryPoints) && forall x :: x in entryPoints ==> x in st.visited
  {
    WalkEntriesInv(env, WalkState([], []), entryPoints, set x | x in entryPoints);
  }

  /** In a closed state the edge endpoints are visited files. */
  lemma EndpointsVisited(env: Env, st: WalkState, roots: set<string>)
    requires Closed(env, st, roots)
    ensures forall x :: x in Endpoints(st.graph) ==> x in st.visited
  {
    EndpointsOf(st.graph);
    forall x | x in Endpoints(st.graph) ensures x in st.visited {
      var e :| e in st.graph && (x == e.0 || x == e.1);
      assert Walked(env, st, e.1);
    }
  }

  // ---- the contract of getSortedFilePaths ----

  /** Every file comes after all of its dependencies. */
  ghost predicate DependenciesFirst(env: Env, files: seq<string>) {
    forall i :: 0 <= i < |files| ==>
      DepsOf(env, files[i]).Ok? && forall d :: d in DepsOf(env, files[i]).value ==> d in files[..i]
  }

  /** Every file is an entry point or an import of a listed file. */
  ghost predicate OnlyNeeded(env: Env, files: seq<string>, entryPoints: seq<string>) {
    forall x :: x in files ==>
      x in entryPoints || exists f :: f in files && DepsOf(env, f).Ok? && x in DepsOf(env, f).value
  }

  lemma {:induction false} IndexOfPrefix(a: seq<string>, b: seq<string>, x: string)
    requires x in a
    ensures IndexOf(a + b, x) == IndexOf(a, x)
    decreases |a|
  {
    if a[0] != x {
      assert (a + b)[1..] == a[1..] + b;
      IndexOfPrefix(a[1..], b, x);
    }
  }

  /** An edge's dependency comes first in a topological order followed by anything. */
  lemma EdgeEarlier(g: seq<Edge>, order: seq<string>, rest: seq<string>, d: string, f: string)
    requires IsTopologicalOrder(g, order) && (d, f) in g
    ensures d in order + rest && f in order + rest
    ensures IndexOf(order + rest, d) < IndexOf(order + rest, f)
  {
    EndpointsOf(g);
    assert (d, f) in EdgeSet(g);
    assert d in order && f in order;
    var p := IndexOf(order, d);
    var q := IndexOf(order, f);
    assert (order[p], order[q]) in EdgeSet(g);
    IndexOfPrefix(order, rest, d);
    IndexOfPrefix(order, rest, f);
  }

  /** What occurs in `s` before the element at position `i` of `unique(s)` is listed before
      position `i`. */
  lemma UniqueEarlier(s: seq<string>, i: nat, d: string)
    requires i < |Unique(s)| && d in s && IndexOf(s, d) < IndexOf(s, Unique(s)[i])
    ensures d in Unique(s)[..i]
  {
    var files := Unique(s);
    var j :| 0 <= j < |files| && files[j] == d;
    assert j < i;
    assert files[..i][j] == d;
  }

  /** A file of the output comes after each of its dependencies. */
  lemma DependencyBefore(env: Env, st: WalkState, roots: set<string>, entryPoints: seq<string>,
                         order: seq<string>, i: nat)
    requires Closed(env, st, roots) && (forall x :: x in entryPoints ==> x in st.visited)
    requires IsTopologicalOrder(st.graph, order)
    requires i < |Unique(order + entryPoints)|
    ensures var files := Unique(order + entryPoints);
      DepsOf(env, files[i]).Ok? && forall d :: d in DepsOf(env, files[i]).value ==> d in files[..i]
  {
    var s := order + entryPoints;
    var files := Unique(s);
    var f := files[i];
    EndpointsVisited(env, st, roots);
    assert f in s;
    assert f in st.visited;
    assert Walked(env, st, f);
    forall d | d in DepsOf(env, f).value ensures d in files[..i] {
      assert (d, f) in st.graph;
      EdgeEarlier(st.graph, order, entryPoints, d, f);
      UniqueEarlier(s, i, d);
    }
  }

  /** A file of the output is an entry point or is imported by a file of the output. */
  lemma Needed(env: Env, st: WalkState, entryPoints: seq<string>, order: seq<string>, x: string)
    requires Closed(env, st, set y | y in entryPoints)
    requires IsTopologicalOrder(st.graph, order)
    requires x in Unique(order + entryPoints)
    ensures x in entryPoints ||
      exists f :: f in Unique(order + entryPoints) && DepsOf(env, f).Ok? && x in DepsOf(env, f).value
  {
    var files := Unique(order + entryPoints);
    if x !in entryPoints {
      var k :| 0 <= k < |files| && files[k] == x;
      assert x in order + entryPoints;
      assert x in order;
      EndpointsOf(st.graph);
      EndpointsVisited(env, st, (set y | y in entryPoints));
      assert x in st.visited;
      var e :| e in st.graph && e.0 == x;
      assert e in EdgeSet(st.graph);
      assert e.1 in order;
      assert e.1 in order + entryPoints;
      assert e.1 in files;
    }
  }

  /** The output is `unique(sorted.concat(entryPoints))`: no duplicates, every entry point is
      present (also one without imports), every file follows its dependencies, and every
      file is an entry point or an import of a listed file. */
  lemma SortedFilePathsCorrect(env: Env, entryPoints: seq<string>)
    ensures var r := SortedFilePaths(env, entryPoints);
      r.Ok? ==>
        && NoDup(r.value)
        && (forall x :: x in entryPoints ==> x in r.value)
        && DependenciesFirst(env, r.value)
        && OnlyNeeded(env, r.value, entryPoints)
  {
    var r := SortedFilePaths(env, entryPoints);
    if r.Ok? {
      var st := WalkAll(env, entryPoints).value;
      var order := Sort(st.graph).value;
      SortCorrect(st.graph);
      WalkAllInv(env, entryPoints);
      assert r.value == Unique(order + entryPoints);
      forall x | x in entryPoints ensures x in r.value {
        assert x in order + entryPoints;
      }
      forall i | 0 <= i < |r.value|
        ensures DepsOf(env, r.value[i]).Ok? && forall d :: d in DepsOf(env, r.value[i]).value ==> d in r.value[..i]
      {
        DependencyBefore(env, st, (set y | y in entryPoints), entryPoints, order, i);
      }
      forall x | x in r.value
        ensures x in entryPoints || exists f :: f in r.value && DepsOf(env, f).Ok? && x in DepsOf(env, f).value
      {
        Needed(env, st, entryPoints, order, x);
      }
    }
  }

  // ---- cycles ----
  /** A chain of imports starting at an entry point: each file imports the next one. */
  ghost predicate ReachedFrom(env: Env, entryPoints: seq<string>, p: seq<string>) {
    && |p| > 0 && p[0] in entryPoints
    && forall i :: 0 <= i < |p| - 1 ==> Imports(env, p[i], p[i + 1])
  }

  /** Every file reachable from an entry point through imports is in `visitedFiles` once
      the walks are done. */
  lemma ReachableVisited(env: Env, entryPoints: seq<string>, p: seq<string>)
    requires WalkAll(env, entryPoints).Ok? && ReachedFrom(env, entryPoints, p)
    ensures forall i :: 0 <= i < |p| ==> p[i] in WalkAll(env, entryPoints).value.visited
  {
    WalkAllInv(env, entryPoints);
    var st := WalkAll(env, entryPoints).value;
    var k := 0;
    while k < |p| - 1
      invariant 0 <= k < |p|
      invariant forall i :: 0 <= i <= k ==> p[i] in st.visited
    {
      assert Walked(env, st, p[k]);
      assert Imports(env, p[k], p[k + 1]);
      k := k + 1;
    }
  }

  /** Every file reachable from an entry point through imports is in the sorted output. */
  lemma ReachableListed(env: Env, entryPoints: seq<string>, p: seq<string>)
    requires SortedFilePaths(env, entryPoints).Ok? && ReachedFrom(env, entryPoints, p)
    ensures forall i :: 0 <= i < |p| ==> p[i] in SortedFilePaths(env, entryPoints).value
  {
    SortedFilePathsCorrect(env, entryPoints);
    var files := SortedFilePaths(env, entryPoints).value;
    var k := 0;
    while k < |p| - 1
      invariant 0 <= k < |p|
      invariant forall i :: 0 <= i <= k ==> p[i] in files
    {
      var j :| 0 <= j < |files| && files[j] == p[k];
      assert p[k + 1] in DepsOf(env, files[j]).value;
      assert p[k + 1] in files[..j];
      k := k + 1;
    }
  }


  /** `f` imports `d`. */
  ghost predicate Imports(env: Env, f: string, d: string) {
    DepsOf(env, f).Ok? && d in DepsOf(env, f).value
  }

  /** Each file of `p` imports the one before it. */
  ghost predicate ImportChain(env: Env, p: seq<string>) {
    forall i :: 0 <= i < |p| - 1 ==> Imports(env, p[i + 1], p[i])
  }

  /** An import chain that ends where it starts. */
  ghost predicate ImportCycle(env: Env, p: seq<string>) {
    |p| >= 2 && p[0] == p[|p| - 1] && ImportChain(env, p)
  }

  lemma {:induction false} IndexOfAtMost(s: seq<string>, x: string, m: nat)
    requires m < |s| && s[m] == x
    ensures IndexOf(s, x) <= m
    decreases m
  {
    if s[0] != x {
      assert s[1..][m - 1] == x;
      IndexOfAtMost(s[1..], x, m - 1);
    }
  }

  /** In a list where every file follows its dependencies, a dependency comes first. */
  lemma DependencyEarlier(env: Env, files: seq<string>, f: string, d: string)
    requires DependenciesFirst(env, files) && f in files && Imports(env, f, d)
    ensures d in files && IndexOf(files, d) < IndexOf(files, f)
  {
    var k := IndexOf(files, f);
    assert d in files[..k];
    var m :| 0 <= m < k && files[..k][m] == d;
    IndexOfAtMost(files, d, m);
  }

  /** Along an import chain ending in a listed file, first positions strictly decrease. */
  lemma {:induction false} Descend(env: Env, files: seq<string>, p: seq<string>, j: nat)
    requires DependenciesFirst(env, files) && ImportChain(env, p)
    requires |p| >= 1 && p[|p| - 1] in files && j < |p|
    ensures p[j] in files && IndexOf(files, p[j]) + (|p| - 1 - j) <= IndexOf(files, p[|p| - 1])
    decreases |p| - j
  {
    if j < |p| - 1 {
      Descend(env, files, p, j + 1);
      assert Imports(env, p[j + 1], p[j]);
      DependencyEarlier(env, files, p[j + 1], p[j]);
    }
  }

  /** A list in which every file follows its dependencies holds no file of an import
      cycle. */
  lemma NoImportCycle(env: Env, files: seq<string>, p: seq<string>)
    requires DependenciesFirst(env, files) && ImportCycle(env, p)
    ensures forall i :: 0 <= i < |p| ==> p[i] !in files
  {
    forall i | 0 <= i < |p| ensures p[i] !in files {
      if p[i] in files {
        var a := p[..i + 1];
        assert ImportChain(env, a) by {
          forall t | 0 <= t < |a| - 1 ensures Imports(env, a[t + 1], a[t]) {
            assert a[t] == p[t] && a[t + 1] == p[t + 1];
          }
        }
        Descend(env, files, a, 0);
        var b := p[i..];
        assert ImportChain(env, b) by {
          forall t | 0 <= t < |b| - 1 ensures Imports(env, b[t + 1], b[t]) {
            assert b[t] == p[i + t] && b[t + 1] == p[i + t + 1];
          }
        }
        Descend(env, files, b, 0);
      }
    }
  }

  /** The sort fails exactly when the walk succeeds and the recorded graph has a cycle;
      the error then carries `visitedFiles` as walked (with the repeats of duplicate entry
      points), and the graph's cycle is an import cycle of visited files. A successful
      result holds no file of an import cycle. */
  lemma SortedFilePathsCycle(env: Env, entryPoints: seq<string>)
    ensures var r := SortedFilePaths(env, entryPoints); var w := WalkAll(env, entryPoints);
      (r.Err? && r.error.CycleDetected? <==> w.Ok? && HasCycle(EdgeSet(w.value.graph)))
    ensures var r := SortedFilePaths(env, entryPoints); var w := WalkAll(env, entryPoints);
      r.Err? && r.error.CycleDetected? ==>
        && r.error.visited == w.value.visited
        && exists p :: ImportCycle(env, p) && forall i :: 0 <= i < |p| ==> p[i] in r.error.visited
    ensures var r := SortedFilePaths(env, entryPoints);
      r.Ok? ==> forall p :: ImportCycle(env, p) ==> forall i :: 0 <= i < |p| ==> p[i] !in r.value
  {
    var r := SortedFilePaths(env, entryPoints);
    var w := WalkAll(env, entryPoints);
    if w.Ok? {
      var st := w.value;
      SortCorrect(st.graph);
      WalkAllInv(env, entryPoints);
      if Sort(st.graph).None? {
        var p :| IsCycle(EdgeSet(st.graph), p);
        GraphCycleIsImportCycle(env, st, p);
      } else {
        SortedFilePathsCorrect(env, entryPoints);
        forall p | ImportCycle(env, p) ensures forall i :: 0 <= i < |p| ==> p[i] !in r.value {
          NoImportCycle(env, r.value, p);
        }
      }
    }
  }

  lemma GraphCycleIsImportCycle(env: Env, st: WalkState, p: seq<string>)
    requires DoneExcept(env, st, {}) && EdgesSound(env, st)
    requires IsCycle(EdgeSet(st.graph), p)
    ensures ImportCycle(env, p) && forall i :: 0 <= i < |p| ==> p[i] in st.visited
  {
    forall i | 0 <= i < |p| ensures p[i] in st.visited {
      if i < |p| - 1 {
        assert (p[i], p[i + 1]) in st.graph;
        assert Walked(env, st, p[i + 1]);
      } else {
        assert (p[i - 1], p[i]) in st.graph;
      }
    }
    forall i | 0 <= i < |p| - 1 ensures Imports(env, p[i + 1], p[i]) {
      assert (p[i], p[i + 1]) in st.graph;
    }
  }

  // ---- the cycle message ----

  const CycleHead: string :=
    "There is a cycle in the dependency graph, can't compute topological ordering. Files:"

  const Sep: string := "\n\t"

  /** `array.join(sep)`. */
  function Join(parts: seq<string>, sep: string): string
    decreases |parts|
  {
    if |parts| == 0 then ""
    else if |parts| == 1 then parts[0]
    else parts[0] + sep + Join(parts[1..], sep)
  }

  /** Each part preceded by the separator. */
  function Listing(parts: seq<string>, sep: string): string
    decreases |parts|
  {
    if parts == [] then "" else sep + parts[0] + Listing(parts[1..], sep)
  }

  /** Where the separator before `parts[i]` starts in `Listing(parts, sep)`. */
  function Position(parts: seq<string>, sep: string, i: nat): nat
    requires i <= |parts|
    decreases i
  {
    if i == 0 then 0 else |sep| + |parts[0]| + Position(parts[1..], sep, i - 1)
  }

  lemma {:induction false} JoinListing(parts: seq<string>, sep: string)
    requires parts != []
    ensures sep + Join(parts, sep) == Listing(parts, sep)
    decreases |parts|
  {
    if |parts| == 1 {
      assert Listing(parts[1..], sep) == "";
    } else {
      JoinListing(parts[1..], sep);
      assert sep + Join(parts, sep) == sep + parts[0] + (sep + Join(parts[1..], sep));
    }
  }

  lemma {:induction false} ListingHolds(parts: seq<string>, sep: string, i: nat)
    requires i < |parts|
    ensures var l := Listing(parts, sep); var k := Position(parts, sep, i);
      k + |sep| + |parts[i]| <= |l| && l[k..k + |sep| + |parts[i]|] == sep + parts[i]
    decreases i
  {
    var l := Listing(parts, sep);
    var tail := Listing(parts[1..], sep);
    assert l == (sep + parts[0]) + tail;
    if i > 0 {
      ListingHolds(parts[1..], sep, i - 1);
      var h := |sep| + |parts[0]|;
      var k := Position(parts[1..], sep, i - 1);
      assert parts[1..][i - 1] == parts[i];
      assert l[h..] == tail;
      assert l[h + k..h + k + |sep| + |parts[i]|] == tail[k..k + |sep| + |parts[i]|];
    }
  }

  /** The text of the cycle error: the fixed head, then `"\n\t" + visitedFiles.join("\n\t")`. */
  function CycleMessage(visited: seq<string>): string {
    CycleHead + Sep + Join(visited, Sep)
  }

  lemma SliceAfter(a: string, b: string, x: nat, y: nat)
    requires x <= y <= |b|
    ensures (a + b)[|a| + x..|a| + y] == b[x..y]
  {
  }

  lemma ListedAfterHead(head: string, parts: seq<string>, sep: string, i: nat)
    requires i < |parts|
    ensures var m := head + sep + Join(parts, sep); var k := |head| + Position(parts, sep, i);
      && m[..|head|] == head
      && k + |sep| + |parts[i]| <= |m|
      && m[k..k + |sep|] == sep && m[k + |sep|..k + |sep| + |parts[i]|] == parts[i]
  {
    JoinListing(parts, sep);
    ListingHolds(parts, sep, i);
    AfterHead(head, sep, Join(parts, sep), Listing(parts, sep), parts[i], Position(parts, sep, i));
  }

  lemma AfterHead(head: string, sep: string, j: string, l: string, b: string, k: nat)
    requires sep + j == l && k + |sep| + |b| <= |l| && l[k..k + |sep| + |b|] == sep + b
    ensures var m := head + sep + j; var k' := |head| + k;
      && m[..|head|] == head
      && k' + |sep| + |b| <= |m|
      && m[k'..k' + |sep|] == sep && m[k' + |sep|..k' + |sep| + |b|] == b
  {
    assert head + sep + j == head + l;
    SlicesAfterHead(head, l, sep, b, k);
  }

  lemma SlicesAfterHead(head: string, l: string, a: string, b: string, k: nat)
    requires k + |a| + |b| <= |l| && l[k..k + |a| + |b|] == a + b
    ensures var m := head + l; var k' := |head| + k;
      && m[..|head|] == head
      && k' + |a| + |b| <= |m|
      && m[k'..k' + |a|] == a && m[k' + |a|..k' + |a| + |b|] == b
  {
    var s, t := |a|, |b|;
    assert l[k..k + s] == a by {
      assert l[k..k + s] == l[k..k + s + t][..s];
    }
    assert l[k + s..k + s + t] == b by {
      assert l[k + s..k + s + t] == l[k..k + s + t][s..];
    }
    SliceAfter(head, l, k, k + s);
    SliceAfter(head, l, k + s, k + s + t);
  }

  /** The cycle message starts with its fixed head and then names every visited file, in
      visit order, each after a line break and a tab. */
  lemma CycleMessageLists(visited: seq<string>, i: nat)
    requires i < |visited|
    ensures var m := CycleMessage(visited); var k := |CycleHead| + Position(visited, Sep, i);
      && m[..|CycleHead|] == CycleHead
      && k + |Sep| + |visited[i]| <= |m|
      && m[k..k + |Sep|] == Sep && m[k + |Sep|..k + |Sep| + |visited[i]|] == visited[i]
  {
    ListedAfterHead(CycleHead, visited, Sep, i);
  }
}
