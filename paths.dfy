/** File-path helpers: `getDirPath`, `getNormalizedDependencyPath`, and the parts of
    POSIX `path.join` / `path.normalize` they rely on. The separator is always '/'. */
module Paths {
  import Dedup

  const Sep: char := '/'

  function LastIndexOf(s: string, c: char): (k: int)
    ensures -1 <= k < |s|
    ensures k >= 0 ==> s[k] == c
    ensures forall i :: k < i < |s| ==> s[i] != c
  {
    if |s| == 0 then -1
    else if s[|s| - 1] == c then |s| - 1
    else LastIndexOf(s[..|s| - 1], c)
  }

  /** `getDirPath`: `substring(0, lastIndexOf(sep))`; `substring` clamps the -1 of a
      separator-free path to 0, so such a path has the empty directory. */
  function DirPath(p: string): (r: string)
    ensures |r| <= |p| && r == p[..|r|]
    ensures Sep !in p ==> r == ""
    ensures Sep in p ==> |r| < |p| && p[|r|] == Sep && Sep !in p[|r| + 1..]
  {
    var k := LastIndexOf(p, Sep);
    if k < 0 then "" else p[..k]
  }

  predicate StartsWith(s: string, prefix: string) {
    |prefix| <= |s| && s[..|prefix|] == prefix
  }

  /** `s.split('/')`: never empty, and no piece holds a separator. */
  function Split(s: string): (r: seq<string>)
    ensures |r| >= 1
    ensures forall i :: 0 <= i < |r| ==> Sep !in r[i]
    decreases |s|
  {
    if Sep !in s then [s]
    else
      var i := Dedup.IndexOf(s, Sep);
      [s[..i]] + Split(s[i + 1..])
  }

  function JoinSegments(segs: seq<string>): string {
    if |segs| == 0 then ""
    else if |segs| == 1 then segs[0]
    else segs[0] + [Sep] + JoinSegments(segs[1..])
  }

  /** One segment of Node's `normalizeString`: empty and `.` segments vanish, `..` drops the
      last real segment, or stays when there is none and the path is relative. */
  function Step(stack: seq<string>, seg: string, allowAboveRoot: bool): seq<string> {
    if seg == "" || seg == "." then stack
    else if seg == ".." then
      if |stack| > 0 && stack[|stack| - 1] != ".." then stack[..|stack| - 1]
      else if allowAboveRoot then stack + [".."]
      else stack
    else stack + [seg]
  }

  function Collapse(stack: seq<string>, segs: seq<string>, allowAboveRoot: bool): seq<string>
    decreases |segs|
  {
    if segs == [] then stack
    else Collapse(Step(stack, segs[0], allowAboveRoot), segs[1..], allowAboveRoot)
  }

  /** POSIX `path.normalize`. */
  function Normalize(p: string): string {
    if p == "" then "."
    else
      var absolute := p[0] == Sep;
      var trailing := p[|p| - 1] == Sep;
      Shown(Collapse([], Split(p), !absolute), absolute, trailing)
  }

  /** How `path.normalize` prints resolved segments: `/`, `./` or `.` when none are left,
      otherwise the segments joined by '/', keeping the root and the trailing '/'. */
  function Shown(segs: seq<string>, absolute: bool, trailing: bool): string {
    if segs == [] then (if absolute then "/" else if trailing then "./" else ".")
    else Render(segs, absolute, trailing)
  }

  /** The non-empty arguments of `path.join(a, b)` glued by '/'. */
  function Joined(a: string, b: string): string {
    if a == "" then b else if b == "" then a else a + [Sep] + b
  }

  /** POSIX `path.join(a, b)`: the non-empty arguments joined by '/', then normalised. */
  function PathJoin(a: string, b: string): string {
    if a == "" && b == "" then "." else Normalize(Joined(a, b))
  }

  predicate IsRelativeSpecifier(dependency: string) {
    StartsWith(dependency, "./") || StartsWith(dependency, "../")
  }

  /** Segments in normal form: none empty, none `.`, none holding a separator, and `..`
      only in a run at the front of a relative path. */
  predicate Clean(segs: seq<string>, absolute: bool) {
    forall i :: 0 <= i < |segs| ==>
      && segs[i] != "" && segs[i] != "." && Sep !in segs[i]
      && (segs[i] == ".." ==> !absolute && forall j :: 0 <= j < i ==> segs[j] == "..")
  }

  /** A normalised path: one of the markers `/`, `./` and `.`, or segments in normal form
      joined by single '/'s, after a '/' exactly when absolute, with at most one trailing
      '/'. */
  ghost predicate IsNormal(r: string) {
    || r == "/" || r == "./" || r == "."
    || exists segs: seq<string>, absolute: bool, trailing: bool ::
         segs != [] && Clean(segs, absolute) && r == Render(segs, absolute, trailing)
  }

  /** `getNormalizedDependencyPath`: a `./` or `../` specifier is joined to the directory of
      the importing file and normalised (see `RelativeDependencyPath`); any other
      specifier is returned unchanged. */
  function NormalizedDependencyPath(dependency: string, filePath: string): (r: string)
    ensures !IsRelativeSpecifier(dependency) ==> r == dependency
  {
    if IsRelativeSpecifier(dependency) then
      Normalize(PathJoin(DirPath(filePath), dependency))
    else dependency
  }

  // ---- lemmas about splitting and joining ----

  lemma {:induction false} SplitConcat(a: string, b: string)
    ensures Split(a + [Sep] + b) == Split(a) + Split(b)
    decreases |a|
  {
    if Sep !in a {
      SplitConcatPlain(a, b);
    } else {
      var i := Dedup.IndexOf(a, Sep);
      var x, rest := a[..i], a[i + 1..];
      assert a == x + [Sep] + rest;
      SplitConcat(rest, b);
      SplitConcatStep(x, rest, b);
    }
  }

  lemma SplitConcatPlain(a: string, b: string)
    requires Sep !in a
    ensures Split(a + [Sep] + b) == [a] + Split(b)
  {
    var s := a + [Sep] + b;
    assert s[..|a|] == a && s[|a| + 1..] == b;
    SplitAt(s, |a|);
  }

  lemma SplitConcatStep(x: string, rest: string, b: string)
    requires Sep !in x
    requires Split(rest + [Sep] + b) == Split(rest) + Split(b)
    ensures Split(x + [Sep] + rest + [Sep] + b) == Split(x + [Sep] + rest) + Split(b)
  {
    var tail := rest + [Sep] + b;
    calc {
      Split(x + [Sep] + rest + [Sep] + b);
      { assert x + [Sep] + rest + [Sep] + b == x + [Sep] + tail; }
      Split(x + [Sep] + tail);
      { SplitConcatPlain(x, tail); }
      [x] + Split(tail);
      [x] + (Split(rest) + Split(b));
      ([x] + Split(rest)) + Split(b);
      { SplitConcatPlain(x, rest); }
      Split(x + [Sep] + rest) + Split(b);
    }
  }

  /** Splitting at the first separator. */
  lemma SplitAt(s: string, k: nat)
    requires k < |s| && s[k] == Sep && Sep !in s[..k]
    ensures Split(s) == [s[..k]] + Split(s[k + 1..])
  {
  }

  lemma {:induction false} SplitJoin(segs: seq<string>)
    requires |segs| >= 1
    requires forall i :: 0 <= i < |segs| ==> Sep !in segs[i]
    ensures Split(JoinSegments(segs)) == segs
    decreases |segs|
  {
    if |segs| > 1 {
      var rest := segs[1..];
      assert forall i :: 0 <= i < |rest| ==> Sep !in rest[i] by {
        forall i | 0 <= i < |rest| ensures Sep !in rest[i] { assert rest[i] == segs[i + 1]; }
      }
      SplitJoin(rest);
      assert JoinSegments(segs) == segs[0] + [Sep] + JoinSegments(rest);
      SplitConcat(segs[0], JoinSegments(rest));
      assert Split(segs[0]) == [segs[0]];
      assert segs == [segs[0]] + rest;
    } else {
      assert Sep !in segs[0];
    }
  }

  lemma {:induction false} JoinSegmentsEnds(segs: seq<string>)
    requires |segs| >= 1
    requires forall i :: 0 <= i < |segs| ==> segs[i] != "" && Sep !in segs[i]
    ensures var j := JoinSegments(segs); j != "" && j[0] != Sep && j[|j| - 1] != Sep
    decreases |segs|
  {
    if |segs| > 1 {
      JoinSegmentsEnds(segs[1..]);
      var j := JoinSegments(segs);
      assert j[0] == segs[0][0];
      assert Sep !in segs[0];
    } else {
      assert Sep !in segs[0];
    }
  }

  // ---- lemmas about collapsing ----

  lemma {:induction false} CollapseAppend(stack: seq<string>, a: seq<string>, b: seq<string>, allow: bool)
    ensures Collapse(stack, a + b, allow) == Collapse(Collapse(stack, a, allow), b, allow)
    decreases |a|
  {
    if a == [] {
      assert a + b == b;
    } else {
      assert (a + b)[0] == a[0] && (a + b)[1..] == a[1..] + b;
      CollapseAppend(Step(stack, a[0], allow), a[1..], b, allow);
    }
  }

  /** Collapsing keeps a stack in normal form. */
  lemma {:induction false} CollapseClean(stack: seq<string>, segs: seq<string>, absolute: bool)
    requires Clean(stack, absolute)
    requires forall i :: 0 <= i < |segs| ==> Sep !in segs[i]
    ensures Clean(Collapse(stack, segs, !absolute), absolute)
    decreases |segs|
  {
    if segs != [] {
      var seg := segs[0];
      var next := Step(stack, seg, !absolute);
      if seg == ".." && !(|stack| > 0 && stack[|stack| - 1] != "..") && !absolute {
        assert next == stack + [".."];
        assert forall j :: 0 <= j < |stack| ==> stack[j] == "..";
      }
      assert Clean(next, absolute);
      CollapseClean(next, segs[1..], absolute);
    }
  }

  /** Collapsing segments that are already in normal form appends them unchanged. */
  lemma {:induction false} CollapseOfClean(stack: seq<string>, segs: seq<string>, absolute: bool)
    requires Clean(stack + segs, absolute)
    ensures Collapse(stack, segs, !absolute) == stack + segs
    decreases |segs|
  {
    if segs != [] {
      var seg := segs[0];
      assert seg == (stack + segs)[|stack|];
      if seg == ".." {
        assert forall j :: 0 <= j < |stack| ==> stack[j] == (stack + segs)[j] == "..";
      }
      assert Step(stack, seg, !absolute) == stack + [seg];
      assert stack + segs == (stack + [seg]) + segs[1..];
      CollapseOfClean(stack + [seg], segs[1..], absolute);
    }
  }

  // ---- properties of Normalize ----

  /** The segments `Normalize` renders, and the flags it keeps. */
  lemma NormalizeParts(p: string)
    requires p != ""
    ensures var segs := Collapse([], Split(p), p[0] != Sep);
      Clean(segs, p[0] == Sep)
  {
    CollapseClean([], Split(p), p[0] == Sep);
  }

  /** `Normalize` yields a normalised path: a marker, or segments with no empty or `.` ones
      and `..` only at the front of a relative path, joined by single '/'s. */
  lemma NormalizeIsNormal(p: string)
    ensures IsNormal(Normalize(p))
  {
    if p != "" {
      NormalizeParts(p);
      var absolute := p[0] == Sep;
      var trailing := p[|p| - 1] == Sep;
      var segs := Collapse([], Split(p), !absolute);
      if segs != [] {
        assert Normalize(p) == Render(segs, absolute, trailing);
      }
    }
  }

  function Render(segs: seq<string>, absolute: bool, trailing: bool): string {
    (if absolute then "/" else "") + JoinSegments(segs) + (if trailing then "/" else "")
  }

  lemma SplitAfterSlash(x: string)
    ensures Split("/" + x) == [""] + Split(x)
  {
    assert "/" + x == "" + [Sep] + x;
    SplitConcat("", x);
  }

  lemma SplitBeforeSlash(x: string)
    ensures Split(x + "/") == Split(x) + [""]
  {
    assert x + "/" == x + [Sep] + "";
    SplitConcat(x, "");
  }

  lemma RenderedEnds(segs: seq<string>, absolute: bool, trailing: bool)
    requires segs != [] && Clean(segs, absolute)
    ensures var r := Render(segs, absolute, trailing);
      r != "" && (r[0] == Sep <==> absolute) && (r[|r| - 1] == Sep <==> trailing)
  {
    JoinSegmentsEnds(segs);
    var j := JoinSegments(segs);
    var r := Render(segs, absolute, trailing);
    if absolute { assert r[0] == '/'; } else { assert r[0] == j[0]; }
    if trailing { assert r[|r| - 1] == '/'; } else { assert r[|r| - 1] == j[|j| - 1]; }
  }

  /** An optional leading separator adds an empty first piece. */
  lemma SplitLead(x: string, absolute: bool)
    ensures Split((if absolute then "/" else "") + x) == (if absolute then [""] else []) + Split(x)
  {
    if absolute { SplitAfterSlash(x); } else { assert "" + x == x; }
  }

  /** An optional trailing separator adds an empty last piece. */
  lemma SplitTrail(x: string, trailing: bool)
    ensures Split(x + (if trailing then "/" else "")) == Split(x) + (if trailing then [""] else [])
  {
    if trailing { SplitBeforeSlash(x); } else { assert x + "" == x; }
  }

  /** Splitting a rendered path gives the pieces between its separators. */
  lemma RenderedPieces(segs: seq<string>, absolute: bool, trailing: bool)
    requires |segs| >= 1 && forall i :: 0 <= i < |segs| ==> Sep !in segs[i]
    ensures Split(Render(segs, absolute, trailing))
      == (if absolute then [""] else []) + segs + (if trailing then [""] else [])
  {
    var j := JoinSegments(segs);
    SplitJoin(segs);
    var x := (if absolute then "/" else "") + j;
    SplitLead(j, absolute);
    SplitTrail(x, trailing);
  }

  /** The three outputs without segments are fixed points. */
  lemma NormalizeMarkers()
    ensures Normalize("/") == "/" && Normalize("./") == "./" && Normalize(".") == "."
  {
    NormalizeRoot();
    NormalizeDotSlash();
    assert Split(".") == ["."];
  }

  lemma NormalizeRoot()
    ensures Normalize("/") == "/"
  {
    assert "/" == "" + [Sep] + "";
    SplitConcat("", "");
    assert Collapse([], ["", ""], false) == [];
  }

  lemma NormalizeDotSlash()
    ensures Normalize("./") == "./"
  {
    assert "./" == "." + [Sep] + "";
    SplitConcat(".", "");
    assert Collapse([], [".", ""], true) == [];
  }

  /** A rendered normal form is a fixed point. */
  lemma NormalizeRender(segs: seq<string>, absolute: bool, trailing: bool)
    requires segs != [] && Clean(segs, absolute)
    ensures Normalize(Render(segs, absolute, trailing)) == Render(segs, absolute, trailing)
  {
    RenderedEnds(segs, absolute, trailing);
    RenderedPieces(segs, absolute, trailing);
    var r := Render(segs, absolute, trailing);
    var front: seq<string> := if absolute then [""] else [];
    var back: seq<string> := if trailing then [""] else [];
    CollapseAppend([], front + segs, back, !absolute);
    CollapseAppend([], front, segs, !absolute);
    assert Collapse([], front, !absolute) == [];
    assert [] + segs == segs;
    CollapseOfClean([], segs, absolute);
    assert Collapse(segs, back, !absolute) == segs;
    assert Collapse([], Split(r), !absolute) == segs;
  }

  /** Normalising twice is normalising once. */
  lemma NormalizeIdempotent(p: string)
    ensures Normalize(Normalize(p)) == Normalize(p)
  {
    NormalizeMarkers();
    if p != "" {
      NormalizeParts(p);
      var absolute := p[0] == Sep;
      var trailing := p[|p| - 1] == Sep;
      var segs := Collapse([], Split(p), !absolute);
      if segs != [] {
        NormalizeRender(segs, absolute, trailing);
      }
    }
  }

  // ---- properties of PathJoin ----

  /** A path made of a single empty piece collapses to nothing more. */
  lemma CollapseEmptyPiece(stack: seq<string>, allow: bool)
    ensures Collapse(stack, [""], allow) == stack
  {
    assert [""][1..] == [];
  }

  /** The glued arguments split into the pieces of `a` followed by the pieces of `b`, and
      begin and end where the non-empty arguments do. */
  lemma JoinedSegments(a: string, b: string, allow: bool)
    requires a != "" || b != ""
    ensures var x := Joined(a, b);
      && x != ""
      && (x[0] == Sep <==> (if a != "" then a[0] == Sep else b[0] == Sep))
      && (x[|x| - 1] == Sep <==> (if b != "" then b[|b| - 1] == Sep else a[|a| - 1] == Sep))
      && Collapse([], Split(x), allow) == Collapse([], Split(a) + Split(b), allow)
  {
    assert Split("") == [""];
    if a == "" {
      assert ([""] + Split(b))[1..] == Split(b);
    } else if b == "" {
      CollapseAppend([], Split(a), [""], allow);
      CollapseEmptyPiece(Collapse([], Split(a), allow), allow);
    } else {
      SplitConcat(a, b);
    }
  }

  /** `path.join(a, b)` resolves the pieces of `a` followed by those of `b`; the result is
      absolute when the first non-empty argument is, and keeps a trailing '/' of the last. */
  lemma PathJoinShown(a: string, b: string)
    requires a != "" || b != ""
    ensures var absolute := if a != "" then a[0] == Sep else b[0] == Sep;
      var trailing := if b != "" then b[|b| - 1] == Sep else a[|a| - 1] == Sep;
      PathJoin(a, b) == Shown(Collapse([], Split(a) + Split(b), !absolute), absolute, trailing)
  {
    var absolute := if a != "" then a[0] == Sep else b[0] == Sep;
    JoinedSegments(a, b, !absolute);
  }

  /** `path.join` already yields a normalised path, so normalising it again changes nothing. */
  lemma PathJoinNormal(a: string, b: string)
    ensures IsNormal(PathJoin(a, b)) && Normalize(PathJoin(a, b)) == PathJoin(a, b)
  {
    NormalizeMarkers();
    NormalizeIsNormal(Joined(a, b));
    NormalizeIdempotent(Joined(a, b));
  }

  /** A relative specifier comes back as the directory of the importing file joined with
      the specifier: the directory's segments followed by the specifier's, resolved,
      absolute exactly when the directory is, and ending in '/' when the specifier does.
      The result is normal and a fixed point of `path.normalize`. */
  lemma RelativeDependencyPath(dependency: string, filePath: string)
    requires IsRelativeSpecifier(dependency)
    ensures var r := NormalizedDependencyPath(dependency, filePath);
      var d := DirPath(filePath);
      var absolute := d != "" && d[0] == Sep;
      && IsNormal(r) && Normalize(r) == r
      && r == Shown(Collapse([], Split(d) + Split(dependency), !absolute), absolute, dependency[|dependency| - 1] == Sep)
  {
    var d := DirPath(filePath);
    assert dependency[0] == '.' by { assert dependency[0] == dependency[..2][0]; }
    PathJoinShown(d, dependency);
    PathJoinNormal(d, dependency);
  }
}
