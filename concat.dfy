/** `printFileWithoutPragma`, `printContactenation` and the body of `flatten`: the
    flattened source as the sequence of chunks handed to `log`. */
module Concatenation {
  import opened Outcomes
  import opened Dedup
  import Text
  import Sources
  import VersionDeclarations
  import Reconcile
  import SortedFiles

  /** `printFileWithoutPragma`: the file's text without its leading pragma and its import
      lines, trimmed. */
  function FileWithoutPragma(env: Sources.Env, file: string): (r: Result<string>)
    ensures r.Ok? <==> file in env.files
    ensures r.Err? ==> r.error == ResolutionFailure(file)
  {
    match Sources.Resolve(env, file)
    case Err(e) => Err(e)
    case Ok(resolved) => Ok(Text.Printed(resolved.contents))
  }

  /** The chunk logged before each file. */
  function Marker(file: string): string {
    "\n// File: " + file + "\n"
  }

  /** The header chunk, present exactly when a version was reconciled. */
  function Header(version: Option<string>): seq<string> {
    if version.Some? then ["pragma solidity " + version.value + ";"] else []
  }

  /** `printFileWithoutPragma` over a fixed resolver. */
  function FileText(env: Sources.Env): string -> Result<string> {
    file => FileWithoutPragma(env, file)
  }

  /** The marker and body chunks of `files`, in order, each body shown by `show`. */
  function PrintedFiles(show: string -> Result<string>, files: seq<string>): Result<seq<string>>
    decreases |files|
  {
    if files == [] then Ok([])
    else
      match PrintedFiles(show, files[..|files| - 1])
      case Err(e) => Err(e)
      case Ok(chunks) =>
        var file := files[|files| - 1];
        match show(file)
        case Err(e) => Err(e)
        case Ok(body) => Ok(chunks + [Marker(file), body])
  }

  /** Everything `printContactenation(files, log)` logs. */
  function Concatenation(env: Sources.Env, files: seq<string>): Result<seq<string>> {
    match Reconcile.NormalizedVersion(env, files)
    case Err(e) => Err(e)
    case Ok(version) =>
      match PrintedFiles(FileText(env), files)
      case Err(e) => Err(e)
      case Ok(chunks) => Ok(Header(version) + chunks)
  }

  /** `printContactenation`, with `log` appending to `chunks`. */
  method PrintConcatenation(env: Sources.Env, files: seq<string>) returns (r: Result<seq<string>>)
    ensures r == Concatenation(env, files)
  {
    var version := Reconcile.NormalizeCompilerVersionDeclarations(env, files);
    if version.Err? {
      return Err(version.error);
    }
    var chunks: seq<string> := [];
    if version.value.Some? {
      chunks := chunks + ["pragma solidity " + version.value.value + ";"];
    }
    assert chunks == Header(version.value);
    r := PrintFiles(env, files, chunks);
  }

  /** The chunks already logged, followed by those of `r` unless it failed. */
  function AfterLogged(logged: seq<string>, r: Result<seq<string>>): Result<seq<string>> {
    match r
    case Err(e) => Err(e)
    case Ok(chunks) => Ok(logged + chunks)
  }

  /** The loop of `printContactenation`: log each file's marker, then its text. */
  method PrintFiles(env: Sources.Env, files: seq<string>, logged: seq<string>) returns (r: Result<seq<string>>)
    ensures r == AfterLogged(logged, PrintedFiles(FileText(env), files))
  {
    var chunks := logged;
    assert files[..0] == [] && logged + [] == logged;
    for i := 0 to |files|
      invariant AfterLogged(logged, PrintedFiles(FileText(env), files[..i])) == Ok(chunks)
    {
      var file := files[i];
      PrintStep(FileText(env), files, i, logged, chunks);
      chunks := chunks + [Marker(file)];
      var body := FileWithoutPragma(env, file);
      assert FileText(env)(file) == body;
      if body.Err? {
        return Err(body.error);
      }
      chunks := chunks + [body.value];
    }
    assert files[..|files|] == files;
    return Ok(chunks);
  }

  /** One turn of the loop: a failing body ends the output with its error, any other adds
      the marker and the body. */
  lemma {:induction false} PrintStep(show: string -> Result<string>, files: seq<string>, i: nat, logged: seq<string>, chunks: seq<string>)
    requires i < |files| && AfterLogged(logged, PrintedFiles(show, files[..i])) == Ok(chunks)
    ensures show(files[i]).Ok? ==>
      AfterLogged(logged, PrintedFiles(show, files[..i + 1])) == Ok(chunks + [Marker(files[i])] + [show(files[i]).value])
    ensures show(files[i]).Err? ==> AfterLogged(logged, PrintedFiles(show, files)) == Err(show(files[i]).error)
  {
    var done := PrintedFiles(show, files[..i]).value;
    assert chunks == logged + done;
    PrintedFilesStep(show, files, i);
    match show(files[i])
    case Ok(body) =>
      assert logged + (done + [Marker(files[i]), body]) == chunks + [Marker(files[i])] + [body];
    case Err(e) =>
      PrintedFilesError(show, files, i + 1);
  }

  lemma {:induction false} PrintedFilesStep(show: string -> Result<string>, files: seq<string>, i: nat)
    requires i < |files| && PrintedFiles(show, files[..i]).Ok?
    ensures PrintedFiles(show, files[..i + 1]) ==
      match show(files[i])
      case Err(e) => Err(e)
      case Ok(body) => Ok(PrintedFiles(show, files[..i]).value + [Marker(files[i]), body])
  {
    assert files[..i + 1][..i] == files[..i];
  }

  lemma {:induction false} PrintedFilesError(show: string -> Result<string>, files: seq<string>, j: nat)
    requires j <= |files| && PrintedFiles(show, files[..j]).Err?
    ensures PrintedFiles(show, files) == PrintedFiles(show, files[..j])
    decreases |files| - j
  {
    if j < |files| {
      var n := |files|;
      assert files[..n - 1][..j] == files[..j];
      PrintedFilesError(show, files[..n - 1], j);
      assert files[..n] == files;
    } else {
      assert files[..j] == files;
    }
  }

  /** When every body prints, the chunks alternate between the marker of `files[i]`
      and its body. */
  lemma {:induction false} PrintedFilesShape(show: string -> Result<string>, files: seq<string>)
    requires forall i :: 0 <= i < |files| ==> show(files[i]).Ok?
    ensures PrintedFiles(show, files).Ok?
    ensures var c := PrintedFiles(show, files).value;
      && |c| == 2 * |files|
      && forall i :: 0 <= i < |files| ==> c[2 * i] == Marker(files[i]) && c[2 * i + 1] == show(files[i]).value
    decreases |files|
  {
    if files != [] {
      var n := |files|;
      var p := files[..n - 1];
      PrintedFilesShape(show, p);
    }
  }

  /** After a successful reconciliation nothing can fail: every file was resolved to read
      its declaration. */
  lemma ReconciledFilesResolve(env: Sources.Env, files: seq<string>)
    requires Reconcile.NormalizedVersion(env, files).Ok?
    ensures forall i :: 0 <= i < |files| ==> files[i] in env.files
    ensures Concatenation(env, files).Ok?
  {
    Reconcile.DeclarationsOk(env, files);
    forall i | 0 <= i < |files| ensures files[i] in env.files {
      VersionDeclarations.FileVersionDeclarationCorrect(env, files[i]);
    }
    PrintedFilesShape(FileText(env), files);
  }

  /** When every file resolves, each file contributes its marker and its printed text. */
  lemma PrintedResolved(env: Sources.Env, files: seq<string>)
    requires forall i :: 0 <= i < |files| ==> files[i] in env.files
    ensures PrintedFiles(FileText(env), files).Ok?
    ensures var c := PrintedFiles(FileText(env), files).value;
      && |c| == 2 * |files|
      && forall i :: 0 <= i < |files| ==>
           c[2 * i] == Marker(files[i]) && FileText(env)(files[i]) == Ok(c[2 * i + 1])
  {
    PrintedFilesShape(FileText(env), files);
  }

  /** The header followed by the file chunks, indexed from the end of the header. */
  lemma HeaderThenFiles(show: string -> Result<string>, files: seq<string>, v: Option<string>, c: seq<string>)
    requires |c| == 2 * |files|
    requires forall i :: 0 <= i < |files| ==> c[2 * i] == Marker(files[i]) && show(files[i]) == Ok(c[2 * i + 1])
    ensures var out := Header(v) + c; var h := if v.Some? then 1 else 0;
      && |out| == h + 2 * |files|
      && (v.Some? ==> out[0] == "pragma solidity " + v.value + ";")
      && forall i :: 0 <= i < |files| ==> out[h + 2 * i] == Marker(files[i]) && show(files[i]) == Ok(out[h + 2 * i + 1])
  {
    var out := Header(v) + c;
    var h := |Header(v)|;
    forall i | 0 <= i < |files|
      ensures out[h + 2 * i] == Marker(files[i]) && show(files[i]) == Ok(out[h + 2 * i + 1])
    {
      assert out[h + 2 * i] == c[2 * i] && out[h + 2 * i + 1] == c[2 * i + 1];
    }
  }

  /** The output of `printContactenation`: a header chunk `pragma solidity V;` exactly
      when a version `V` was reconciled, then for each file in order its marker and its
      text as `printFileWithoutPragma` prints it. */
  lemma ConcatenationShape(env: Sources.Env, files: seq<string>)
    ensures var r := Concatenation(env, files); var v := Reconcile.NormalizedVersion(env, files);
      && (r.Ok? <==> v.Ok?)
      && (r.Err? ==> r.error == v.error)
      && (r.Ok? ==>
            var h := if v.value.Some? then 1 else 0;
            && |r.value| == h + 2 * |files|
            && (v.value.Some? ==> r.value[0] == "pragma solidity " + v.value.value + ";")
            && forall i :: 0 <= i < |files| ==>
                 r.value[h + 2 * i] == Marker(files[i]) && FileText(env)(files[i]) == Ok(r.value[h + 2 * i + 1]))
  {
    var v := Reconcile.NormalizedVersion(env, files);
    if v.Ok? {
      ReconciledFilesResolve(env, files);
      PrintedResolved(env, files);
      var c := PrintedFiles(FileText(env), files).value;
      HeaderThenFiles(FileText(env), files, v.value, c);
      assert Concatenation(env, files) == Ok(Header(v.value) + c);
    }
  }

  // ---- reading the file order back from the output ----

  /** A chunk that is a `// File:` marker. */
  predicate IsMarker(c: string) {
    |c| >= 11 && c[..10] == "\n// File: " && c[|c| - 1] == '\n'
  }

  /** The file names of the marker chunks, in order. */
  function MarkedFiles(chunks: seq<string>): seq<string> {
    if chunks == [] then []
    else
      var c := chunks[|chunks| - 1];
      MarkedFiles(chunks[..|chunks| - 1]) + (if IsMarker(c) then [c[10..|c| - 1]] else [])
  }

  lemma MarkerIsMarker(file: string)
    ensures IsMarker(Marker(file)) && Marker(file)[10..|Marker(file)| - 1] == file
  {
    assert Marker(file)[..10] == "\n// File: ";
  }

  /** A trimmed body never starts with a line break, so it is never mistaken for a
      marker; nor is the header. */
  lemma NotMarkers(body: string, version: string)
    requires body == Text.Trim(body)
    ensures !IsMarker(body) && !IsMarker("pragma solidity " + version + ";")
  {
    if |body| >= 11 {
      assert !Text.IsWs(body[0]);
      assert body[0] == body[..10][0];
    }
    var h := "pragma solidity " + version + ";";
    if |h| >= 11 {
      assert h[0] == 'p' && h[0] == h[..10][0];
    }
  }

  lemma {:induction false} MarkedPrinted(show: string -> Result<string>, files: seq<string>)
    requires PrintedFiles(show, files).Ok?
    requires forall f :: show(f).Ok? ==> !IsMarker(show(f).value)
    ensures MarkedFiles(PrintedFiles(show, files).value) == files
    decreases |files|
  {
    if files != [] {
      var n := |files|;
      var p := files[..n - 1];
      MarkedPrinted(show, p);
      var c := PrintedFiles(show, p).value;
      var body := show(files[n - 1]).value;
      MarkerIsMarker(files[n - 1]);
      var out := c + [Marker(files[n - 1]), body];
      assert out[..|out| - 1] == c + [Marker(files[n - 1])];
      assert (c + [Marker(files[n - 1])])[..|c|] == c;
      assert p + [files[n - 1]] == files;
    }
  }

  lemma {:induction false} MarkedAfterHeader(head: seq<string>, chunks: seq<string>)
    requires forall i :: 0 <= i < |head| ==> !IsMarker(head[i])
    ensures MarkedFiles(head + chunks) == MarkedFiles(chunks)
    decreases |chunks|
  {
    if chunks == [] {
      assert head + chunks == head;
      MarkedNone(head);
    } else {
      var n := |chunks|;
      assert (head + chunks)[..|head + chunks| - 1] == head + chunks[..n - 1];
      MarkedAfterHeader(head, chunks[..n - 1]);
    }
  }

  lemma {:induction false} MarkedNone(chunks: seq<string>)
    requires forall i :: 0 <= i < |chunks| ==> !IsMarker(chunks[i])
    ensures MarkedFiles(chunks) == []
    decreases |chunks|
  {
    if chunks != [] {
      MarkedNone(chunks[..|chunks| - 1]);
    }
  }

  /** The `// File:` markers of the output name the files exactly once each, in the order
      given. */
  lemma ConcatenationMarkers(env: Sources.Env, files: seq<string>)
    requires Concatenation(env, files).Ok?
    ensures MarkedFiles(Concatenation(env, files).value) == files
  {
    var v := Reconcile.NormalizedVersion(env, files).value;
    forall f | FileText(env)(f).Ok? ensures !IsMarker(FileText(env)(f).value) {
      FileTextNotMarker(env, f);
    }
    MarkedPrinted(FileText(env), files);
    if v.Some? {
      NotMarkers("", v.value);
    }
    MarkedAfterHeader(Header(v), PrintedFiles(FileText(env), files).value);
  }

  lemma FileTextNotMarker(env: Sources.Env, f: string)
    requires FileText(env)(f).Ok?
    ensures !IsMarker(FileText(env)(f).value)
  {
    var c := env.files[f].contents;
    Text.TrimIdempotent(Text.StripImports(Text.StripPragma(c)));
    NotMarkers(Text.Printed(c), "");
  }

  // ---- flatten ----

  /** The body of `flatten`: sort the files, then concatenate them. */
  function Flatten(env: Sources.Env, entryPoints: seq<string>): Result<seq<string>> {
    match SortedFiles.SortedFilePaths(env, entryPoints)
    case Err(e) => Err(e)
    case Ok(sorted) => Concatenation(env, sorted)
  }

  method FlattenChunks(env: Sources.Env, entryPoints: seq<string>) returns (r: Result<seq<string>>)
    ensures r == Flatten(env, entryPoints)
  {
    var sorted := SortedFiles.GetSortedFilePaths(env, entryPoints);
    if sorted.Err? {
      return Err(sorted.error);
    }
    r := PrintConcatenation(env, sorted.value);
  }

  /** A successful flatten prints every needed file once, each after the files it
      imports, every entry point included. */
  lemma FlattenCorrect(env: Sources.Env, entryPoints: seq<string>)
    requires Flatten(env, entryPoints).Ok?
    ensures var files := MarkedFiles(Flatten(env, entryPoints).value);
      && files == SortedFiles.SortedFilePaths(env, entryPoints).value
      && NoDup(files)
      && (forall x :: x in entryPoints ==> x in files)
      && SortedFiles.DependenciesFirst(env, files)
      && SortedFiles.OnlyNeeded(env, files, entryPoints)
  {
    SortedFiles.SortedFilePathsCorrect(env, entryPoints);
    ConcatenationMarkers(env, SortedFiles.SortedFilePaths(env, entryPoints).value);
  }

  /** A cycle in the imports fails the flatten with the cycle error, which lists the
      walked files. */
  lemma FlattenCycle(env: Sources.Env, entryPoints: seq<string>)
    requires SortedFiles.SortedFilePaths(env, entryPoints).Err?
    requires SortedFiles.SortedFilePaths(env, entryPoints).error.CycleDetected?
    ensures Flatten(env, entryPoints) == SortedFiles.SortedFilePaths(env, entryPoints)
    ensures exists p :: (SortedFiles.ImportCycle(env, p) &&
      forall i :: 0 <= i < |p| ==> p[i] in Flatten(env, entryPoints).error.visited)
  {
    SortedFiles.SortedFilePathsCycle(env, entryPoints);
  }
}
