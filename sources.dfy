/** The two foreign collaborators of the walk, as data: the resolver (truffle-resolver)
    and the import extractor (solidity-parser-antlr). */
module Sources {
  import opened Outcomes
  import Paths

  /** What the resolver hands back: the file's text and its canonical path. */
  datatype Resolved = Resolved(contents: string, path: string)

  /** `files`: specifier -> resolved file (a missing key is "file not found");
      `imports`: file text -> raw import specifiers in source order (a missing key is a
      parse failure). */
  datatype Env = Env(files: map<string, Resolved>, imports: map<string, seq<string>>)

  /** `resolve(importPath)`. */
  function Resolve(env: Env, specifier: string): (r: Result<Resolved>)
    ensures r.Ok? <==> specifier in env.files
    ensures r.Ok? ==> r.value == env.files[specifier]
    ensures r.Err? ==> r.error == ResolutionFailure(specifier)
  {
    if specifier in env.files then Ok(env.files[specifier]) else Err(ResolutionFailure(specifier))
  }

  /** `getDependencies(filePath, fileContents)`: every import directive, normalised against
      the resolved path, in source order; a parse failure names the resolved path. */
  function Dependencies(env: Env, resolved: Resolved): (r: Result<seq<string>>)
    ensures r.Ok? <==> resolved.contents in env.imports
    ensures r.Err? ==> r.error == ParseFailure(resolved.path)
    ensures r.Ok? ==> var raw := env.imports[resolved.contents];
      |r.value| == |raw| &&
      forall i :: 0 <= i < |raw| ==> r.value[i] == Paths.NormalizedDependencyPath(raw[i], resolved.path)
  {
    if resolved.contents in env.imports then
      var raw := env.imports[resolved.contents];
      Ok(seq(|raw|, i requires 0 <= i < |raw| => Paths.NormalizedDependencyPath(raw[i], resolved.path)))
    else Err(ParseFailure(resolved.path))
  }

  /** Resolve a walked file, then extract its dependencies. */
  function DepsOf(env: Env, file: string): Result<seq<string>> {
    match Resolve(env, file)
    case Err(e) => Err(e)
    case Ok(resolved) => Dependencies(env, resolved)
  }
}
