# truffle-flattener, modelled in Dafny

truffle-flattener turns a set of Solidity files that import each other into one
compilation unit. It walks the imports depth first from the entry files and records an
edge `(dependency, dependent)` for every import. It then sorts the graph topologically and
appends the entry files, keeping the first occurrence of each. Next it reconciles the
files' `pragma solidity` declarations into one. Finally it prints the declaration and then
each file, preceded by a `// File:` marker, with its pragma and import lines stripped.

This project models that pipeline in `index.js`. Each part is a Dafny module:

- `Dedup` (`dedup.dfy`) models `unique`.
- `Paths` (`paths.dfy`) models `getDirPath`, `getNormalizedDependencyPath` and the POSIX `path.join`/`path.normalize` they use.
- `Sources` (`sources.dfy`) models the resolver and the import extractor as data.
- `DependencyWalk` and `WalkFacts` (`walk.dfy`, `walk_facts.dfy`) model `dependenciesDfs`.
- `TopoSort` (`toposort.dfy`) models the graph's `sort()`.
- `SortedFiles` and `RepeatedEntries` (`sortedfiles.dfy`, `repeats.dfy`) model `getSortedFilePaths`.
- `Text` (`text.dfy`) models the three regular expressions and `trim`.
- `SemVer` (`semver.dfy`) models the part of node-semver the reconciler uses.
- `VersionDeclarations` (`versions.dfy`) models `getFileCompilerVersionDeclaration`.
- `Reconcile` (`reconcile.dfy`) models `normalizeCompilerVersionDeclarations`.
- `Concatenation` (`concat.dfy`) models `printFileWithoutPragma`, `printContactenation` and the body of `flatten`.

Every exception becomes an `Error` value of `Outcomes.Result`. Sequential code becomes
methods: `DependenciesDfs`, `GetSortedFilePaths`, `NormalizeCompilerVersionDeclarations`,
`PrintConcatenation` and `TopologicalSort`. Each method is proved equal to a function, and
the properties are proved about that function.

Foreign collaborators are parameters:

- The resolver is a map `Env.files` from a specifier to the file's text and canonical path. A missing key is `ResolutionFailure`.
- The Solidity parser is a map `Env.imports` from a file's text to its raw import specifiers, in source order. A missing key is the "Could not parse F" `ParseFailure`.

The shared `graph` and `visitedFiles` of one `getSortedFilePaths` call are threaded as
sequence values (`WalkState`). The graph is an edge list in recording order.

The graph library's sort is not part of this model. In its place is a Kahn topological
sort. Among ready nodes it takes the first in order of first appearance in the edge list.
It is proved to meet the contract `getSortedFilePaths` relies on:

- it succeeds exactly when the edge set has no cycle;
- on success, it lists every endpoint once;
- on success, every edge's dependency comes before its dependent.

Versions are three natural numbers. `semver.gt` is precedence per section 11 of Semantic
Versioning 2.0.0. `semver.satisfies(p, ^v)` is node-semver's caret range: at least `v`,
below the next change of the left-most non-zero component. A two-part caret `^M.m` leaves
the patch open.

## Model

| member | source | states |
|---|---|---|
| `Dedup.Unique` | index.js:21-23 | the result has no duplicates, holds exactly the input's elements, and lists them in the order of their first occurrences |
| `Dedup.UniqueOfNoDup` | index.js:21-23 | deduplicating a sequence without repeats returns it unchanged |
| `Dedup.UniqueIgnoresRepeats` | index.js:114-116 | `unique(a.concat(b))` depends on `b` only through `unique(b)` |
| `Paths.DirPath` | index.js:41-43 | the directory is the prefix before the last `/`: a proper prefix followed by `/` with no `/` after it, or `""` when the path holds no `/` |
| `Paths.NormalizedDependencyPath` | index.js:62-68 | a specifier not starting with `./` or `../` comes back unchanged |
| `Paths.RelativeDependencyPath` | index.js:63-65 | a `./` or `../` specifier comes back as `path.join` of the importing file's directory and the specifier: the directory's segments followed by the specifier's, resolved, absolute exactly when the directory is and with a trailing `/` exactly when the specifier has one; the result is a normal path and a fixed point of `path.normalize` |
| `Paths.NormalizeIsNormal` | index.js:65 | POSIX `path.normalize` always yields a normal path: `/`, `./` or `.`, or segments with no empty or `.` ones and `..` only in a run at the front of a relative path, joined by single `/`s with an optional leading and trailing `/` |
| `Paths.NormalizeIdempotent` | index.js:64-65 | normalising twice is normalising once |
| `Paths.NormalizeRender` | index.js:65 | a path already in normal form (clean segments rendered with its root and trailing `/`) is left unchanged by `path.normalize` |
| `Paths.JoinedSegments` | index.js:64 | gluing the non-empty arguments of `path.join` with `/` gives the pieces of the first followed by the pieces of the second, starting and ending where the non-empty arguments do |
| `Paths.PathJoinShown` | index.js:64 | `path.join(a, b)` resolves the segments of `a` followed by those of `b`; it is absolute when the first non-empty argument is and keeps a trailing `/` of the last |
| `Paths.PathJoinNormal` | index.js:64-65 | the result of `path.join` is already normal, so the `path.normalize` after it changes nothing |
| `Sources.Resolve` | index.js:25-39 | resolution succeeds exactly for the specifiers the resolver knows; otherwise it fails naming the specifier |
| `Sources.Dependencies` | index.js:45-60 | every import directive, in source order, normalised against the resolved path; a parse failure names the resolved path |
| `DependencyWalk.WalkFile` | index.js:70-89 | a successful walk extends the graph and the visited list and pushes the walked file first |
| `DependencyWalk.DependenciesDfs` | index.js:70-89 | the recursive walk with its `for` loop computes exactly `WalkFile`, and terminates under cyclic imports because it recurses only into unvisited files |
| `DependencyWalk.WalkFileInv` | index.js:80-87 | after a walk, the walked file has every import visited and its edge recorded; every visited file outside the still-open ones is closed under imports; every edge comes from an import of a visited file |
| `WalkFacts.WalkFileEdgeOrder` | index.js:80-81 | the edges a walk records into the walked file are one `(dependency, file)` per import, in source order |
| `WalkFacts.WalkFileResolved` | index.js:83 | a successful walk has resolved the file and every one of its imports, including those already visited |
| `WalkFacts.WalkFileFresh` | index.js:85-87 | edges a walk adds point into files it visits; a walk of an unvisited file visits only files not visited before |
| `WalkFacts.WalkFileJustified` | index.js:71-87 | every visited file is an entry point or the dependency of a recorded edge |
| `WalkFacts.WalkFileErrors` | index.js:55-58 | a walk fails only with a resolution failure or a parse failure |
| `TopoSort.SortCorrect` | index.js:101-109 | the sort succeeds exactly when the edge set has no cycle, and then returns each endpoint once with every dependency before its dependent |
| `TopoSort.TopologicalSort` | index.js:101 | the Kahn loop computes the sort function, returns `None` exactly on a cycle, and otherwise returns a topological order |
| `SortedFiles.WalkEntries` | index.js:95-97 | walking the entry points in turn only extends the shared state and fails only with resolution or parse failures |
| `SortedFiles.GetSortedFilePaths` | index.js:91-119 | the loop over the entry points and the sort compute `SortedFilePaths`: a cycle error carrying `visitedFiles`, or `unique(sorted.concat(entryPoints))` |
| `SortedFiles.SortedFilePathsCorrect` | index.js:112-116 | the output has no duplicates and holds every entry point, including one without imports; every file follows all its imports; every file is an entry point or imported by a listed file |
| `SortedFiles.ReachableVisited` | index.js:85-87 | every file reachable from an entry point through imports is in `visitedFiles` after the walks |
| `SortedFiles.ReachableListed` | index.js:112-116 | every file reachable from an entry point through imports is in the sorted output |
| `SortedFiles.SortedFilePathsCycle` | index.js:102-108 | the cycle error occurs exactly when the walk succeeds and the graph has a cycle; it carries `visitedFiles` as walked, which contains an import cycle; a successful output holds no file of an import cycle |
| `SortedFiles.CycleMessageLists` | index.js:104-107 | the cycle message starts with "There is a cycle in the dependency graph, …" and lists every visited file in visit order, each after a newline and a tab |
| `RepeatedEntries.Rewalk` | index.js:85-87 | walking an already walked file again succeeds and leaves a graph with the same edge set and node order |
| `RepeatedEntries.RepeatedEntryPoints` | tests/tests.js:40-55 | passing entry points with repeats gives the same file list as passing them once; only the cycle error's visited list keeps the repeats, with the same set of files |
| `SemVer.ParseRender` | index.js:169 | every version parses back from its `M.m.p` rendering |
| `SemVer.RenderParse` | index.js:169 | a string that parses as a strict version is the rendering of that version |
| `SemVer.Gt` | index.js:169 | `semver.gt(a, b)` is whether `b` precedes `a`; it throws naming the first argument that is not a version |
| `SemVer.CaretMeaning` | index.js:189 | a version satisfies `^M.m.p` iff it is at least `M.m.p` and keeps every component up to the left-most non-zero one |
| `SemVer.CaretContainsBase` | index.js:189 | every version satisfies the caret range built on it |
| `VersionDeclarations.SupportedDeclarationCorrect` | index.js:18 | the matcher accepts exactly an optional `^` followed by two or three digit groups joined by single dots |
| `VersionDeclarations.CaretDeclarationAccepted` | index.js:18 | `^0.5.0` is accepted |
| `VersionDeclarations.PinnedTwoPartAccepted` | index.js:18 | `0.5` is accepted |
| `VersionDeclarations.MajorOnlyRejected` | index.js:18 | `1` is rejected |
| `VersionDeclarations.RangeRejected` | index.js:18 | `>=0.4.24 <0.6.0` is rejected |
| `VersionDeclarations.FourPartsRejected` | index.js:18 | `0.4.24.1` is rejected |
| `VersionDeclarations.FileVersionDeclarationCorrect` | index.js:130-148 | an unknown file is a resolution error; nothing is returned exactly when the text does not start with a pragma; otherwise the capture is returned when supported, and is an error naming the file and the capture when not |
| `VersionDeclarations.DeclarationSupported` | index.js:141-147 | every declaration returned has the supported form |
| `Reconcile.NormalizeCompilerVersionDeclarations` | index.js:150-205 | the loop over the four variables computes `NormalizedVersion`, returning at the first error |
| `Reconcile.NormalizedVersionCorrect` | index.js:157-204 | a pin wins and all pins agree; without a pin, the result is the first of the greatest caret ranges; without either, none; any pin satisfies the caret maximum |
| `Reconcile.PinnedFacts` | index.js:174-186 | the surviving pin is the first file's pin and every other pin equals it; there is none exactly when no file pins |
| `Reconcile.CaretFacts` | index.js:164-173 | the caret maximum is replaced only by a strictly greater version, so the first of equal maxima is kept; there is none exactly when no file declares a caret |
| `Reconcile.DifferentPinFails` | index.js:178-185 | a second, different pin fails naming the first pin's file and the current file |
| `Reconcile.SamePinKeeps` | index.js:175-178 | repeating the pin changes nothing |
| `Reconcile.ErrorAt` | index.js:188-197 | a failing run fails at one file, after every earlier file went through: errors are raised at the first bad prefix |
| `Reconcile.StepErrors` | index.js:158-197 | the only errors of one iteration are a resolution or unsupported-declaration error for the file, two different pins, an unreadable caret version, or a pin the updated maximum does not admit |
| `Reconcile.UpdateErrors` | index.js:164-186 | recording a declaration fails only on a second, different pin (naming both files) or on a caret range `semver.gt` cannot read |
| `Reconcile.StepValue` | index.js:158-197 | a successful iteration leaves the state unchanged for a file without a declaration and otherwise records its declaration |
| `Reconcile.StepConsistent` | index.js:188-197 | an iteration that succeeds keeps the pin inside the caret maximum |
| `Reconcile.ReconcileConsistent` | index.js:188-197 | after every iteration of a successful run, the pin satisfies the running caret maximum |
| `Reconcile.DeclarationsOk` | index.js:158 | a successful run read a declaration for every file |
| `Text.Trim` | index.js:127 | `trim` returns a slice with only whitespace dropped before and after, and it neither starts nor ends with whitespace |
| `Text.TrimUnique` | index.js:127 | any slice of that description is the trimmed text |
| `Text.TrimIdempotent` | index.js:127 | trimming twice is trimming once |
| `Text.MatchPragmaCorrect` | index.js:17 | the pragma matcher succeeds exactly when the start-anchored regex matches, and returns the engine's match: greedy whitespace, the lazy capture up to the first `\s*;`, the end just past `;` |
| `Text.CaptureClean` | index.js:17 | the captured version has no line break and does not start or end with whitespace |
| `Text.StripPragma` | index.js:124 | removing the pragma drops exactly the matched prefix, or nothing when there is no match |
| `Text.ImportMatchCorrect` | index.js:19 | an import match starts at a position exactly when the multiline regex matches there, and ends where the engine's match ends |
| `Text.StripImportsCorrect` | index.js:125 | the global replace keeps exactly the characters outside the matches it finds, in order; every removed character lies in a match; no match starts at a kept character |
| `Text.StripImportsUnchanged` | index.js:125 | text without a match passes through unchanged |
| `Text.BraceImportKept` | index.js:19 | an `import{…}` line with no whitespace after `import` is not stripped |
| `Text.PrintedPlain` | index.js:123-127 | contents with neither a pragma nor an import line are logged only trimmed |
| `Concatenation.FileWithoutPragma` | index.js:121-128 | a file's printed text exists exactly for a resolvable file; otherwise it is a resolution failure |
| `Concatenation.PrintConcatenation` | index.js:207-218 | the method computes the chunk sequence `Concatenation` |
| `Concatenation.PrintFiles` | index.js:214-217 | the loop appends each file's marker and text to what was already logged, stopping at the first error |
| `Concatenation.ConcatenationShape` | index.js:207-218 | it fails exactly when reconciliation fails; otherwise a `pragma solidity V;` chunk comes first iff a version was reconciled, then each file's marker and stripped, trimmed text, in order |
| `Concatenation.ConcatenationMarkers` | index.js:215 | reading the `// File:` markers back from the output gives the file list exactly, each once, in order |
| `Concatenation.FlattenChunks` | index.js:246-247 | the body of `flatten` sorts the files, then prints them |
| `Concatenation.FlattenCorrect` | index.js:246-247 | the markers of a successful flatten name every needed file once, each after its imports, every entry point included |
| `Concatenation.FlattenCycle` | index.js:102-108 | a cycle fails the whole flatten with the cycle error, whose visited list contains an import cycle |

## Left out

- The command line (`main`), the output file and directory, and console output (index.js:253-313) are I/O.
- Finding the Truffle project root, `path.resolve`/`path.relative` of the entry files, and `process.chdir` (index.js:220-245) depend on the filesystem. The entry points are given already relative to the root.
- truffle-resolver and truffle-config are abstracted as the map `Env.files`. solidity-parser-antlr is abstracted as the map `Env.imports`. Only the wrapping "Could not parse" error is kept. Whether one specifier resolves the same way in every call is assumed, since a map is a function.
- The graph library's own sort and its tie-breaking are replaced by the Kahn sort above. Only the contract is shared. The exact order in tests/tests.js:32-37 depends on that library's internals and is not claimed.
- A sort failure that is not a cycle leaves `topologicalSortedFiles` undefined (index.js:102-110). The sort modelled here fails only on a cycle.
- `flatten` catches every error, logs it, and returns the partial output (index.js:248-250). The model returns the error and no output.
- The promises and `await`s are sequential and are modelled as ordinary calls.
- The path separator is fixed to `/`. Windows `path.sep` is not modelled.
- Joining the chunks into one string is not modelled. The exported function concatenates them with nothing between (index.js:317). The command line writes one chunk per line (index.js:304). The model stops at the chunk sequence. The blank-line rules some descriptions give for the output are not in this code.
- SemVer.Gt: two-part versions (such as `0.5`) are invalid strict versions, and node-semver's `gt` throws on them. This is modelled as an `InvalidSemVer` error. `satisfies` returns false for an invalid version. node-semver's limit of `Number.MAX_SAFE_INTEGER` on components is not modelled, because numbers are unbounded here.
