/** Result and error values shared by the whole flattening pipeline.
    Every exception the pipeline can throw becomes one `Error` value. */
module Outcomes {

  datatype Option<+T> = None | Some(value: T)

  /** What aborts a flatten operation. */
  datatype Error =
    | ResolutionFailure(specifier: string)            // the resolver has no file for this specifier
    | ParseFailure(path: string)                      // "Could not parse <path> for extracting its imports."
    | CycleDetected(visited: seq<string>)             // the files walked, in visit order, repeats included
    | UnsupportedVersion(file: string, text: string)  // a pragma that is neither pinned nor caret
    | PinnedConflict(first: string, second: string)   // two different pinned versions
    | IncompatibleVersions(caretFile: string, pinnedFile: string)
    | InvalidSemVer(text: string)                     // semver.gt given something that is not a version

  datatype Result<+T> = Ok(value: T) | Err(error: Error)
}
