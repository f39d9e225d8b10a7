/** `normalizeCompilerVersionDeclarations`: fold the files' version declarations into one
    pragma for the flattened output. Pinned declarations must agree; the greatest caret
    declaration must admit the pinned one; a pin wins over carets. */
module Reconcile {
  import opened Outcomes
  import opened SemVer
  import VersionDeclarations
  import Sources

  /** A declaration and the file it came from. */
  datatype Declared = Declared(version: string, file: string)

  /** `pinnedVersion`/`pinnedVersionFile` and `maxCaretVersion`/`maxCaretVersionFile`. */
  datatype Reconciler = Reconciler(pinned: Option<Declared>, maxCaret: Option<Declared>)

  /** `version.startsWith("^")`. */
  predicate IsCaret(v: string) {
    |v| > 0 && v[0] == '^'
  }

  /** `v.substr(1)`. */
  function Substr1(v: string): string {
    if |v| == 0 then "" else v[1..]
  }

  /** The running maximum admits the pin, when both exist. */
  predicate Consistent(st: Reconciler) {
    st.pinned.Some? && st.maxCaret.Some? ==> Satisfies(st.pinned.value.version, st.maxCaret.value.version)
  }

  /** The branch of the loop body that records a declaration. */
  function Update(st: Reconciler, file: string, v: string): Result<Reconciler> {
    if IsCaret(v) then
      match st.maxCaret
      case None => Ok(st.(maxCaret := Some(Declared(v, file))))
      case Some(c) =>
        match Gt(Substr1(v), Substr1(c.version))
        case Err(e) => Err(e)
        case Ok(greater) => Ok(if greater then st.(maxCaret := Some(Declared(v, file))) else st)
    else
      match st.pinned
      case None => Ok(st.(pinned := Some(Declared(v, file))))
      case Some(p) => if p.version != v then Err(PinnedConflict(p.file, file)) else Ok(st)
  }

  /** The compatibility check that closes every iteration that saw a declaration. */
  function Check(st: Reconciler): Result<Reconciler> {
    if Consistent(st) then Ok(st)
    else Err(IncompatibleVersions(st.maxCaret.value.file, st.pinned.value.file))
  }

  /** One iteration of the loop; a file without a declaration is skipped (`continue`). */
  function Step(env: Sources.Env, st: Reconciler, file: string): Result<Reconciler> {
    match VersionDeclarations.FileVersionDeclaration(env, file)
    case Err(e) => Err(e)
    case Ok(None) => Ok(st)
    case Ok(Some(v)) =>
      match Update(st, file, v)
      case Err(e) => Err(e)
      case Ok(st1) => Check(st1)
  }

  /** The loop over `files`; the first error ends it. */
  function ReconcileAll(env: Sources.Env, files: seq<string>): Result<Reconciler>
    decreases |files|
  {
    if files == [] then Ok(Reconciler(None, None))
    else
      match ReconcileAll(env, files[..|files| - 1])
      case Err(e) => Err(e)
      case Ok(st) => Step(env, st, files[|files| - 1])
  }

  /** The returned declaration: the pin if there is one, else the caret maximum. */
  function Outcome(st: Reconciler): Option<string> {
    if st.pinned.Some? then Some(st.pinned.value.version)
    else if st.maxCaret.Some? then Some(st.maxCaret.value.version)
    else None
  }

  function NormalizedVersion(env: Sources.Env, files: seq<string>): Result<Option<string>> {
    match ReconcileAll(env, files)
    case Err(e) => Err(e)
    case Ok(st) => Ok(Outcome(st))
  }

  function Entry(v: Option<string>, file: string): Option<Declared> {
    if v.Some? then Some(Declared(v.value, file)) else None
  }

  /** The loop of `normalizeCompilerVersionDeclarations`, over the four variables of the
      source; every `throw` returns its error. */
  method NormalizeCompilerVersionDeclarations(env: Sources.Env, files: seq<string>)
    returns (r: Result<Option<string>>)
    ensures r == NormalizedVersion(env, files)
  {
    var pinnedVersion: Option<string> := None;
    var pinnedVersionFile := "";
    var maxCaretVersion: Option<string> := None;
    var maxCaretVersionFile := "";
    for i := 0 to |files|
      invariant ReconcileAll(env, files[..i]) ==
        Ok(Reconciler(Entry(pinnedVersion, pinnedVersionFile), Entry(maxCaretVersion, maxCaretVersionFile)))
    {
      var file := files[i];
      ghost var st := Reconciler(Entry(pinnedVersion, pinnedVersionFile), Entry(maxCaretVersion, maxCaretVersionFile));
      assert files[..i + 1][..i] == files[..i];
      assert ReconcileAll(env, files[..i + 1]) == Step(env, st, file);
      var declared := VersionDeclarations.FileVersionDeclaration(env, file);
      if declared.Err? {
        ErrorPersists(env, files, i + 1);
        return Err(declared.error);
      }
      if declared.value.None? {
        continue;
      }
      var version := declared.value.value;
      if IsCaret(version) {
        if maxCaretVersion.None? {
          maxCaretVersion, maxCaretVersionFile := Some(version), file;
        } else {
          var greater := Gt(Substr1(version), Substr1(maxCaretVersion.value));
          if greater.Err? {
            ErrorPersists(env, files, i + 1);
            return Err(greater.error);
          }
          if greater.value {
            maxCaretVersion, maxCaretVersionFile := Some(version), file;
          }
        }
      } else {
        if pinnedVersion.None? {
          pinnedVersion, pinnedVersionFile := Some(version), file;
        } else if pinnedVersion.value != version {
          ErrorPersists(env, files, i + 1);
          return Err(PinnedConflict(pinnedVersionFile, file));
        }
      }
      if maxCaretVersion.Some? && pinnedVersion.Some? {
        if !Satisfies(pinnedVersion.value, maxCaretVersion.value) {
          ErrorPersists(env, files, i + 1);
          return Err(IncompatibleVersions(maxCaretVersionFile, pinnedVersionFile));
        }
      }
    }
    assert files[..|files|] == files;
    if pinnedVersion.Some? {
      return Ok(pinnedVersion);
    }
    return Ok(maxCaretVersion);
  }

  // ---- errors ----

  /** An error in a prefix is the error of the whole loop. */
  lemma {:induction false} ErrorPersists(env: Sources.Env, files: seq<string>, j: nat)
    requires j <= |files| && ReconcileAll(env, files[..j]).Err?
    ensures ReconcileAll(env, files) == ReconcileAll(env, files[..j])
    decreases |files| - j
  {
    if j < |files| {
      var n := |files|;
      assert files[..n - 1][..j] == files[..j];
      ErrorPersists(env, files[..n - 1], j);
      assert files[..n] == files;
    } else {
      assert files[..j] == files;
    }
  }

  /** A failing loop fails at one file, after every earlier file went through. */
  lemma {:induction false} ErrorAt(env: Sources.Env, files: seq<string>)
    requires ReconcileAll(env, files).Err?
    ensures exists j: nat :: (j < |files| && ReconcileAll(env, files[..j]).Ok? &&
      Step(env, ReconcileAll(env, files[..j]).value, files[j]) == ReconcileAll(env, files))
    decreases |files|
  {
    var n := |files|;
    var p := files[..n - 1];
    if ReconcileAll(env, p).Err? {
      ErrorAt(env, p);
      var j: nat :| j < |p| && ReconcileAll(env, p[..j]).Ok? &&
        Step(env, ReconcileAll(env, p[..j]).value, p[j]) == ReconcileAll(env, p);
      assert p[..j] == files[..j] && p[j] == files[j];
      assert ReconcileAll(env, files) == ReconcileAll(env, p);
      assert Step(env, ReconcileAll(env, files[..j]).value, files[j]) == ReconcileAll(env, files);
    } else {
      assert ReconcileAll(env, files) == Step(env, ReconcileAll(env, p).value, files[n - 1]);
      assert Step(env, ReconcileAll(env, files[..n - 1]).value, files[n - 1]) == ReconcileAll(env, files);
    }
  }

  /** What can go wrong in one iteration: the declaration itself, two different pins, a
      caret that `semver.gt` cannot read, or a pin that the updated maximum does not
      admit. */
  lemma StepErrors(env: Sources.Env, st: Reconciler, file: string)
    requires Step(env, st, file).Err?
    ensures var d := VersionDeclarations.FileVersionDeclaration(env, file);
      var e := Step(env, st, file).error;
      || (d.Err? && d == Err(e) && (e == ResolutionFailure(file) || (e.UnsupportedVersion? && e.file == file)))
      || (d.Ok? && d.value.Some? && var v := d.value.value;
           || (!IsCaret(v) && st.pinned.Some? && st.pinned.value.version != v &&
               e == PinnedConflict(st.pinned.value.file, file))
           || (IsCaret(v) && st.maxCaret.Some? &&
               (e == InvalidSemVer(Substr1(v)) || e == InvalidSemVer(Substr1(st.maxCaret.value.version))))
           || (Update(st, file, v).Ok? && var st1 := Update(st, file, v).value;
               !Consistent(st1) && e == IncompatibleVersions(st1.maxCaret.value.file, st1.pinned.value.file)))
  {
    var d := VersionDeclarations.FileVersionDeclaration(env, file);
    if d.Err? {
      VersionDeclarations.FileVersionDeclarationCorrect(env, file);
    } else {
      var v := d.value.value;
      if Update(st, file, v).Err? {
        UpdateErrors(st, file, v);
      }
    }
  }

  /** How recording a declaration fails: a second, different pin, or a caret range that
      `semver.gt` cannot read. */
  lemma UpdateErrors(st: Reconciler, file: string, v: string)
    requires Update(st, file, v).Err?
    ensures var e := Update(st, file, v).error;
      || (!IsCaret(v) && st.pinned.Some? && st.pinned.value.version != v &&
          e == PinnedConflict(st.pinned.value.file, file))
      || (IsCaret(v) && st.maxCaret.Some? &&
          (e == InvalidSemVer(Substr1(v)) || e == InvalidSemVer(Substr1(st.maxCaret.value.version))))
  {
  }

  /** An iteration keeps the pin compatible with the caret maximum: a file without a
      declaration changes nothing, and every update passes the check before it is kept. */
  lemma StepConsistent(env: Sources.Env, st: Reconciler, file: string)
    requires Consistent(st) && Step(env, st, file).Ok?
    ensures Consistent(Step(env, st, file).value)
  {
  }

  /** A second, different pin is an error naming the file of the first pin and the file at
      hand. */
  lemma DifferentPinFails(env: Sources.Env, st: Reconciler, file: string)
    requires st.pinned.Some?
    requires VersionDeclarations.FileVersionDeclaration(env, file).Ok?
    requires var d := VersionDeclarations.FileVersionDeclaration(env, file).value;
      d.Some? && !IsCaret(d.value) && d.value != st.pinned.value.version
    ensures Step(env, st, file) == Err(PinnedConflict(st.pinned.value.file, file))
  {
  }

  /** Repeating the pin changes nothing, once the state is consistent. */
  lemma SamePinKeeps(env: Sources.Env, st: Reconciler, file: string)
    requires st.pinned.Some? && !IsCaret(st.pinned.value.version) && Consistent(st)
    requires VersionDeclarations.FileVersionDeclaration(env, file) == Ok(Some(st.pinned.value.version))
    ensures Step(env, st, file) == Ok(st)
  {
  }

  // ---- what a successful loop has seen ----

  /** `files[i]` pins `v`. */
  ghost predicate PinnedAt(env: Sources.Env, files: seq<string>, i: nat, v: string) {
    i < |files| && VersionDeclarations.FileVersionDeclaration(env, files[i]) == Ok(Some(v)) && !IsCaret(v)
  }

  /** `files[i]` declares the caret range `v`. */
  ghost predicate CaretAt(env: Sources.Env, files: seq<string>, i: nat, v: string) {
    i < |files| && VersionDeclarations.FileVersionDeclaration(env, files[i]) == Ok(Some(v)) && IsCaret(v)
  }

  /** The caret range `v` of `files[i]` is the first of the greatest: every other caret
      range reads as a version, the earlier ones are strictly smaller and none of the
      later ones is greater. */
  ghost predicate FirstGreatest(env: Sources.Env, files: seq<string>, i: nat, v: string) {
    CaretAt(env, files, i, v) &&
    forall j: nat, c: string :: CaretAt(env, files, j, c) && j != i ==>
      && Parse(Substr1(c)).Some? && Parse(Substr1(v)).Some?
      && (j < i ==> Less(Parse(Substr1(c)).value, Parse(Substr1(v)).value))
      && (j > i ==> !Less(Parse(Substr1(v)).value, Parse(Substr1(c)).value))
  }

  lemma PrefixAt(env: Sources.Env, files: seq<string>)
    requires |files| > 0
    ensures var n := |files|; var p := files[..n - 1];
      && (forall i: nat, v: string :: PinnedAt(env, files, i, v) <==>
            PinnedAt(env, p, i, v) ||
            (i == n - 1 && VersionDeclarations.FileVersionDeclaration(env, files[n - 1]) == Ok(Some(v)) && !IsCaret(v)))
      && (forall i: nat, v: string :: CaretAt(env, files, i, v) <==>
            CaretAt(env, p, i, v) ||
            (i == n - 1 && VersionDeclarations.FileVersionDeclaration(env, files[n - 1]) == Ok(Some(v)) && IsCaret(v)))
  {
  }

  /** Every file of a successful loop has a readable declaration. */
  lemma {:induction false} DeclarationsOk(env: Sources.Env, files: seq<string>)
    requires ReconcileAll(env, files).Ok?
    ensures forall i :: 0 <= i < |files| ==> VersionDeclarations.FileVersionDeclaration(env, files[i]).Ok?
    decreases |files|
  {
    if files != [] {
      var n := |files|;
      var p := files[..n - 1];
      assert ReconcileAll(env, p).Ok?;
      DeclarationsOk(env, p);
      StepOkDeclared(env, ReconcileAll(env, p).value, files[n - 1]);
      forall i | 0 <= i < n ensures VersionDeclarations.FileVersionDeclaration(env, files[i]).Ok? {
        if i < n - 1 {
          assert p[i] == files[i];
        }
      }
    }
  }

  lemma StepOkDeclared(env: Sources.Env, st: Reconciler, file: string)
    requires Step(env, st, file).Ok?
    ensures VersionDeclarations.FileVersionDeclaration(env, file).Ok?
  {
  }

  /** The pin of `st` is the first pin of `files`, every other pin agrees with it, and
      there is none exactly when no file pins a version. */
  ghost predicate PinnedSummary(env: Sources.Env, files: seq<string>, st: Reconciler) {
    && (st.pinned.None? <==> forall i: nat, v: string :: !PinnedAt(env, files, i, v))
    && (st.pinned.Some? ==>
          && (exists i: nat :: PinnedAt(env, files, i, st.pinned.value.version) && files[i] == st.pinned.value.file &&
                forall j: nat, v: string :: PinnedAt(env, files, j, v) ==> i <= j)
          && (forall j: nat, v: string :: PinnedAt(env, files, j, v) ==> v == st.pinned.value.version))
  }

  /** The pin of a successful loop is the first pin of the files, and every other pin
      agrees with it. */
  lemma {:induction false} PinnedFacts(env: Sources.Env, files: seq<string>)
    requires ReconcileAll(env, files).Ok?
    ensures var st := ReconcileAll(env, files).value;
      && (st.pinned.None? <==> forall i: nat, v: string :: !PinnedAt(env, files, i, v))
      && (st.pinned.Some? ==>
            && (exists i: nat :: PinnedAt(env, files, i, st.pinned.value.version) && files[i] == st.pinned.value.file &&
                  forall j: nat, v: string :: PinnedAt(env, files, j, v) ==> i <= j)
            && (forall j: nat, v: string :: PinnedAt(env, files, j, v) ==> v == st.pinned.value.version))
    decreases |files|
  {
    if files != [] {
      var n := |files|;
      var p := files[..n - 1];
      LastStep(env, files);
      PinnedFacts(env, p);
      var st0 := ReconcileAll(env, p).value;
      StepValue(env, st0, files[n - 1]);
      var d := VersionDeclarations.FileVersionDeclaration(env, files[n - 1]);
      if d.value.Some? && !IsCaret(d.value.value) && st0.pinned.None? {
        PinnedFirst(env, files, d.value.value);
      } else {
        PinnedKeep(env, files, st0);
      }
    } else {
      assert PinnedSummary(env, files, ReconcileAll(env, files).value);
    }
  }

  /** The step of `PinnedFacts` when the last file pins the first version. */
  lemma PinnedFirst(env: Sources.Env, files: seq<string>, v: string)
    requires |files| > 0
    requires var n := |files|; var p := files[..n - 1];
      && ReconcileAll(env, p).Ok? && PinnedSummary(env, p, ReconcileAll(env, p).value)
      && ReconcileAll(env, p).value.pinned.None?
      && ReconcileAll(env, files).Ok?
      && ReconcileAll(env, files).value.pinned == Some(Declared(v, files[n - 1]))
      && VersionDeclarations.FileVersionDeclaration(env, files[n - 1]) == Ok(Some(v)) && !IsCaret(v)
    ensures PinnedSummary(env, files, ReconcileAll(env, files).value)
  {
    PrefixAt(env, files);
    assert PinnedAt(env, files, |files| - 1, v);
  }

  /** The step of `PinnedFacts` when the pin does not change: the last file declares no
      pin, or the pin it declares is the one already recorded. */
  lemma PinnedKeep(env: Sources.Env, files: seq<string>, st0: Reconciler)
    requires |files| > 0
    requires var n := |files|; var p := files[..n - 1];
      && ReconcileAll(env, p) == Ok(st0) && PinnedSummary(env, p, st0)
      && ReconcileAll(env, files).Ok? && ReconcileAll(env, files).value.pinned == st0.pinned
      && VersionDeclarations.FileVersionDeclaration(env, files[n - 1]).Ok?
      && var d := VersionDeclarations.FileVersionDeclaration(env, files[n - 1]).value;
         (d.Some? && !IsCaret(d.value) ==> st0.pinned == Some(Declared(d.value, st0.pinned.value.file)))
    ensures PinnedSummary(env, files, ReconcileAll(env, files).value)
  {
    var n := |files|;
    var p := files[..n - 1];
    PrefixAt(env, files);
    if st0.pinned.Some? {
      var i: nat :| PinnedAt(env, p, i, st0.pinned.value.version) && p[i] == st0.pinned.value.file &&
        forall j: nat, v: string :: PinnedAt(env, p, j, v) ==> i <= j;
      assert PinnedAt(env, files, i, st0.pinned.value.version) && files[i] == st0.pinned.value.file;
    }
  }

  /** The caret maximum of `st` is the first of the greatest caret ranges of `files`, and
      there is none exactly when no file declares one. */
  ghost predicate CaretSummary(env: Sources.Env, files: seq<string>, st: Reconciler) {
    && (st.maxCaret.None? <==> forall i: nat, v: string :: !CaretAt(env, files, i, v))
    && (st.maxCaret.Some? ==>
          exists i: nat :: FirstGreatest(env, files, i, st.maxCaret.value.version) && files[i] == st.maxCaret.value.file)
  }

  /** A successful loop ends with a successful last iteration. */
  lemma LastStep(env: Sources.Env, files: seq<string>)
    requires |files| > 0 && ReconcileAll(env, files).Ok?
    ensures var n := |files|; var p := files[..n - 1];
      && ReconcileAll(env, p).Ok?
      && Step(env, ReconcileAll(env, p).value, files[n - 1]) == ReconcileAll(env, files)
  {
  }

  /** The state after a successful iteration: unchanged for a file without a declaration,
      otherwise the update for its declaration. */
  lemma StepValue(env: Sources.Env, st: Reconciler, file: string)
    requires Step(env, st, file).Ok?
    ensures var d := VersionDeclarations.FileVersionDeclaration(env, file);
      && d.Ok?
      && (d.value.None? ==> Step(env, st, file).value == st)
      && (d.value.Some? ==> Update(st, file, d.value.value) == Step(env, st, file))
  {
  }

  /** The caret maximum of a successful loop is the first of the greatest caret ranges of
      the files; there is none exactly when no file declares one. */
  lemma {:induction false} CaretFacts(env: Sources.Env, files: seq<string>)
    requires ReconcileAll(env, files).Ok?
    ensures var st := ReconcileAll(env, files).value;
      && (st.maxCaret.None? <==> forall i: nat, v: string :: !CaretAt(env, files, i, v))
      && (st.maxCaret.Some? ==>
            exists i: nat :: FirstGreatest(env, files, i, st.maxCaret.value.version) && files[i] == st.maxCaret.value.file)
    decreases |files|
  {
    if files != [] {
      var n := |files|;
      var p := files[..n - 1];
      LastStep(env, files);
      CaretFacts(env, p);
      var st0 := ReconcileAll(env, p).value;
      StepValue(env, st0, files[n - 1]);
      var d := VersionDeclarations.FileVersionDeclaration(env, files[n - 1]);
      if d.value.None? || !IsCaret(d.value.value) {
        CaretKeep(env, files, st0);
      } else if st0.maxCaret.None? {
        CaretFirst(env, files, d.value.value);
      } else {
        CaretStep(env, files, st0.maxCaret.value, d.value.value);
      }
    } else {
      assert CaretSummary(env, files, ReconcileAll(env, files).value);
    }
  }

  /** The step of `CaretFacts` when the last file declares no caret range. */
  lemma CaretKeep(env: Sources.Env, files: seq<string>, st0: Reconciler)
    requires |files| > 0
    requires var n := |files|; var p := files[..n - 1];
      && ReconcileAll(env, p) == Ok(st0) && CaretSummary(env, p, st0)
      && ReconcileAll(env, files).Ok? && ReconcileAll(env, files).value.maxCaret == st0.maxCaret
      && VersionDeclarations.FileVersionDeclaration(env, files[n - 1]).Ok?
      && var d := VersionDeclarations.FileVersionDeclaration(env, files[n - 1]).value;
         d.None? || !IsCaret(d.value)
    ensures CaretSummary(env, files, ReconcileAll(env, files).value)
  {
    var n := |files|;
    var p := files[..n - 1];
    PrefixAt(env, files);
    if st0.maxCaret.Some? {
      var i: nat :| FirstGreatest(env, p, i, st0.maxCaret.value.version) && p[i] == st0.maxCaret.value.file;
      assert FirstGreatest(env, files, i, st0.maxCaret.value.version);
    }
  }

  /** The step of `CaretFacts` when the last file declares the first caret range. */
  lemma CaretFirst(env: Sources.Env, files: seq<string>, v: string)
    requires |files| > 0
    requires var n := |files|; var p := files[..n - 1];
      && ReconcileAll(env, p).Ok? && CaretSummary(env, p, ReconcileAll(env, p).value)
      && ReconcileAll(env, p).value.maxCaret.None?
      && ReconcileAll(env, files).Ok?
      && ReconcileAll(env, files).value.maxCaret == Some(Declared(v, files[n - 1]))
      && VersionDeclarations.FileVersionDeclaration(env, files[n - 1]) == Ok(Some(v)) && IsCaret(v)
    ensures CaretSummary(env, files, ReconcileAll(env, files).value)
  {
    PrefixAt(env, files);
    assert FirstGreatest(env, files, |files| - 1, v);
  }

  /** The step of `CaretFacts` when the last file declares a caret range and a maximum
      already exists. */
  lemma CaretStep(env: Sources.Env, files: seq<string>, m: Declared, v: string)
    requires |files| > 0
    requires var n := |files|; var p := files[..n - 1];
      && ReconcileAll(env, p).Ok? && ReconcileAll(env, p).value.maxCaret == Some(m)
      && CaretSummary(env, p, ReconcileAll(env, p).value)
      && Step(env, ReconcileAll(env, p).value, files[n - 1]) == ReconcileAll(env, files)
      && ReconcileAll(env, files).Ok?
      && VersionDeclarations.FileVersionDeclaration(env, files[n - 1]) == Ok(Some(v)) && IsCaret(v)
    ensures CaretSummary(env, files, ReconcileAll(env, files).value)
  {
    var n := |files|;
    var p := files[..n - 1];
    var st := ReconcileAll(env, files).value;
    var i: nat :| FirstGreatest(env, p, i, m.version) && p[i] == m.file;
    var g := Gt(Substr1(v), Substr1(m.version));
    assert g.Ok?;
    if g.value {
      assert st.maxCaret == Some(Declared(v, files[n - 1]));
      CaretGreater(env, files, i, m, v);
    } else {
      assert st.maxCaret == Some(m);
      CaretNotGreater(env, files, i, m, v);
    }
  }

  /** A caret range greater than the maximum so far is the new first of the greatest. */
  lemma CaretGreater(env: Sources.Env, files: seq<string>, i: nat, m: Declared, v: string)
    requires |files| > 0
    requires var n := |files|; var p := files[..n - 1];
      && FirstGreatest(env, p, i, m.version)
      && VersionDeclarations.FileVersionDeclaration(env, files[n - 1]) == Ok(Some(v)) && IsCaret(v)
      && Parse(Substr1(v)).Some? && Parse(Substr1(m.version)).Some?
      && Less(Parse(Substr1(m.version)).value, Parse(Substr1(v)).value)
    ensures FirstGreatest(env, files, |files| - 1, v)
  {
    var n := |files|;
    var p := files[..n - 1];
    PrefixAt(env, files);
    var vm, vv := Parse(Substr1(m.version)).value, Parse(Substr1(v)).value;
    forall j: nat, c: string | CaretAt(env, files, j, c) && j != n - 1
      ensures Parse(Substr1(c)).Some? && Less(Parse(Substr1(c)).value, vv)
    {
      assert CaretAt(env, p, j, c);
      if j != i {
        LessIsStrictTotalOrder(Parse(Substr1(c)).value, vm, vv);
      }
    }
  }

  /** A caret range not greater than the maximum so far leaves the first of the greatest
      where it was. */
  lemma CaretNotGreater(env: Sources.Env, files: seq<string>, i: nat, m: Declared, v: string)
    requires |files| > 0
    requires var n := |files|; var p := files[..n - 1];
      && FirstGreatest(env, p, i, m.version) && p[i] == m.file
      && VersionDeclarations.FileVersionDeclaration(env, files[n - 1]) == Ok(Some(v)) && IsCaret(v)
      && Parse(Substr1(v)).Some? && Parse(Substr1(m.version)).Some?
      && !Less(Parse(Substr1(m.version)).value, Parse(Substr1(v)).value)
    ensures FirstGreatest(env, files, i, m.version) && files[i] == m.file
  {
    var n := |files|;
    var p := files[..n - 1];
    PrefixAt(env, files);
    assert CaretAt(env, files, i, m.version);
    forall j: nat, c: string | CaretAt(env, files, j, c) && j != i
      ensures && Parse(Substr1(c)).Some?
              && (j < i ==> Less(Parse(Substr1(c)).value, Parse(Substr1(m.version)).value))
              && (j > i ==> !Less(Parse(Substr1(m.version)).value, Parse(Substr1(c)).value))
    {
      if j < n - 1 {
        assert CaretAt(env, p, j, c);
      } else {
        assert c == v;
      }
    }
  }

  /** Every state a successful loop reaches is consistent. */
  lemma ReconcileConsistent(env: Sources.Env, files: seq<string>)
    requires ReconcileAll(env, files).Ok?
    ensures Consistent(ReconcileAll(env, files).value)
  {
    if files != [] {
      var n := |files|;
      var st0 := ReconcileAll(env, files[..n - 1]).value;
      if VersionDeclarations.FileVersionDeclaration(env, files[n - 1]).value.None? {
        ReconcileConsistent(env, files[..n - 1]);
      }
    }
  }

  /** The declaration `normalizeCompilerVersionDeclarations` returns: any pin wins (and
      all pins agree); without a pin, the first of the greatest caret ranges; without
      either, none. A pin and the caret maximum are compatible. */
  lemma NormalizedVersionCorrect(env: Sources.Env, files: seq<string>)
    requires NormalizedVersion(env, files).Ok?
    ensures var res := NormalizedVersion(env, files).value;
      && (forall i: nat, v: string :: PinnedAt(env, files, i, v) ==> res == Some(v))
      && ((forall i: nat, v: string :: !PinnedAt(env, files, i, v)) ==>
            if forall i: nat, v: string :: !CaretAt(env, files, i, v) then res == None
            else res.Some? && exists i: nat :: FirstGreatest(env, files, i, res.value))
      && (forall i: nat, v: string, j: nat, c: string :: PinnedAt(env, files, i, v) && FirstGreatest(env, files, j, c) ==>
            Satisfies(v, c))
  {
    PinnedFacts(env, files);
    CaretFacts(env, files);
    ReconcileConsistent(env, files);
    var st := ReconcileAll(env, files).value;
    forall i: nat, v: string, j: nat, c: string | PinnedAt(env, files, i, v) && FirstGreatest(env, files, j, c)
      ensures Satisfies(v, c)
    {
      var k: nat :| FirstGreatest(env, files, k, st.maxCaret.value.version) && files[k] == st.maxCaret.value.file;
      FirstGreatestUnique(env, files, j, c, k, st.maxCaret.value.version);
    }
  }

  /** There is only one first-of-the-greatest caret range. */
  lemma FirstGreatestUnique(env: Sources.Env, files: seq<string>, i: nat, v: string, j: nat, w: string)
    requires FirstGreatest(env, files, i, v) && FirstGreatest(env, files, j, w)
    ensures i == j && v == w
  {
  }
}
