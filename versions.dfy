/** `getFileCompilerVersionDeclaration`: read a file's leading pragma and accept only a
    pinned `M.m[.p]` or a caret `^M.m[.p]` declaration. */
module VersionDeclarations {
  import opened Outcomes
  import opened SemVer
  import Text
  import Sources

  // ---- SUPPORTED_VERSION_DECLARATION_REGEX, /^\^?\d+(\.\d+){1,2}$/ ----

  /** Match `(\.\d+)*$` at `j` after `k` groups, allowing two groups in all. The greedy
      `\d+` never needs to give back a digit: what follows it must be `.` or the end. */
  function GroupsFrom(s: string, j: nat, k: nat): bool
    requires j <= |s|
    decreases |s| - j
  {
    if j == |s| then 1 <= k
    else if s[j] == '.' && k < 2 then
      var e := DigitsEnd(s, j + 1);
      e > j + 1 && GroupsFrom(s, e, k + 1)
    else false
  }

  /** `SUPPORTED_VERSION_DECLARATION_REGEX.test(version)`. */
  function IsSupportedDeclaration(v: string): bool {
    var i := if |v| > 0 && v[0] == '^' then 1 else 0;
    var j := DigitsEnd(v, i);
    j > i && GroupsFrom(v, j, 0)
  }

  /** The declaration without its optional leading `^`. */
  function Body(v: string): string {
    if |v| > 0 && v[0] == '^' then v[1..] else v
  }

  /** The number of dots. */
  function Dots(t: string): nat {
    if t == [] then 0 else (if t[0] == '.' then 1 else 0) + Dots(t[1..])
  }

  predicate DigitsAndDots(t: string) {
    forall i :: 0 <= i < |t| ==> IsDigit(t[i]) || t[i] == '.'
  }

  /** Every dot is followed by a digit. */
  predicate DotsSeparated(t: string) {
    forall i :: 0 <= i < |t| && t[i] == '.' ==> i + 1 < |t| && IsDigit(t[i + 1])
  }

  /** Digits and dots, starting with a digit, with a digit after every dot. */
  predicate Lead(t: string) {
    |t| > 0 && IsDigit(t[0]) && DigitsAndDots(t) && DotsSeparated(t)
  }

  predicate DottedTail(t: string) {
    DigitsAndDots(t) && DotsSeparated(t) && (t != [] ==> t[0] == '.')
  }

  /** What the regex accepts, described without it: after an optional `^`, two or three
      groups of digits joined by single dots. */
  predicate SupportedForm(v: string) {
    Lead(Body(v)) && 1 <= Dots(Body(v)) <= 2
  }

  lemma {:induction false} DotsSkipDigits(s: string, a: nat, e: nat)
    requires a <= e <= |s| && AllDigits(s[a..e])
    ensures Dots(s[a..]) == Dots(s[e..])
    decreases e - a
  {
    if a < e {
      assert s[a] == s[a..e][0];
      assert s[a..][1..] == s[a + 1..];
      assert s[a + 1..e] == s[a..e][1..];
      DotsSkipDigits(s, a + 1, e);
    }
  }

  /** A run of digits followed by a dotted tail is exactly a `Lead`. */
  lemma HeadStep(s: string, i: nat, j: nat)
    requires i <= |s| && j == DigitsEnd(s, i)
    ensures Lead(s[i..]) <==> j > i && DottedTail(s[j..])
  {
    var t, u := s[i..], s[j..];
    if Lead(t) {
      assert IsDigit(s[i]) by { assert t[0] == s[i]; }
      assert j > i;
      forall k | 0 <= k < |u| ensures IsDigit(u[k]) || u[k] == '.' {
        assert u[k] == t[j - i + k];
      }
      forall k | 0 <= k < |u| && u[k] == '.' ensures k + 1 < |u| && IsDigit(u[k + 1]) {
        assert u[k] == t[j - i + k];
        assert t[j - i + k + 1] == u[k + 1];
      }
      if u != [] {
        assert u[0] == s[j] == t[j - i];
      }
    }
    if j > i && DottedTail(u) {
      assert AllDigits(s[i..j]);
      forall k | 0 <= k < |t| ensures IsDigit(t[k]) || t[k] == '.' {
        if k < j - i { assert t[k] == s[i..j][k]; } else { assert t[k] == u[k - (j - i)]; }
      }
      forall k | 0 <= k < j - i ensures IsDigit(t[k]) {
        assert t[k] == s[i..j][k];
      }
      forall k | 0 <= k < |t| && t[k] == '.' ensures k + 1 < |t| && IsDigit(t[k + 1]) {
        assert t[k] == u[k - (j - i)];
        assert t[k + 1] == u[k - (j - i) + 1];
      }
      assert t[0] == s[i..j][0];
    }
  }

  /** A dot followed by a `Lead` is exactly a non-empty dotted tail. */
  lemma TailLead(s: string, j: nat)
    requires j < |s| && s[j] == '.'
    ensures DottedTail(s[j..]) <==> Lead(s[j + 1..])
  {
    var t, u := s[j..], s[j + 1..];
    if DottedTail(t) {
      assert t[0] == '.';
      assert u[0] == t[1];
      forall k | 0 <= k < |u| ensures IsDigit(u[k]) || u[k] == '.' { assert u[k] == t[k + 1]; }
      forall k | 0 <= k < |u| && u[k] == '.' ensures k + 1 < |u| && IsDigit(u[k + 1]) {
        assert u[k] == t[k + 1] && u[k + 1] == t[k + 2];
      }
    }
    if Lead(u) {
      forall k | 0 <= k < |t| ensures IsDigit(t[k]) || t[k] == '.' {
        if k > 0 { assert t[k] == u[k - 1]; }
      }
      forall k | 0 <= k < |t| && t[k] == '.' ensures k + 1 < |t| && IsDigit(t[k + 1]) {
        if k > 0 { assert t[k] == u[k - 1] && t[k + 1] == u[k]; } else { assert t[1] == u[0]; }
      }
    }
  }

  lemma {:induction false} GroupsFromCorrect(s: string, j: nat, k: nat)
    requires j <= |s| && k <= 2
    ensures GroupsFrom(s, j, k) <==> DottedTail(s[j..]) && 1 <= k + Dots(s[j..]) <= 2
    decreases |s| - j
  {
    if j < |s| {
      if s[j] == '.' {
        assert Dots(s[j..]) == 1 + Dots(s[j + 1..]) by { assert s[j..][1..] == s[j + 1..]; }
        var e := DigitsEnd(s, j + 1);
        DotsSkipDigits(s, j + 1, e);
        TailLead(s, j);
        HeadStep(s, j + 1, e);
        if k < 2 {
          GroupsFromCorrect(s, e, k + 1);
        }
      } else {
        assert s[j..][0] == s[j];
      }
    }
  }

  /** The matcher accepts exactly the declarations of the supported form. */
  lemma SupportedDeclarationCorrect(v: string)
    ensures IsSupportedDeclaration(v) <==> SupportedForm(v)
  {
    var i := if |v| > 0 && v[0] == '^' then 1 else 0;
    assert Body(v) == v[i..];
    var j := DigitsEnd(v, i);
    HeadStep(v, i, j);
    DotsSkipDigits(v, i, j);
    GroupsFromCorrect(v, j, 0);
  }

  /** A caret three-part declaration is accepted. */
  lemma CaretDeclarationAccepted()
    ensures IsSupportedDeclaration("^0.5.0")
  {
    var v := "^0.5.0";
    assert DigitsEnd(v, 6) == 6;
    assert DigitsEnd(v, 5) == 6;
    assert DigitsEnd(v, 4) == 4;
    assert DigitsEnd(v, 3) == 4;
    assert DigitsEnd(v, 2) == 2;
    assert DigitsEnd(v, 1) == 2;
  }

  /** A pinned two-part declaration is accepted. */
  lemma PinnedTwoPartAccepted()
    ensures IsSupportedDeclaration("0.5")
  {
    var v := "0.5";
    assert DigitsEnd(v, 3) == 3;
    assert DigitsEnd(v, 2) == 3;
    assert DigitsEnd(v, 1) == 1;
    assert DigitsEnd(v, 0) == 1;
  }

  /** A bare major version is rejected. */
  lemma MajorOnlyRejected()
    ensures !IsSupportedDeclaration("1")
  {
    var v := "1";
    assert DigitsEnd(v, 1) == 1;
    assert DigitsEnd(v, 0) == 1;
  }

  /** A compound range is rejected. */
  lemma RangeRejected()
    ensures !IsSupportedDeclaration(">=0.4.24 <0.6.0")
  {
    var v := ">=0.4.24 <0.6.0";
    assert DigitsEnd(v, 0) == 0;
  }

  /** Four parts are one too many. */
  lemma FourPartsRejected()
    ensures !IsSupportedDeclaration("0.4.24.1")
  {
    var v := "0.4.24.1";
    assert DigitsEnd(v, 1) == 1;
    assert DigitsEnd(v, 0) == 1;
    assert DigitsEnd(v, 3) == 3;
    assert DigitsEnd(v, 2) == 3;
    assert DigitsEnd(v, 6) == 6;
    assert DigitsEnd(v, 5) == 6;
    assert DigitsEnd(v, 4) == 6;
  }

  // ---- getFileCompilerVersionDeclaration ----

  /** Resolve the file, match the pragma regex against its text, and return the capture
      if it is a supported declaration; `Ok(None)` when there is no pragma. */
  function FileVersionDeclaration(env: Sources.Env, file: string): Result<Option<string>> {
    match Sources.Resolve(env, file)
    case Err(e) => Err(e)
    case Ok(resolved) =>
      match Text.MatchPragma(resolved.contents)
      case None => Ok(None)
      case Some(m) =>
        if IsSupportedDeclaration(m.version) then Ok(Some(m.version))
        else Err(UnsupportedVersion(file, m.version))
  }

  /** The declaration of a file: a resolution error for an unknown file; nothing exactly
      when its text does not start with a pragma; otherwise the pragma's capture, which is
      returned when it has the supported form and is an error naming the file and the
      capture when it has not. */
  lemma FileVersionDeclarationCorrect(env: Sources.Env, file: string)
    ensures file !in env.files ==> FileVersionDeclaration(env, file) == Err(ResolutionFailure(file))
    ensures file in env.files ==>
      var c := env.files[file].contents;
      var r := FileVersionDeclaration(env, file);
      && (r == Ok(None) <==> !Text.HasPragma(c))
      && (Text.HasPragma(c) ==>
            var v := Text.MatchPragma(c).value.version;
            r == if SupportedForm(v) then Ok(Some(v)) else Err(UnsupportedVersion(file, v)))
  {
    if file in env.files {
      var c := env.files[file].contents;
      Text.MatchPragmaCorrect(c);
      if Text.MatchPragma(c).Some? {
        SupportedDeclarationCorrect(Text.MatchPragma(c).value.version);
      }
    }
  }

  /** Whatever the declaration returned, it has the supported form. */
  lemma DeclarationSupported(env: Sources.Env, file: string)
    requires FileVersionDeclaration(env, file).Ok? && FileVersionDeclaration(env, file).value.Some?
    ensures SupportedForm(FileVersionDeclaration(env, file).value.value)
  {
    SupportedDeclarationCorrect(FileVersionDeclaration(env, file).value.value);
  }
}
