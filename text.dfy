/** The three string matchers and `trim`: the solidity pragma regex
    `/^\s*pragma\ssolidity\s+(.*?)\s*;/`, the import-line regex `/^\s*import(\s+).*$/gm`
    used with `replace`, and `String.prototype.trim`, with JavaScript's meaning of `\s`,
    `.`, `^` and `$`. */
module Text {
  import opened Outcomes

  /** JavaScript's `\s`, which is also what `trim` strips: the WhiteSpace and
      LineTerminator code points of ECMAScript (sections 12.2 and 12.3 of ECMA-262). */
  predicate IsWs(c: char) {
    || c == '\t' || c == '\n' || c == '\U{000B}' || c == '\U{000C}' || c == '\r' || c == ' '
    || c == '\U{00A0}' || c == '\U{1680}' || ('\U{2000}' <= c <= '\U{200A}')
    || c == '\U{2028}' || c == '\U{2029}' || c == '\U{202F}' || c == '\U{205F}'
    || c == '\U{3000}' || c == '\U{FEFF}'
  }

  /** The characters `.` does not match and before which `$` matches in multiline mode. */
  predicate IsLineTerminator(c: char) {
    c == '\n' || c == '\r' || c == '\U{2028}' || c == '\U{2029}'
  }

  predicate AllWs(t: string) {
    forall k :: 0 <= k < |t| ==> IsWs(t[k])
  }

  predicate NoLineTerminator(t: string) {
    forall k :: 0 <= k < |t| ==> !IsLineTerminator(t[k])
  }

  /** The end of the whitespace run starting at `i`. */
  function SkipWs(s: string, i: nat): (j: nat)
    requires i <= |s|
    ensures i <= j <= |s| && AllWs(s[i..j]) && (j == |s| || !IsWs(s[j]))
    decreases |s| - i
  {
    if i == |s| || !IsWs(s[i]) then i
    else
      var j := SkipWs(s, i + 1);
      assert s[i..j] == [s[i]] + s[i + 1..j];
      j
  }

  /** A whitespace run is maximal in exactly one place. */
  lemma {:induction false} SkipWsUnique(s: string, i: nat, j: nat)
    requires i <= j <= |s| && AllWs(s[i..j]) && (j == |s| || !IsWs(s[j]))
    ensures SkipWs(s, i) == j
    decreases j - i
  {
    if i < j {
      assert s[i] == s[i..j][0];
      assert s[i + 1..j] == s[i..j][1..];
      SkipWsUnique(s, i + 1, j);
    }
  }

  /** The end of the line that position `i` is on: the next line terminator or the end. */
  function LineEnd(s: string, i: nat): (j: nat)
    requires i <= |s|
    ensures i <= j <= |s| && NoLineTerminator(s[i..j]) && (j == |s| || IsLineTerminator(s[j]))
    decreases |s| - i
  {
    if i == |s| || IsLineTerminator(s[i]) then i
    else
      var j := LineEnd(s, i + 1);
      assert s[i..j] == [s[i]] + s[i + 1..j];
      j
  }

  // ---- trim ----

  /** The start of the whitespace run that ends at `j`. */
  function SkipWsBack(s: string, j: nat): (i: nat)
    requires j <= |s|
    ensures i <= j && AllWs(s[i..j]) && (i == 0 || !IsWs(s[i - 1]))
    decreases j
  {
    if j == 0 || !IsWs(s[j - 1]) then j
    else
      var i := SkipWsBack(s, j - 1);
      assert s[i..j] == s[i..j - 1] + [s[j - 1]];
      i
  }

  /** `String.prototype.trim`: the slice left after dropping the leading and trailing
      whitespace; it neither starts nor ends with whitespace. */
  function Trim(s: string): (r: string)
    ensures exists i, j :: 0 <= i <= j <= |s| && r == s[i..j] && AllWs(s[..i]) && AllWs(s[j..])
    ensures r == [] || (!IsWs(r[0]) && !IsWs(r[|r| - 1]))
  {
    var a := SkipWs(s, 0);
    if a == |s| then
      TrimEmpty(s);
      []
    else
      TrimBounds(s);
      s[a..SkipWsBack(s, |s|)]
  }

  /** Text made only of whitespace trims to nothing. */
  lemma TrimEmpty(s: string)
    requires SkipWs(s, 0) == |s|
    ensures exists i, j :: 0 <= i <= j <= |s| && [] == s[i..j] && AllWs(s[..i]) && AllWs(s[j..])
  {
    var a := |s|;
    assert s[..a] == s[0..a] && s[a..] == [] && s[a..a] == [];
    assert 0 <= a <= a <= |s| && [] == s[a..a] && AllWs(s[..a]) && AllWs(s[a..]);
  }

  /** Some text is left between the leading and the trailing whitespace runs. */
  lemma TrimBounds(s: string)
    requires SkipWs(s, 0) < |s|
    ensures var a, b := SkipWs(s, 0), SkipWsBack(s, |s|);
      && a < b <= |s|
      && var r := s[a..b];
      && r != [] && !IsWs(r[0]) && !IsWs(r[|r| - 1])
      && exists i, j :: 0 <= i <= j <= |s| && r == s[i..j] && AllWs(s[..i]) && AllWs(s[j..])
  {
    var a, b := SkipWs(s, 0), SkipWsBack(s, |s|);
    assert s[..a] == s[0..a] && s[b..] == s[b..|s|];
    WsRunAfter(s, a, b);
    var r := s[a..b];
    assert r[0] == s[a] && r[|r| - 1] == s[b - 1];
    assert 0 <= a <= b <= |s| && r == s[a..b] && AllWs(s[..a]) && AllWs(s[b..]);
  }

  /** A character that is not whitespace lies before a whitespace run that reaches the end. */
  lemma WsRunAfter(s: string, a: nat, b: nat)
    requires a < |s| && !IsWs(s[a]) && b <= |s| && AllWs(s[b..])
    ensures a < b
  {
  }

  /** Only one slice fits the description: trimming is determined by its contract. */
  lemma TrimUnique(s: string, i: nat, j: nat)
    requires i <= j <= |s| && AllWs(s[..i]) && AllWs(s[j..])
    requires s[i..j] == [] || (!IsWs(s[i]) && !IsWs(s[j - 1]))
    ensures Trim(s) == s[i..j]
  {
    var a := SkipWs(s, 0);
    if i < j {
      assert s[0..i] == s[..i];
      SkipWsUnique(s, 0, i);
      var b := SkipWsBack(s, |s|);
      assert s[j..|s|] == s[j..];
      SkipWsBackUnique(s, j, |s|);
    } else {
      assert AllWs(s[0..|s|]) by {
        forall k | 0 <= k < |s| ensures IsWs(s[k]) {
          if k < i {
            assert s[..i][k] == s[k];
          } else {
            assert s[j..][k - j] == s[k];
          }
        }
      }
      SkipWsUnique(s, 0, |s|);
    }
  }

  lemma {:induction false} SkipWsBackUnique(s: string, i: nat, j: nat)
    requires i <= j <= |s| && AllWs(s[i..j]) && (i == 0 || !IsWs(s[i - 1]))
    ensures SkipWsBack(s, j) == i
    decreases j - i
  {
    if i < j {
      assert s[j - 1] == s[i..j][j - 1 - i];
      assert s[i..j - 1] == s[i..j][..j - 1 - i];
      SkipWsBackUnique(s, i, j - 1);
    }
  }

  lemma TrimIdempotent(s: string)
    ensures Trim(Trim(s)) == Trim(s)
  {
    var r := Trim(s);
    assert r[..0] == [] && r[|r|..] == [] && r[0..|r|] == r;
    TrimUnique(r, 0, |r|);
  }

  // ---- the pragma regex ----

  /** The pieces of a match of `^\s*pragma\ssolidity\s+(.*?)\s*;` against `s`: leading
      whitespace up to `n`, the two keywords with exactly one whitespace character between
      them, at least one whitespace character up to `p`, the capture `s[p..e]` without line
      terminators, whitespace up to `f`, and the `;` at `f`. */
  predicate PragmaShape(s: string, n: nat, p: nat, e: nat, f: nat) {
    && n + 16 <= p <= e <= f < |s|
    && AllWs(s[..n]) && s[n..n + 6] == "pragma" && IsWs(s[n + 6]) && s[n + 7..n + 15] == "solidity"
    && AllWs(s[n + 15..p]) && NoLineTerminator(s[p..e]) && AllWs(s[e..f]) && s[f] == ';'
  }

  ghost predicate HasPragma(s: string) {
    exists n: nat, p: nat, e: nat, f: nat :: PragmaShape(s, n, p, e, f)
  }

  /** A `;` after nothing but whitespace from `e`. */
  predicate SemiAfter(s: string, e: nat, f: nat) {
    e <= f < |s| && AllWs(s[e..f]) && s[f] == ';'
  }

  /** The match the regex engine returns: the greedy `\s+` takes the whole whitespace run
      and the lazy capture ends at the first place from which `\s*;` matches. */
  ghost predicate PragmaChosen(s: string, n: nat, p: nat, e: nat, f: nat) {
    && PragmaShape(s, n, p, e, f)
    && (p == |s| || !IsWs(s[p]))
    && forall e': nat, f': nat :: p <= e' < e ==> !SemiAfter(s, e', f')
  }

  /** What a match of the pragma regex yields: the capture and the end of the match. */
  datatype PragmaMatch = PragmaMatch(version: string, end: nat)

  /** Whether `\s*;` matches at `e`. */
  function SemiAt(s: string, e: nat): (b: bool)
    requires e <= |s|
    ensures b <==> exists f: nat :: SemiAfter(s, e, f)
  {
    var f := SkipWs(s, e);
    if f < |s| && s[f] == ';' then
      assert SemiAfter(s, e, f);
      true
    else
      assert forall f': nat :: !SemiAfter(s, e, f') by {
        forall f' | SemiAfter(s, e, f') ensures false {
          SkipWsUnique(s, e, f');
        }
      }
      false
  }

  /** The lazy `(.*?)` from `e` on: the first end at which `\s*;` matches, as long as no
      line terminator has been consumed. */
  function LazyEnd(s: string, e: nat): (r: Option<nat>)
    requires e <= |s|
    ensures r.Some? ==> e <= r.value <= |s| && SemiAt(s, r.value) && NoLineTerminator(s[e..r.value])
    ensures r.Some? ==> forall e' :: e <= e' < r.value ==> !SemiAt(s, e')
    ensures r.None? ==> forall e' :: e <= e' <= |s| && NoLineTerminator(s[e..e']) ==> !SemiAt(s, e')
    decreases |s| - e
  {
    if SemiAt(s, e) then Some(e)
    else if e == |s| || IsLineTerminator(s[e]) then
      assert forall e' :: e < e' <= |s| ==> s[e..e'][0] == s[e];
      None
    else
      var r := LazyEnd(s, e + 1);
      assert forall e' :: e < e' <= |s| ==> s[e + 1..e'] == s[e..e'][1..];
      if r.Some? then
        assert s[e..r.value] == [s[e]] + s[e + 1..r.value];
        r
      else r
  }

  /** `content.match(PRAGAMA_SOLIDITY_VERSION_REGEX)`: without the `m` flag `^` only
      matches at the start, so the whitespace and the keywords are forced. */
  function MatchPragma(s: string): Option<PragmaMatch> {
    var n := SkipWs(s, 0);
    if n + 16 <= |s| && s[n..n + 6] == "pragma" && IsWs(s[n + 6]) && s[n + 7..n + 15] == "solidity"
       && IsWs(s[n + 15]) then
      var p := SkipWs(s, n + 15);
      match LazyEnd(s, p)
      case None => None
      case Some(e) => Some(PragmaMatch(s[p..e], SkipWs(s, e) + 1))
    else None
  }

  /** Whitespace all the way from `i` to `j` means the run from `i` ends where the run
      from `j` ends. */
  lemma SkipWsThrough(s: string, i: nat, j: nat)
    requires i <= j <= |s| && AllWs(s[i..j])
    ensures SkipWs(s, i) == SkipWs(s, j)
  {
    var k := SkipWs(s, j);
    assert s[i..k] == s[i..j] + s[j..k];
    SkipWsUnique(s, i, k);
  }

  /** The pragma matcher finds a match exactly when the regex has one, and returns the one
      the regex engine picks: its capture and the position just past the `;`. */
  lemma MatchPragmaCorrect(s: string)
    ensures MatchPragma(s).Some? <==> HasPragma(s)
    ensures MatchPragma(s).Some? ==>
      exists n: nat, p: nat, e: nat, f: nat ::
        PragmaChosen(s, n, p, e, f) && MatchPragma(s).value == PragmaMatch(s[p..e], f + 1)
  {
    if MatchPragma(s).Some? {
      PragmaFound(s);
    }
    if HasPragma(s) {
      var n': nat, p': nat, e': nat, f': nat :| PragmaShape(s, n', p', e', f');
      PragmaNotMissed(s, n', p', e', f');
    }
  }

  lemma PragmaFound(s: string)
    requires MatchPragma(s).Some?
    ensures exists n: nat, p: nat, e: nat, f: nat ::
      PragmaChosen(s, n, p, e, f) && MatchPragma(s).value == PragmaMatch(s[p..e], f + 1)
  {
    var n := SkipWs(s, 0);
    assert s[..n] == s[0..n];
    var p := SkipWs(s, n + 15);
    var e := LazyEnd(s, p).value;
    var f := SkipWs(s, e);
    assert SemiAfter(s, e, f);
    forall e', f' | p <= e' < e ensures !SemiAfter(s, e', f') {
      assert !SemiAt(s, e');
    }
    assert PragmaChosen(s, n, p, e, f);
  }

  lemma PragmaNotMissed(s: string, n': nat, p': nat, e': nat, f': nat)
    requires PragmaShape(s, n', p', e', f')
    ensures MatchPragma(s).Some?
  {
    assert s[n'] == s[n'..n' + 6][0] == 'p';
    assert s[0..n'] == s[..n'];
    SkipWsUnique(s, 0, n');
    var n := n';
    assert IsWs(s[n + 15]) by {
      assert s[n + 15] == s[n + 15..p'][0];
    }
    var p := SkipWs(s, n + 15);
    SkipWsThrough(s, n + 15, p');
    assert SkipWs(s, e') == f' by {
      SkipWsUnique(s, e', f');
    }
    if e' >= p {
      assert NoLineTerminator(s[p..e']) by {
        assert s[p..e'] == s[p'..e'][p - p'..];
      }
      assert SemiAfter(s, e', f');
      assert SemiAt(s, e');
    } else {
      assert AllWs(s[e'..p]) by {
        assert s[e'..p] == s[n + 15..p][e' - (n + 15)..];
      }
      SkipWsThrough(s, e', p);
      assert SemiAfter(s, p, f');
      assert SemiAt(s, p) && NoLineTerminator(s[p..p]);
    }
  }

  /** The capture of the chosen match never begins or ends with whitespace (trailing
      whitespace belongs to `\s*`) and holds no line terminator. */
  lemma CaptureClean(s: string, n: nat, p: nat, e: nat, f: nat)
    requires PragmaChosen(s, n, p, e, f)
    ensures var v := s[p..e]; NoLineTerminator(v) && (v == [] || (!IsWs(v[0]) && !IsWs(v[|v| - 1])))
  {
    if p < e {
      assert s[p..e][0] == s[p];
      assert s[p..e][e - p - 1] == s[e - 1];
      assert !SemiAfter(s, e - 1, f);
      SemiAfterStep(s, e, f);
    }
  }

  lemma SemiAfterStep(s: string, e: nat, f: nat)
    requires 0 < e <= f < |s|
    ensures SemiAfter(s, e - 1, f) <==> IsWs(s[e - 1]) && SemiAfter(s, e, f)
  {
    assert s[e - 1..f] == [s[e - 1]] + s[e..f];
  }

  /** `content.replace(PRAGAMA_SOLIDITY_VERSION_REGEX, "")`: drop the matched statement. */
  function StripPragma(s: string): (r: string)
    ensures MatchPragma(s).None? ==> r == s
    ensures MatchPragma(s).Some? ==> MatchPragma(s).value.end <= |s| && r == s[MatchPragma(s).value.end..]
  {
    match MatchPragma(s)
    case None => s
    case Some(m) => s[m.end..]
  }

  // ---- the import-line regex ----

  /** In multiline mode `^` matches at the start and after every line terminator. */
  predicate LineStart(s: string, q: nat)
    requires q <= |s|
  {
    q == 0 || IsLineTerminator(s[q - 1])
  }

  /** The pieces of a match of `^\s*import(\s+).*$` at `q`: whitespace (which may span
      lines) up to `n`, the keyword, at least one whitespace character up to `m`, then
      the rest of that line up to `t`, where `$` matches. */
  predicate ImportShape(s: string, q: nat, n: nat, m: nat, t: nat) {
    && q <= n && n + 7 <= m <= t <= |s|
    && LineStart(s, q) && AllWs(s[q..n]) && s[n..n + 6] == "import" && AllWs(s[n + 6..m])
    && NoLineTerminator(s[m..t]) && (t == |s| || IsLineTerminator(s[t]))
  }

  /** The match the engine picks at `q`: the greedy `(\s+)` takes the whole whitespace run. */
  predicate ImportChosen(s: string, q: nat, n: nat, m: nat, t: nat) {
    ImportShape(s, q, n, m, t) && (m == |s| || !IsWs(s[m]))
  }

  /** Where a match of the import regex that starts at `q` ends, if one does. */
  function ImportMatch(s: string, q: nat): (r: Option<nat>)
    requires q <= |s|
    ensures r.Some? ==> q < r.value <= |s|
  {
    if !LineStart(s, q) then None
    else
      var n := SkipWs(s, q);
      if n + 7 <= |s| && s[n..n + 6] == "import" && IsWs(s[n + 6]) then
        Some(LineEnd(s, SkipWs(s, n + 6)))
      else None
  }

  /** The matcher finds a match at `q` exactly when the regex has one there, and returns
      the end of the one the engine picks. */
  lemma ImportMatchCorrect(s: string, q: nat)
    requires q <= |s|
    ensures ImportMatch(s, q).Some? <==> exists n: nat, m: nat, t: nat :: ImportShape(s, q, n, m, t)
    ensures ImportMatch(s, q).Some? ==>
      exists n: nat, m: nat :: ImportChosen(s, q, n, m, ImportMatch(s, q).value)
  {
    if ImportMatch(s, q).Some? {
      ImportMatchSound(s, q);
      var n: nat, m: nat :| ImportChosen(s, q, n, m, ImportMatch(s, q).value);
      assert ImportShape(s, q, n, m, ImportMatch(s, q).value);
    }
    if exists n: nat, m: nat, t: nat :: ImportShape(s, q, n, m, t) {
      var n: nat, m: nat, t: nat :| ImportShape(s, q, n, m, t);
      ImportMatchComplete(s, q, n, m, t);
    }
  }

  /** A match the matcher reports is the one the engine picks. */
  lemma ImportMatchSound(s: string, q: nat)
    requires q <= |s| && ImportMatch(s, q).Some?
    ensures exists n: nat, m: nat :: ImportChosen(s, q, n, m, ImportMatch(s, q).value)
  {
    var n := SkipWs(s, q);
    var m := SkipWs(s, n + 6);
    assert s[n + 6..m] == [s[n + 6]] + s[n + 7..m];
    assert ImportChosen(s, q, n, m, ImportMatch(s, q).value);
  }

  /** The matcher misses no match of the regex. */
  lemma ImportMatchComplete(s: string, q: nat, n: nat, m: nat, t: nat)
    requires ImportShape(s, q, n, m, t)
    ensures ImportMatch(s, q).Some?
  {
    assert s[n] == s[n..n + 6][0] == 'i';
    SkipWsUnique(s, q, n);
    assert s[n + 6] == s[n + 6..m][0];
  }

  /** The `replace` loop of a global regex: try a match at `q`; on success skip it,
      otherwise keep `s[q]` and try at `q + 1`. */
  function StripFrom(s: string, q: nat): string
    requires q <= |s|
    decreases |s| - q
  {
    if q == |s| then ""
    else
      match ImportMatch(s, q)
      case Some(t) => StripFrom(s, t)
      case None => [s[q]] + StripFrom(s, q + 1)
  }

  /** `content.replace(IMPORT_SOLIDITY_REGEX, "")`. */
  function StripImports(s: string): string {
    StripFrom(s, 0)
  }

  /** The positions `q`, ..., `t - 1`. */
  function Span(q: nat, t: nat): (r: set<nat>)
    ensures forall k :: k in r <==> q <= k < t
    decreases t - q
  {
    if q >= t then {} else {q} + Span(q + 1, t)
  }

  /** The positions from `q` on that the `replace` loop removes. */
  function Removed(s: string, q: nat): (r: set<nat>)
    requires q <= |s|
    ensures forall k :: k in r ==> q <= k < |s|
    decreases |s| - q
  {
    if q == |s| then {}
    else
      match ImportMatch(s, q)
      case Some(t) => Span(q, t) + Removed(s, t)
      case None => Removed(s, q + 1)
  }

  /** The characters of `s[q..]` whose positions are not in `cut`, in order. */
  function Keep(s: string, q: nat, cut: set<nat>): string
    requires q <= |s|
    decreases |s| - q
  {
    if q == |s| then "" else (if q in cut then "" else [s[q]]) + Keep(s, q + 1, cut)
  }

  lemma {:induction false} KeepAgree(s: string, q: nat, a: set<nat>, b: set<nat>)
    requires q <= |s|
    requires forall k :: q <= k < |s| ==> (k in a <==> k in b)
    ensures Keep(s, q, a) == Keep(s, q, b)
    decreases |s| - q
  {
    if q < |s| {
      KeepAgree(s, q + 1, a, b);
    }
  }

  lemma {:induction false} KeepSkip(s: string, q: nat, t: nat, cut: set<nat>)
    requires q <= t <= |s| && forall k :: q <= k < t ==> k in cut
    ensures Keep(s, q, cut) == Keep(s, t, cut)
    decreases t - q
  {
    if q < t {
      KeepSkip(s, q + 1, t, cut);
    }
  }

  lemma {:induction false} StripFromKeeps(s: string, q: nat)
    requires q <= |s|
    ensures StripFrom(s, q) == Keep(s, q, Removed(s, q))
    decreases |s| - q
  {
    if q < |s| {
      match ImportMatch(s, q)
      case Some(t) =>
        StripFromKeeps(s, t);
        KeepsAfterMatch(s, q, t);
      case None =>
        StripFromKeeps(s, q + 1);
        KeepsAfterChar(s, q);
    }
  }

  /** The step of `StripFromKeeps` past a match at `q`. */
  lemma KeepsAfterMatch(s: string, q: nat, t: nat)
    requires q < |s| && ImportMatch(s, q) == Some(t)
    requires StripFrom(s, t) == Keep(s, t, Removed(s, t))
    ensures StripFrom(s, q) == Keep(s, q, Removed(s, q))
  {
    var r := Removed(s, q);
    assert r == Span(q, t) + Removed(s, t);
    KeepSkip(s, q, t, r);
    KeepAgree(s, t, r, Removed(s, t));
  }

  /** The step of `StripFromKeeps` past a kept character at `q`. */
  lemma KeepsAfterChar(s: string, q: nat)
    requires q < |s| && ImportMatch(s, q).None?
    requires StripFrom(s, q + 1) == Keep(s, q + 1, Removed(s, q + 1))
    ensures StripFrom(s, q) == Keep(s, q, Removed(s, q))
  {
    var r := Removed(s, q);
    assert r == Removed(s, q + 1);
    assert q !in r;
    assert Keep(s, q, r) == [s[q]] + Keep(s, q + 1, r);
  }

  /** Every removed position lies inside a match that the loop removed entirely. */
  lemma {:induction false} RemovedAreMatches(s: string, q: nat, k: nat)
    requires q <= |s| && k in Removed(s, q)
    ensures exists a: nat, t: nat :: (a <= k < t <= |s| && ImportMatch(s, a) == Some(t) &&
      forall j :: a <= j < t ==> j in Removed(s, q))
    decreases |s| - q
  {
    match ImportMatch(s, q)
    case Some(t) =>
      if k >= t {
        RemovedAreMatches(s, t, k);
      } else {
        assert forall j :: q <= j < t ==> j in Removed(s, q);
      }
    case None =>
      RemovedAreMatches(s, q + 1, k);
  }

  /** Every kept position was tried and no match starts there: the matches are found
      leftmost first. */
  lemma {:induction false} KeptAreNoMatches(s: string, q: nat, k: nat)
    requires q <= k < |s| && k !in Removed(s, q)
    ensures ImportMatch(s, k).None?
    decreases |s| - q
  {
    if q < k {
      match ImportMatch(s, q)
      case Some(t) =>
        assert k >= t;
        KeptAreNoMatches(s, t, k);
      case None =>
        KeptAreNoMatches(s, q + 1, k);
    }
  }

  /** `replace` with the global import regex keeps exactly the characters outside the
      matches it finds, in order; every removed character lies in a match, and no match
      starts at a kept character. */
  lemma StripImportsCorrect(s: string)
    ensures StripImports(s) == Keep(s, 0, Removed(s, 0))
    ensures forall k :: k in Removed(s, 0) ==>
      exists a: nat, t: nat :: (a <= k < t <= |s| && ImportMatch(s, a) == Some(t) &&
        forall j :: a <= j < t ==> j in Removed(s, 0))
    ensures forall k :: 0 <= k < |s| && k !in Removed(s, 0) ==> ImportMatch(s, k).None?
  {
    StripFromKeeps(s, 0);
    forall k | k in Removed(s, 0)
      ensures exists a: nat, t: nat :: (a <= k < t <= |s| && ImportMatch(s, a) == Some(t) &&
        forall j :: a <= j < t ==> j in Removed(s, 0))
    {
      RemovedAreMatches(s, 0, k);
    }
    forall k | 0 <= k < |s| && k !in Removed(s, 0) ensures ImportMatch(s, k).None? {
      KeptAreNoMatches(s, 0, k);
    }
  }

  lemma {:induction false} StripFromUnchanged(s: string, q: nat)
    requires q <= |s| && forall k :: q <= k < |s| ==> ImportMatch(s, k).None?
    ensures StripFrom(s, q) == s[q..]
    decreases |s| - q
  {
    if q < |s| {
      StripFromUnchanged(s, q + 1);
      assert s[q..] == [s[q]] + s[q + 1..];
    }
  }

  /** Text without a match of the import regex passes through unchanged. */
  lemma StripImportsUnchanged(s: string)
    requires forall k :: 0 <= k < |s| ==> ImportMatch(s, k).None?
    ensures StripImports(s) == s
  {
    StripFromUnchanged(s, 0);
  }

  /** `import{...}`, with no whitespace after the keyword, is not an import line for the
      regex and stays in the output. */
  lemma BraceImportKept()
    ensures StripImports("import{Token} from \"./Token.sol\";") == "import{Token} from \"./Token.sol\";"
  {
    var s := "import{Token} from \"./Token.sol\";";
    assert NoLineTerminator(s);
    assert ImportMatch(s, 0).None? by {
      assert SkipWs(s, 0) == 0;
      assert !IsWs(s[6]);
    }
    SingleLineKept(s);
  }

  /** A single line with no match at its start passes through unchanged. */
  lemma SingleLineKept(s: string)
    requires NoLineTerminator(s) && (|s| > 0 ==> ImportMatch(s, 0).None?)
    ensures StripImports(s) == s
  {
    forall k | 0 < k < |s| ensures ImportMatch(s, k).None? {
      assert !IsLineTerminator(s[k - 1]);
    }
    StripImportsUnchanged(s);
  }

  /** The text `printFileWithoutPragma` logs for a file's contents. */
  function Printed(s: string): string {
    Trim(StripImports(StripPragma(s)))
  }

  /** Contents with no pragma and no import line are printed only trimmed. */
  lemma PrintedPlain(s: string)
    requires MatchPragma(s).None?
    requires forall k :: 0 <= k < |s| ==> ImportMatch(s, k).None?
    ensures Printed(s) == Trim(s)
  {
    StripImportsUnchanged(s);
  }
}
