/** The part of node-semver the reconciler relies on: strict `MAJOR.MINOR.PATCH`
    versions, their precedence (section 11 of Semantic Versioning 2.0.0), `semver.gt`,
    and `semver.satisfies` against a caret range. */
module SemVer {
  import opened Outcomes

  predicate IsDigit(c: char) {
    '0' <= c <= '9'
  }

  predicate AllDigits(s: string) {
    forall i :: 0 <= i < |s| ==> IsDigit(s[i])
  }

  /** A numeric identifier: one or more digits and no leading zero (section 2 of
      Semantic Versioning 2.0.0). */
  predicate IsNumericIdentifier(s: string) {
    |s| > 0 && AllDigits(s) && (s[0] == '0' ==> |s| == 1)
  }

  function DigitValue(c: char): nat
    requires IsDigit(c)
  {
    c as int - '0' as int
  }

  function Digit(d: nat): (c: char)
    requires d < 10
    ensures IsDigit(c) && DigitValue(c) == d
  {
    ('0' as int + d) as char
  }

  /** The number a string of decimal digits denotes. */
  function NumeralValue(s: string): nat
    requires AllDigits(s)
  {
    if s == [] then 0 else 10 * NumeralValue(s[..|s| - 1]) + DigitValue(s[|s| - 1])
  }

  /** The decimal numeral of `n`. */
  function Numeral(n: nat): (s: string)
    ensures |s| > 0 && AllDigits(s)
    ensures n > 0 ==> s[0] != '0'
    ensures IsNumericIdentifier(s)
  {
    if n < 10 then [Digit(n)] else Numeral(n / 10) + [Digit(n % 10)]
  }

  /** Rendering a number and reading it back gives the number. */
  lemma {:induction false} NumeralOfNumeral(n: nat)
    ensures NumeralValue(Numeral(n)) == n
  {
    if n >= 10 {
      NumeralOfNumeral(n / 10);
      var t := Numeral(n / 10);
      assert (t + [Digit(n % 10)])[..|t|] == t;
    }
  }

  lemma {:induction false} LeadingDigitPositive(s: string)
    requires AllDigits(s) && |s| > 0 && s[0] != '0'
    ensures NumeralValue(s) > 0
    decreases |s|
  {
    if |s| > 1 {
      LeadingDigitPositive(s[..|s| - 1]);
    }
  }

  /** A numeric identifier is the numeral of the number it denotes: there is exactly one
      way to write each number. */
  lemma {:induction false} NumeralOfValue(s: string)
    requires IsNumericIdentifier(s)
    ensures Numeral(NumeralValue(s)) == s
    decreases |s|
  {
    if |s| > 1 {
      var t := s[..|s| - 1];
      LeadingDigitPositive(t);
      NumeralOfValue(t);
      assert s == t + [s[|s| - 1]];
    }
  }

  /** The end of the run of digits starting at `i`. */
  function DigitsEnd(s: string, i: nat): (j: nat)
    requires i <= |s|
    ensures i <= j <= |s| && AllDigits(s[i..j]) && (j == |s| || !IsDigit(s[j]))
    decreases |s| - i
  {
    if i < |s| && IsDigit(s[i]) then
      var j := DigitsEnd(s, i + 1);
      assert s[i..j] == [s[i]] + s[i + 1..j];
      j
    else i
  }

  lemma {:induction false} DigitsEndAt(s: string, i: nat, j: nat)
    requires i <= j <= |s| && AllDigits(s[i..j]) && (j == |s| || !IsDigit(s[j]))
    ensures DigitsEnd(s, i) == j
    decreases j - i
  {
    if i < j {
      assert s[i] == s[i..j][0];
      assert s[i + 1..j] == s[i..j][1..];
      DigitsEndAt(s, i + 1, j);
    }
  }

  datatype Version = Version(major: nat, minor: nat, patch: nat)

  /** `M.m.p` written out. */
  function Render(v: Version): string {
    Numeral(v.major) + "." + Numeral(v.minor) + "." + Numeral(v.patch)
  }

  /** `new SemVer(s)` in strict mode: three numeric identifiers separated by dots, nothing
      else; `None` where the constructor throws. */
  function Parse(s: string): Option<Version> {
    var a := DigitsEnd(s, 0);
    if !(IsNumericIdentifier(s[..a]) && a < |s| && s[a] == '.') then None
    else
      var b := DigitsEnd(s, a + 1);
      if !(IsNumericIdentifier(s[a + 1..b]) && b < |s| && s[b] == '.') then None
      else
        var c := DigitsEnd(s, b + 1);
        if !(c == |s| && IsNumericIdentifier(s[b + 1..])) then None
        else Some(Version(NumeralValue(s[..a]), NumeralValue(s[a + 1..b]), NumeralValue(s[b + 1..])))
  }

  /** Every version parses back from its rendering. */
  lemma ParseRender(v: Version)
    ensures Parse(Render(v)) == Some(v)
  {
    var x, y, z := Numeral(v.major), Numeral(v.minor), Numeral(v.patch);
    var s := Render(v);
    assert s == x + "." + y + "." + z;
    var a, b := |x|, |x| + 1 + |y|;
    assert s[..a] == x && s[a] == '.';
    assert s[a + 1..b] == y && s[b] == '.';
    assert s[b + 1..] == z;
    DigitsEndAt(s, 0, a);
    DigitsEndAt(s, a + 1, b);
    DigitsEndAt(s, b + 1, |s|);
    NumeralOfNumeral(v.major);
    NumeralOfNumeral(v.minor);
    NumeralOfNumeral(v.patch);
  }

  /** A string that parses is the rendering of its version: `Parse` and `Render` are
      inverse bijections between strict version strings and versions. */
  lemma RenderParse(s: string)
    requires Parse(s).Some?
    ensures Render(Parse(s).value) == s
  {
    var a := DigitsEnd(s, 0);
    var b := DigitsEnd(s, a + 1);
    var x, y, z := s[..a], s[a + 1..b], s[b + 1..];
    assert Parse(s).value == Version(NumeralValue(x), NumeralValue(y), NumeralValue(z));
    NumeralOfValue(x);
    NumeralOfValue(y);
    NumeralOfValue(z);
    DotsGlue(s, a, b);
  }

  lemma DotsGlue(s: string, a: nat, b: nat)
    requires a < b < |s| && s[a] == '.' && s[b] == '.'
    ensures s == s[..a] + "." + s[a + 1..b] + "." + s[b + 1..]
  {
    assert s[b..] == [s[b]] + s[b + 1..];
    assert s[a + 1..] == s[a + 1..b] + s[b..];
    assert s[a..] == [s[a]] + s[a + 1..];
    assert s == s[..a] + s[a..];
  }

  /** Precedence (section 11 of Semantic Versioning 2.0.0): major, minor and patch are
      compared numerically, left to right. */
  predicate Less(a: Version, b: Version) {
    a.major < b.major
    || (a.major == b.major && a.minor < b.minor)
    || (a.major == b.major && a.minor == b.minor && a.patch < b.patch)
  }

  /** Precedence is a strict total order. */
  lemma LessIsStrictTotalOrder(a: Version, b: Version, c: Version)
    ensures !Less(a, a)
    ensures Less(a, b) && Less(b, c) ==> Less(a, c)
    ensures a == b || Less(a, b) || Less(b, a)
    ensures !(Less(a, b) && Less(b, a))
  {
  }

  /** `semver.gt(a, b)`: `a` takes precedence over `b`; an argument that is not a
      version throws (the first argument is parsed first). */
  function Gt(a: string, b: string): (r: Result<bool>)
    ensures r.Ok? <==> Parse(a).Some? && Parse(b).Some?
    ensures Parse(a).None? ==> r == Err(InvalidSemVer(a))
    ensures Parse(a).Some? && Parse(b).None? ==> r == Err(InvalidSemVer(b))
    ensures r.Ok? ==> (r.value <==> Less(Parse(b).value, Parse(a).value))
  {
    match Parse(a)
    case None => Err(InvalidSemVer(a))
    case Some(va) =>
      match Parse(b)
      case None => Err(InvalidSemVer(b))
      case Some(vb) => Ok(Less(vb, va))
  }

  /** A caret range `^M.m.p`, or `^M.m` with the patch left open. */
  datatype Caret = Caret(base: Version, patchGiven: bool)

  /** The text after `^` of a caret range: a full version or two numeric identifiers. */
  function ParseCaret(r: string): Option<Caret> {
    if |r| == 0 || r[0] != '^' then None
    else
      var body := r[1..];
      match Parse(body)
      case Some(v) => Some(Caret(v, true))
      case None =>
        var a := DigitsEnd(body, 0);
        if IsNumericIdentifier(body[..a]) && a < |body| && body[a] == '.'
           && DigitsEnd(body, a + 1) == |body| && IsNumericIdentifier(body[a + 1..])
        then Some(Caret(Version(NumeralValue(body[..a]), NumeralValue(body[a + 1..]), 0), false))
        else None
  }

  /** The exclusive upper end node-semver gives a caret range: the next version that
      changes the left-most non-zero component (for `^M.m`, the patch counts as open). */
  function Upper(c: Caret): Version {
    var v := c.base;
    if v.major > 0 then Version(v.major + 1, 0, 0)
    else if v.minor > 0 || !c.patchGiven then Version(0, v.minor + 1, 0)
    else Version(0, 0, v.patch + 1)
  }

  /** `semver.satisfies(version, range)` for a caret range: `>=base <Upper`; false when
      either string does not parse (satisfies catches the constructor's exception). */
  function Satisfies(version: string, range: string): bool {
    match (Parse(version), ParseCaret(range))
    case (Some(v), Some(c)) => !Less(v, c.base) && Less(v, Upper(c))
    case _ => false
  }

  /** The caret rule in words: a version satisfies `^M.m.p` when it is at least
      `M.m.p` and keeps every component up to the left-most non-zero one. */
  lemma CaretMeaning(v: Version, base: Version)
    ensures Satisfies(Render(v), "^" + Render(base)) <==>
      && !Less(v, base)
      && (base.major > 0 ==> v.major == base.major)
      && (base.major == 0 && base.minor > 0 ==> v.major == 0 && v.minor == base.minor)
      && (base.major == 0 && base.minor == 0 ==> v == base)
  {
    ParseRender(v);
    ParseRender(base);
    assert ("^" + Render(base))[1..] == Render(base);
  }

  /** Every version satisfies the caret range built on it. */
  lemma CaretContainsBase(v: Version)
    ensures Satisfies(Render(v), "^" + Render(v))
  {
    CaretMeaning(v, v);
  }
}
