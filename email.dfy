/**
 * The e-mail pattern `^[a-zA-Z0-9._%+-]+@[a-zA-Z0-9.-]+\.[a-zA-Z]{2,}$`, used by the
 * backend (after stripping and lower-casing) and by the frontend form (on the raw input).
 *
 * `SplitsAt` and `MatchesPattern` say what the pattern means: the string is
 * L + "@" + D + "." + T with a non-empty local part L, a non-empty domain D and a
 * top-level part T of at least two letters. `IsEmail` decides it without search.
 */
module EmailPattern {
  import opened Wrappers
  import opened Text

  predicate IsLetter(c: char) {
    IsUpperAscii(c) || IsLowerAscii(c)
  }

  predicate IsDigit(c: char) {
    '0' <= c <= '9'
  }

  /** `[a-zA-Z0-9._%+-]` */
  predicate IsLocalChar(c: char) {
    IsLetter(c) || IsDigit(c) || c == '.' || c == '_' || c == '%' || c == '+' || c == '-'
  }

  /** `[a-zA-Z0-9.-]` */
  predicate IsDomainChar(c: char) {
    IsLetter(c) || IsDigit(c) || c == '.' || c == '-'
  }

  predicate AllLocal(s: string) {
    forall k :: 0 <= k < |s| ==> IsLocalChar(s[k])
  }

  predicate AllDomain(s: string) {
    forall k :: 0 <= k < |s| ==> IsDomainChar(s[k])
  }

  predicate AllLetters(s: string) {
    forall k :: 0 <= k < |s| ==> IsLetter(s[k])
  }

  /** `s` is L + "@" + D + "." + T with the '@' at index `i` and the '.' at index `j`. */
  predicate SplitsAt(s: string, i: int, j: int) {
    && 0 < i && i + 1 < j && j + 2 < |s|
    && s[i] == '@' && s[j] == '.'
    && AllLocal(s[..i]) && AllDomain(s[i + 1..j]) && AllLetters(s[j + 1..])
  }

  /** The whole string matches the pattern (the regex engine may choose any split). */
  ghost predicate MatchesPattern(s: string) {
    exists i, j :: SplitsAt(s, i, j)
  }

  /** Index of the first occurrence of `c`. */
  function IndexOf(s: string, c: char): (r: Option<nat>)
    ensures r.Some? ==> r.value < |s| && s[r.value] == c && forall k :: 0 <= k < r.value ==> s[k] != c
    ensures r.None? ==> forall k :: 0 <= k < |s| ==> s[k] != c
  {
    if s == [] then None
    else if s[0] == c then Some(0)
    else match IndexOf(s[1..], c)
      case None => None
      case Some(k) => Some(k + 1)
  }

  /** Index of the last occurrence of `c`. */
  function LastIndexOf(s: string, c: char): (r: Option<nat>)
    ensures r.Some? ==> r.value < |s| && s[r.value] == c && forall k :: r.value < k < |s| ==> s[k] != c
    ensures r.None? ==> forall k :: 0 <= k < |s| ==> s[k] != c
  {
    if s == [] then None
    else if s[|s| - 1] == c then Some(|s| - 1)
    else LastIndexOf(s[..|s| - 1], c)
  }

  /** Decides the pattern: split at the first '@' and at the last '.'. */
  function IsEmail(s: string): bool {
    match IndexOf(s, '@')
    case None => false
    case Some(i) =>
      match LastIndexOf(s, '.')
      case None => false
      case Some(j) => SplitsAt(s, i, j)
  }

  /** The decision procedure agrees with the pattern on every string. */
  lemma IsEmailMatchesPattern(s: string)
    ensures IsEmail(s) <==> MatchesPattern(s)
  {
    if MatchesPattern(s) {
      var i, j :| SplitsAt(s, i, j);
      SplitIsUnique(s, i, j);
    }
  }

  /** Any split the pattern admits is the one at the first '@' and the last '.'. */
  lemma SplitIsUnique(s: string, i: int, j: int)
    requires SplitsAt(s, i, j)
    ensures IndexOf(s, '@') == Some(i) && LastIndexOf(s, '.') == Some(j)
  {
    assert forall k :: 0 <= k < i ==> s[k] == s[..i][k];
    assert forall k :: j < k < |s| ==> s[k] == s[j + 1..][k - j - 1];
  }

  /** An accepted address contains exactly one '@'. */
  lemma OneAt(s: string)
    requires IsEmail(s)
    ensures multiset(s)['@'] == 1
  {
    var i := IndexOf(s, '@').value;
    var j := LastIndexOf(s, '.').value;
    assert s == s[..i] + [s[i]] + s[i + 1..];
    assert '@' !in s[..i];
    assert s[i + 1..] == s[i + 1..j] + s[j..];
    assert s[j..] == [s[j]] + s[j + 1..];
    assert '@' !in s[i + 1..j];
    assert '@' !in s[j + 1..];
    assert '@' !in s[i + 1..];
  }

  /** A string that matches the pattern holds an '@', so it is not blank. */
  lemma MatchIsNotBlank(s: string)
    ensures MatchesPattern(s) ==> !IsBlank(s)
  {
    if MatchesPattern(s) {
      var i, j :| SplitsAt(s, i, j);
      assert !IsSpace(s[i]);
    }
  }

  /** An accepted address has no whitespace anywhere. */
  lemma NoSpaceInEmail(s: string)
    requires IsEmail(s)
    ensures NoSpace(s) && NoSurroundingSpace(s)
  {
    var i := IndexOf(s, '@').value;
    var j := LastIndexOf(s, '.').value;
    forall k | 0 <= k < |s| ensures !IsSpace(s[k]) {
      if k < i {
        assert s[k] == s[..i][k];
      } else if i < k < j {
        assert s[k] == s[i + 1..j][k - i - 1];
      } else if j < k {
        assert s[k] == s[j + 1..][k - j - 1];
      }
    }
  }

  /** Every character class of the pattern is closed under lower-casing. */
  lemma LowerKeepsEmail(s: string)
    requires IsEmail(s)
    ensures IsEmail(Lower(s))
  {
    var i := IndexOf(s, '@').value;
    var j := LastIndexOf(s, '.').value;
    var t := Lower(s);
    assert t[..i] == Lower(s[..i]);
    assert t[i + 1..j] == Lower(s[i + 1..j]);
    assert t[j + 1..] == Lower(s[j + 1..]);
    assert SplitsAt(t, i, j);
    SplitIsUnique(t, i, j);
  }
}
