/**
 * String helpers shared by the backend (Python `str.strip`, `str.lower`) and the
 * frontend (JavaScript `trim`, `toLowerCase`, `toUpperCase`, `includes`).
 * Whitespace and letter case are modelled over ASCII only.
 */
module Text {

  /** ASCII whitespace: space, tab, line feed, vertical tab, form feed, carriage return. */
  predicate IsSpace(c: char) {
    c == ' ' || 9 <= c as int <= 13
  }

  /** True when every character is whitespace (so the empty string is blank). */
  predicate IsBlank(s: string) {
    forall k :: 0 <= k < |s| ==> IsSpace(s[k])
  }

  /** Neither the first nor the last character is whitespace. */
  predicate NoSurroundingSpace(s: string) {
    s == [] || (!IsSpace(s[0]) && !IsSpace(s[|s| - 1]))
  }

  /** Drops leading whitespace: the result is a suffix and only whitespace was dropped. */
  function TrimLeft(s: string): (r: string)
    ensures |r| <= |s| && r == s[|s| - |r|..]
    ensures r == [] || !IsSpace(r[0])
    ensures forall k :: 0 <= k < |s| - |r| ==> IsSpace(s[k])
  {
    if s != [] && IsSpace(s[0]) then
      var t := TrimLeft(s[1..]);
      assert s[1..][|s| - 1 - |t|..] == s[|s| - |t|..];
      assert forall k :: 0 < k < |s| ==> s[1..][k - 1] == s[k];
      t
    else s
  }

  /** Drops trailing whitespace: the result is a prefix and only whitespace was dropped. */
  function TrimRight(s: string): (r: string)
    ensures |r| <= |s| && r == s[..|r|]
    ensures r == [] || !IsSpace(r[|r| - 1])
    ensures forall k :: |r| <= k < |s| ==> IsSpace(s[k])
  {
    if s != [] && IsSpace(s[|s| - 1]) then
      var t := TrimRight(s[..|s| - 1]);
      assert s[..|s| - 1][..|t|] == s[..|t|];
      assert forall k :: 0 <= k < |s| - 1 ==> s[..|s| - 1][k] == s[k];
      t
    else s
  }

  /** `r` is `s` with a blank prefix of length `i` and a blank suffix cut off. */
  predicate CutsTo(s: string, r: string, i: int) {
    0 <= i && i + |r| <= |s| && r == s[i..i + |r|] && IsBlank(s[..i]) && IsBlank(s[i + |r|..])
  }

  /** Python `str.strip()` / JavaScript `String.prototype.trim()` over ASCII whitespace. */
  function Strip(s: string): (r: string)
    ensures NoSurroundingSpace(r)
    ensures r == [] <==> IsBlank(s)
    ensures |r| <= |s|
    ensures exists i :: CutsTo(s, r, i)
  {
    var l := TrimLeft(s);
    var r := TrimRight(l);
    TrimmedIsSlice(s, l, r);
    assert r == [] ==> IsBlank(s) by {
      if r == [] {
        assert l == [];
      }
    }
    r
  }

  /** The trimmed string sits in the input between a blank prefix and a blank suffix. */
  lemma TrimmedIsSlice(s: string, l: string, r: string)
    requires l == TrimLeft(s) && r == TrimRight(l)
    ensures exists i :: CutsTo(s, r, i)
  {
    var i := |s| - |l|;
    TrimLeftDropsBlank(s);
    TrimRightDropsBlank(l);
    SliceOfSuffix(s, i, l, r);
    assert CutsTo(s, r, i);
  }

  /** A prefix of a suffix is a middle slice, and what follows it is the rest of the suffix. */
  lemma SliceOfSuffix(s: string, i: int, l: string, r: string)
    requires 0 <= i <= |s| && l == s[i..] && |r| <= |l| && r == l[..|r|]
    ensures r == s[i..i + |r|] && s[i + |r|..] == l[|r|..]
  {
  }

  /** What `TrimLeft` drops is blank. */
  lemma TrimLeftDropsBlank(s: string)
    ensures IsBlank(s[..|s| - |TrimLeft(s)|])
  {
    var pre := s[..|s| - |TrimLeft(s)|];
    forall k | 0 <= k < |pre| ensures IsSpace(pre[k]) {
      assert pre[k] == s[k];
    }
  }

  /** What `TrimRight` drops is blank. */
  lemma TrimRightDropsBlank(s: string)
    ensures IsBlank(s[|TrimRight(s)|..])
  {
    var post := s[|TrimRight(s)|..];
    forall k | 0 <= k < |post| ensures IsSpace(post[k]) {
      assert post[k] == s[|TrimRight(s)| + k];
    }
  }

  /** Stripping is idempotent: a stripped string strips to itself. */
  lemma StripIdempotent(s: string)
    ensures Strip(Strip(s)) == Strip(s)
  {
    StripKeeps(Strip(s));
  }

  /** A string without surrounding whitespace is left unchanged by stripping. */
  lemma StripKeeps(s: string)
    requires NoSurroundingSpace(s)
    ensures Strip(s) == s
  {
  }

  /** A string in which no character is whitespace. */
  predicate NoSpace(s: string) {
    forall k :: 0 <= k < |s| ==> !IsSpace(s[k])
  }

  predicate IsUpperAscii(c: char) {
    'A' <= c <= 'Z'
  }

  predicate IsLowerAscii(c: char) {
    'a' <= c <= 'z'
  }

  function LowerChar(c: char): (r: char)
    ensures !IsUpperAscii(r)
    ensures IsUpperAscii(c) <==> r != c
  {
    if IsUpperAscii(c) then (c as int + 32) as char else c
  }

  function UpperChar(c: char): (r: char)
    ensures !IsLowerAscii(r)
    ensures IsLowerAscii(c) <==> r != c
  {
    if IsLowerAscii(c) then (c as int - 32) as char else c
  }

  /** No ASCII upper-case letter occurs. */
  predicate NoUpper(s: string) {
    forall k :: 0 <= k < |s| ==> !IsUpperAscii(s[k])
  }

  /** No ASCII lower-case letter occurs. */
  predicate NoLower(s: string) {
    forall k :: 0 <= k < |s| ==> !IsLowerAscii(s[k])
  }

  /** `str.lower()` / `toLowerCase()` over ASCII: same length, no upper-case letter left. */
  function Lower(s: string): (r: string)
    ensures |r| == |s| && NoUpper(r)
    ensures forall k :: 0 <= k < |s| ==> r[k] == LowerChar(s[k])
  {
    seq(|s|, k requires 0 <= k < |s| => LowerChar(s[k]))
  }

  /** `toUpperCase()` over ASCII: same length, no lower-case letter left. */
  function Upper(s: string): (r: string)
    ensures |r| == |s| && NoLower(r)
    ensures forall k :: 0 <= k < |s| ==> r[k] == UpperChar(s[k])
  {
    seq(|s|, k requires 0 <= k < |s| => UpperChar(s[k]))
  }

  /** Lower-casing changes nothing in a string without upper-case letters. */
  lemma LowerKeeps(s: string)
    requires NoUpper(s)
    ensures Lower(s) == s
  {
  }

  /** `needle` occurs in `hay` starting at index `k`. */
  predicate OccursAt(needle: string, hay: string, k: int) {
    0 <= k && k + |needle| <= |hay| && hay[k..k + |needle|] == needle
  }

  /** The reference meaning of "is a substring of". */
  ghost predicate IsSubstring(needle: string, hay: string) {
    exists k :: OccursAt(needle, hay, k)
  }

  /** JavaScript `hay.includes(needle)`, by scanning `hay` from the left. */
  function Contains(hay: string, needle: string): bool
    decreases |hay|
  {
    needle <= hay || (hay != [] && Contains(hay[1..], needle))
  }

  /** The scan answers exactly the substring question. */
  lemma {:induction false} ContainsIsSubstring(hay: string, needle: string)
    ensures Contains(hay, needle) <==> IsSubstring(needle, hay)
    decreases |hay|
  {
    if needle <= hay {
      assert OccursAt(needle, hay, 0);
    } else if hay == [] {
      assert !IsSubstring(needle, hay);
    } else {
      ContainsIsSubstring(hay[1..], needle);
      if Contains(hay[1..], needle) {
        var k :| OccursAt(needle, hay[1..], k);
        OccursShift(needle, hay, k);
      }
      if IsSubstring(needle, hay) {
        var k :| OccursAt(needle, hay, k);
        assert k != 0;
        OccursShift(needle, hay, k - 1);
      }
    }
  }

  /** An occurrence in the tail is an occurrence one position further in the whole. */
  lemma OccursShift(needle: string, hay: string, k: int)
    requires hay != [] && 0 <= k
    ensures OccursAt(needle, hay[1..], k) <==> OccursAt(needle, hay, k + 1)
  {
    if k + |needle| <= |hay[1..]| {
      assert hay[1..][k..k + |needle|] == hay[k + 1..k + 1 + |needle|];
    }
  }

  /** The empty string occurs in every string. */
  lemma ContainsEmpty(hay: string)
    ensures Contains(hay, "")
  {
  }
}
