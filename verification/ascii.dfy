/** Python's `str.isupper`, `str.lower` and `str.upper` restricted to ASCII,
    where each is a per-character map that preserves length. Every character
    outside 'A'..'Z' and 'a'..'z' is uncased: neither map changes it. */
module Ascii {

  predicate IsUpper(c: char)
  {
    'A' <= c <= 'Z'
  }

  predicate IsLower(c: char)
  {
    'a' <= c <= 'z'
  }

  function Lower(c: char): (r: char)
    ensures !IsUpper(r)
    ensures IsUpper(c) ==> IsLower(r)
    ensures !IsUpper(c) ==> r == c
  {
    if IsUpper(c) then (c as int + 32) as char else c
  }

  function Upper(c: char): (r: char)
    ensures !IsLower(r)
    ensures IsLower(c) ==> IsUpper(r)
    ensures !IsLower(c) ==> r == c
  {
    if IsLower(c) then (c as int - 32) as char else c
  }

  /** `s.lower()`: the one string without upper-case characters that agrees
      with `s` up to case. */
  function LowerStr(s: string): (r: string)
    ensures AllLower(r)
    ensures SameIgnoringCase(r, s)
  {
    seq(|s|, i requires 0 <= i < |s| => Lower(s[i]))
  }

  /** A string with no upper-case character. */
  predicate AllLower(s: string)
  {
    forall i :: 0 <= i < |s| ==> !IsUpper(s[i])
  }

  /** The two strings differ at most in the case of their letters. */
  predicate SameIgnoringCase(u: string, v: string)
  {
    |u| == |v| && forall i :: 0 <= i < |u| ==> Lower(u[i]) == Lower(v[i])
  }

  /** `s.lower()` has no upper-case character and is unchanged by a second `lower()`. */
  lemma LowerStrIsLower(s: string)
    ensures AllLower(LowerStr(s))
    ensures LowerStr(LowerStr(s)) == LowerStr(s)
  {
  }

  /** Two strings have the same lower-case form exactly when they differ only in case. */
  lemma LowerStrEqualIff(u: string, v: string)
    ensures LowerStr(u) == LowerStr(v) <==> SameIgnoringCase(u, v)
  {
    if SameIgnoringCase(u, v) {
      assert forall i :: 0 <= i < |u| ==> LowerStr(u)[i] == LowerStr(v)[i];
    }
  }

  /** A string without upper-case characters is its own lower-case form. */
  lemma LowerStrOfLower(s: string)
    requires AllLower(s)
    ensures LowerStr(s) == s
  {
  }
}
