/** ASCII character helpers: upper-casing and case-insensitive prefix tests. */
module Ascii {

  function UpperChar(c: char): (u: char)
    ensures 'a' <= c <= 'z' ==> u as int == c as int - 32
    ensures !('a' <= c <= 'z') ==> u == c
  {
    if 'a' <= c <= 'z' then (c as int - 32) as char else c
  }

  function LowerChar(c: char): (l: char)
    ensures 'A' <= c <= 'Z' ==> l as int == c as int + 32
    ensures !('A' <= c <= 'Z') ==> l == c
  {
    if 'A' <= c <= 'Z' then (c as int + 32) as char else c
  }

  /** `String.prototype.toUpperCase`, restricted to ASCII letters. */
  function Upper(s: string): (u: string)
    ensures |u| == |s|
    ensures forall i :: 0 <= i < |s| ==> u[i] == UpperChar(s[i])
  {
    if s == [] then [] else [UpperChar(s[0])] + Upper(s[1..])
  }

  /** ASCII lower-casing of a string. */
  function Lower(s: string): (l: string)
    ensures |l| == |s|
    ensures forall i :: 0 <= i < |s| ==> l[i] == LowerChar(s[i])
  {
    if s == [] then [] else [LowerChar(s[0])] + Lower(s[1..])
  }

  /** Upper-casing forgets the case the string was written in. */
  lemma UpperOfLower(s: string)
    ensures Upper(Lower(s)) == Upper(s)
  {
    assert forall i :: 0 <= i < |s| ==> UpperChar(LowerChar(s[i])) == UpperChar(s[i]);
  }

  predicate HasNoLower(s: string) {
    forall i :: 0 <= i < |s| ==> !('a' <= s[i] <= 'z')
  }

  /** Upper-casing a string that has no lower-case letter changes nothing. */
  lemma UpperOfNoLower(s: string)
    requires HasNoLower(s)
    ensures Upper(s) == s
  {
  }

  /** Two characters are equal under ASCII case folding. */
  predicate SameFolded(a: char, b: char) {
    LowerChar(a) == LowerChar(b)
  }

  /** `s` starts with `p`, comparing ASCII letters without regard to case
      (a regular expression anchored with `^` under the `i` flag). */
  predicate StartsWithFolded(s: string, p: string) {
    |p| <= |s| && forall i :: 0 <= i < |p| ==> SameFolded(s[i], p[i])
  }
}
