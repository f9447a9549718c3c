/**
 * String.ToLowerInvariant, restricted to the ASCII letters: 'A'..'Z' become
 * 'a'..'z' and every other character is kept.
 */
module InvariantCulture {

  predicate IsAsciiUpper(c: char) {
    'A' <= c <= 'Z'
  }

  function ToLowerChar(c: char): (l: char)
    ensures !IsAsciiUpper(l)
    ensures l == c || (IsAsciiUpper(c) && l as int - c as int == 'a' as int - 'A' as int)
  {
    if IsAsciiUpper(c) then (c as int - 'A' as int + 'a' as int) as char else c
  }

  /** True when s holds no upper-case ASCII letter. */
  predicate IsLowerCase(s: string) {
    forall i :: 0 <= i < |s| ==> !IsAsciiUpper(s[i])
  }

  function ToLowerInvariant(s: string): (r: string)
    ensures |r| == |s| && IsLowerCase(r)
  {
    if s == [] then [] else [ToLowerChar(s[0])] + ToLowerInvariant(s[1..])
  }

  /** Each character is lower-cased on its own. */
  lemma {:induction false} ToLowerAt(s: string, i: int)
    requires 0 <= i < |s|
    ensures ToLowerInvariant(s)[i] == ToLowerChar(s[i])
  {
    if i > 0 {
      ToLowerAt(s[1..], i - 1);
    }
  }

  /** A string without upper-case ASCII letters is left as it is. */
  lemma {:induction false} LowerCaseIsFixed(s: string)
    requires IsLowerCase(s)
    ensures ToLowerInvariant(s) == s
  {
    if s != [] {
      LowerCaseIsFixed(s[1..]);
    }
  }

  /** Lower-casing twice is lower-casing once. */
  lemma ToLowerIdempotent(s: string)
    ensures ToLowerInvariant(ToLowerInvariant(s)) == ToLowerInvariant(s)
  {
    LowerCaseIsFixed(ToLowerInvariant(s));
  }

  /**
   * Lower-casing forgets case: two strings that agree up to the case of
   * ASCII letters lower-case to the same string.
   */
  lemma ToLowerForgetsCase(a: string, b: string)
    requires |a| == |b|
    requires forall i :: 0 <= i < |a| ==> ToLowerChar(a[i]) == ToLowerChar(b[i])
    ensures ToLowerInvariant(a) == ToLowerInvariant(b)
  {
    forall i | 0 <= i < |a|
      ensures ToLowerInvariant(a)[i] == ToLowerInvariant(b)[i]
    {
      ToLowerAt(a, i);
      ToLowerAt(b, i);
    }
  }

  /** Sample conversions: only the letters change. */
  lemma ToLowerSamples()
    ensures ToLowerInvariant(".PNG") == ".png"
    ensures ToLowerInvariant(".exe") == ".exe"
  {
  }
}
