/**
 * GLib's ASCII-only case handling: `g_ascii_tolower` and
 * `g_ascii_strcasecmp`, which decide the provider-type dispatch.
 */
module Ascii {

  /** A C string: a character sequence that holds no NUL, since NUL ends it. */
  type CString = s: string | '\0' !in s

  predicate IsUpper(c: char) {
    'A' <= c <= 'Z'
  }

  /** `g_ascii_tolower`: maps `A`..`Z` to `a`..`z` and leaves every other character alone. */
  function ToLower(c: char): (r: char)
    ensures !IsUpper(r)
    ensures IsUpper(c) ==> r as int == c as int + 32
    ensures !IsUpper(c) ==> r == c
  {
    if IsUpper(c) then (c as int + 32) as char else c
  }

  /** ASCII case folding of a whole string, character by character. */
  function FoldCase(s: string): (r: string)
    ensures |r| == |s|
    ensures forall i :: 0 <= i < |s| ==> r[i] == ToLower(s[i])
  {
    if s == [] then [] else [ToLower(s[0])] + FoldCase(s[1..])
  }

  /** The code of the character a C pointer currently points at: 0 at the terminating NUL. */
  function CurrentCode(s: CString): (r: int)
    ensures r == 0 <==> s == []
  {
    if s == [] then 0 else s[0] as int
  }

  /**
   * `g_ascii_strcasecmp`: walk both strings while neither has ended; at the
   * first pair of characters that differ after folding, answer their
   * difference; when one string ends, answer the difference of the two
   * current (unfolded) characters, one of them being the NUL.
   * The result is zero exactly when the two strings are equal after folding.
   */
  function CaseCmp(a: CString, b: CString): (r: int)
    ensures r == 0 <==> FoldCase(a) == FoldCase(b)
    decreases |a|
  {
    if a == [] || b == [] then
      CurrentCode(a) - CurrentCode(b)
    else if ToLower(a[0]) != ToLower(b[0]) then
      ToLower(a[0]) as int - ToLower(b[0]) as int
    else
      assert FoldCase(a) == [ToLower(a[0])] + FoldCase(a[1..]);
      assert FoldCase(b) == [ToLower(b[0])] + FoldCase(b[1..]);
      CaseCmp(a[1..], b[1..])
  }

  /** A string without upper-case letters is its own folding. */
  lemma FoldCaseOfLower(s: string)
    requires forall i :: 0 <= i < |s| ==> !IsUpper(s[i])
    ensures FoldCase(s) == s
  {
    assert forall i :: 0 <= i < |s| ==> FoldCase(s)[i] == s[i];
  }
}
