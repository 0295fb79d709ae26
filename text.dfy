/** Option, used for "no match" and for fields that JavaScript leaves undefined. */
module Wrappers {
  datatype Option<+T> = None | Some(value: T)
}

/**
 * The character classes of JavaScript regular expressions and `String.prototype.trim`
 * that the excerpt, preview and form-validation code relies on.
 */
module Text {

  /** ECMAScript LineTerminator: what `.` refuses to match and what `^`/`$` see under the `m` flag. */
  predicate IsLineTerminator(c: char) {
    c == '\n' || c == '\r' || c == '\U{2028}' || c == '\U{2029}'
  }

  /** ECMAScript WhiteSpace plus LineTerminator: the class `\s` and the characters `trim` removes. */
  predicate IsSpace(c: char) {
    ('\t' <= c <= '\r') || c == ' ' || c == '\U{A0}' || c == '\U{1680}'
    || ('\U{2000}' <= c <= '\U{200A}') || c == '\U{2028}' || c == '\U{2029}'
    || c == '\U{202F}' || c == '\U{205F}' || c == '\U{3000}' || c == '\U{FEFF}'
  }

  /** No character of `s` ends a line. */
  predicate LineFree(s: string) {
    forall i :: 0 <= i < |s| ==> !IsLineTerminator(s[i])
  }

  /** A line-free text has no newline in particular. */
  lemma LineFreeNoNewline(s: string)
    requires LineFree(s)
    ensures '\n' !in s
  {
    assert forall c :: c in s ==> exists i :: 0 <= i < |s| && s[i] == c;
  }

  /** Two stretches without line terminators join into one. */
  lemma LineFreeConcat(a: string, b: string)
    requires LineFree(a) && LineFree(b)
    ensures LineFree(a + b)
  {
    assert forall i :: |a| <= i < |a + b| ==> (a + b)[i] == b[i - |a|];
  }

  /** Every character of `s` is whitespace (so `s.trim()` is empty, a falsy string). */
  predicate AllSpace(s: string) {
    forall c :: c in s ==> IsSpace(c)
  }

  /** Length of the longest all-whitespace prefix of `s`. */
  function LeadingSpaces(s: string): (n: nat)
    ensures n <= |s|
    ensures forall k :: 0 <= k < n ==> IsSpace(s[k])
    ensures n < |s| ==> !IsSpace(s[n])
  {
    if s == [] || !IsSpace(s[0]) then 0 else 1 + LeadingSpaces(s[1..])
  }

  /** Length of the longest all-whitespace suffix of `s`. */
  function TrailingSpaces(s: string): (n: nat)
    ensures n <= |s|
    ensures forall k :: |s| - n <= k < |s| ==> IsSpace(s[k])
    ensures n < |s| ==> !IsSpace(s[|s| - 1 - n])
  {
    if s == [] || !IsSpace(s[|s| - 1]) then 0 else 1 + TrailingSpaces(s[..|s| - 1])
  }

  /**
   * `s.trim()`: `s` without its leading and trailing whitespace. The result is the
   * slice of `s` that starts after the leading whitespace; everything cut off at the
   * end is whitespace, and the result neither starts nor ends with whitespace.
   */
  function Trim(s: string): (r: string)
    ensures LeadingSpaces(s) + |r| <= |s|
    ensures r == s[LeadingSpaces(s)..LeadingSpaces(s) + |r|]
    ensures forall k :: LeadingSpaces(s) + |r| <= k < |s| ==> IsSpace(s[k])
    ensures r != [] ==> !IsSpace(r[0]) && !IsSpace(r[|r| - 1])
    ensures r == [] <==> AllSpace(s)
  {
    var front := s[LeadingSpaces(s)..];
    assert AllSpace(s) ==> LeadingSpaces(s) == |s| by {
      if LeadingSpaces(s) < |s| { assert s[LeadingSpaces(s)] in s; }
    }
    front[..|front| - TrailingSpaces(front)]
  }

  /** Trimming text that already has no whitespace at either end changes nothing. */
  lemma TrimKeepsTrimmed(s: string)
    requires s != [] ==> !IsSpace(s[0]) && !IsSpace(s[|s| - 1])
    ensures Trim(s) == s
  {
  }

  /** Nothing that was absent from `s` appears in `s.trim()`. */
  lemma TrimIntroducesNothing(s: string, c: char)
    requires c !in s
    ensures c !in Trim(s)
  {
  }
}
