/**
 * The character classes that the regular expressions of the scanner use,
 * with JavaScript's meaning (regular expressions without the `u` flag).
 */
module Chars {

  /** `[a-zA-Z]` */
  predicate IsLetter(c: char) {
    'a' <= c <= 'z' || 'A' <= c <= 'Z'
  }

  /** `\d`: the ASCII digits only */
  predicate IsDigit(c: char) {
    '0' <= c <= '9'
  }

  /** `[a-zA-Z]|\d` */
  predicate IsAlnum(c: char) {
    IsLetter(c) || IsDigit(c)
  }

  /** `\w` */
  predicate IsWordChar(c: char) {
    IsAlnum(c) || c == '_'
  }

  /** `\s`: JavaScript's white space and line terminator code points */
  predicate IsSpace(c: char) {
    ('\t' <= c <= '\r') || c == ' ' || ('\U{00A0}' <= c && IsWideSpace(c))
  }

  /** The white space of `\s` outside ASCII. */
  predicate IsWideSpace(c: char) {
    c == '\U{00A0}' || c == '\U{1680}' || ('\U{2000}' <= c <= '\U{200A}')
    || c == '\U{2028}' || c == '\U{2029}' || c == '\U{202F}' || c == '\U{205F}'
    || c == '\U{3000}' || c == '\U{FEFF}'
  }

  /** The code points that `.` does not match. */
  predicate IsLineTerminator(c: char) {
    c == '\n' || c == '\r' || c == '\U{2028}' || c == '\U{2029}'
  }

  /** `[\w\s,]`: what a destructuring brace list may contain. */
  predicate InBraceList(c: char) {
    IsWordChar(c) || IsSpace(c) || c == ','
  }

  /** `(\:|\.|\,|\s|\[|\{|\;|\()`: the character that must follow a highlighted identifier. */
  predicate IsBoundary(c: char) {
    c == ':' || c == '.' || c == ',' || IsSpace(c) || c == '[' || c == '{' || c == ';' || c == '('
  }

  /** A non-empty run of letters and digits: a string that is its own literal as a regex. */
  predicate IsAlnumWord(w: string) {
    |w| > 0 && forall k :: 0 <= k < |w| ==> IsAlnum(w[k])
  }

  /** The shape `[a-zA-Z]([a-zA-Z]|\d)*`. */
  predicate IsIdentifier(w: string) {
    IsAlnumWord(w) && IsLetter(w[0])
  }

  /** `w` occurs in `s` at offset `p`. */
  predicate OccursAt(s: string, p: nat, w: string) {
    p + |w| <= |s| && s[p..p + |w|] == w
  }

  /** Every character of `s[i..j]` is white space. */
  predicate AllSpace(s: string, i: nat, j: nat)
    requires i <= j <= |s|
  {
    forall k :: i <= k < j ==> IsSpace(s[k])
  }

  /** No character of `s[i..j]` is a line terminator. */
  predicate NoLineTerminator(s: string, i: nat, j: nat)
    requires i <= j <= |s|
  {
    forall k :: i <= k < j ==> !IsLineTerminator(s[k])
  }

  /** The greedy `\s*` from `i`: the end of the longest run of white space there. */
  function SpaceRun(s: string, i: nat): (j: nat)
    requires i <= |s|
    ensures i <= j <= |s| && AllSpace(s, i, j)
    ensures j == |s| || !IsSpace(s[j])
    decreases |s| - i
  {
    if i < |s| && IsSpace(s[i]) then SpaceRun(s, i + 1) else i
  }

  /** A maximal run of white space is the one `SpaceRun` finds. */
  lemma SpaceRunIs(s: string, i: nat, j: nat)
    requires i <= j <= |s| && AllSpace(s, i, j)
    requires j == |s| || !IsSpace(s[j])
    ensures SpaceRun(s, i) == j
  {
  }
}
