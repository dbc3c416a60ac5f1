/** String primitives the script relies on: the whitespace set shared by
    `String.prototype.trim` and the regular-expression class `\s`, trimming,
    and `String.prototype.includes`. */
module Text {

  /** The ECMAScript WhiteSpace and LineTerminator code points: the set that
      both `trim` strips and `\s` matches. */
  predicate IsWhitespace(c: char) {
    || c == '\t' || c == '\n' || c == '\U{000B}' || c == '\U{000C}' || c == '\r'
    || c == ' ' || c == '\U{00A0}' || c == '\U{1680}'
    || ('\U{2000}' <= c <= '\U{200A}')
    || c == '\U{2028}' || c == '\U{2029}' || c == '\U{202F}' || c == '\U{205F}'
    || c == '\U{3000}' || c == '\U{FEFF}'
  }

  predicate AllWhitespace(s: string) {
    forall k :: 0 <= k < |s| ==> IsWhitespace(s[k])
  }

  /** The number of whitespace characters `s` starts with. */
  function LeadingWhitespace(s: string): (n: nat)
    ensures n <= |s|
    ensures forall k :: 0 <= k < n ==> IsWhitespace(s[k])
    ensures n == |s| || !IsWhitespace(s[n])
  {
    if s != [] && IsWhitespace(s[0]) then
      var tail := s[1..];
      var m := LeadingWhitespace(tail);
      assert forall k :: 1 <= k <= m ==> s[k] == tail[k - 1];
      assert m == |tail| || s[m + 1] == tail[m];
      1 + m
    else 0
  }

  /** The number of whitespace characters `s` ends with. */
  function TrailingWhitespace(s: string): (n: nat)
    ensures n <= |s|
    ensures forall k :: |s| - n <= k < |s| ==> IsWhitespace(s[k])
    ensures n == |s| || !IsWhitespace(s[|s| - n - 1])
  {
    if s != [] && IsWhitespace(s[|s| - 1]) then
      var init := s[..|s| - 1];
      var m := TrailingWhitespace(init);
      assert forall k :: 0 <= k < |init| ==> s[k] == init[k];
      1 + m
    else 0
  }

  /** `String.prototype.trim`: the leading and then the trailing whitespace
      removed. */
  function Trim(s: string): (r: string)
  {
    var t := s[LeadingWhitespace(s)..];
    t[..|t| - TrailingWhitespace(t)]
  }

  /** `r` is the block of `s` starting at `a`, with only whitespace
      before and after it. */
  predicate Surrounds(s: string, a: int, r: string) {
    && 0 <= a <= |s| - |r|
    && r == s[a..a + |r|]
    && (forall k :: 0 <= k < a ==> IsWhitespace(s[k]))
    && (forall k :: a + |r| <= k < |s| ==> IsWhitespace(s[k]))
  }

  /** What `trim` keeps: a block of `s` with only whitespace around it, that
      neither starts nor ends with whitespace. */
  lemma TrimShape(s: string)
    ensures exists a :: Surrounds(s, a, Trim(s))
    ensures Trim(s) == [] || (!IsWhitespace(Trim(s)[0]) && !IsWhitespace(Trim(s)[|Trim(s)| - 1]))
  {
    var a := LeadingWhitespace(s);
    var t := s[a..];
    var b := TrailingWhitespace(t);
    var r := Trim(s);
    assert r == s[a..a + |r|];
    assert forall k :: a + |r| <= k < |s| ==> s[k] == t[k - a];
    assert Surrounds(s, a, r);
    if r != [] {
      assert r[0] == s[a];
      assert r[|r| - 1] == t[|t| - b - 1];
    }
  }

  /** `s.trim() === ''` holds exactly when every character of `s` is whitespace. */
  lemma TrimEmptyIff(s: string)
    ensures Trim(s) == [] <==> AllWhitespace(s)
  {
  }

  /** `s.includes(needle)`: `needle` occurs in `s` as a contiguous block. */
  predicate Contains(s: string, needle: string) {
    exists i | 0 <= i <= |s| :: needle <= s[i..]
  }
}
