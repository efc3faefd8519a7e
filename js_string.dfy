/** The two JavaScript string primitives the device routes rely on:
    `String.prototype.trim` and `String.prototype.toUpperCase` (the latter
    only on ASCII text, the only text it is applied to in a way that matters). */
module JsString {

  /** ECMAScript WhiteSpace and LineTerminator code points: what `trim` removes. */
  const Whitespace: set<char> := {
    '\t', '\n', '\U{000B}', '\U{000C}', '\r', ' ', '\U{00A0}', '\U{1680}',
    '\U{2000}', '\U{2001}', '\U{2002}', '\U{2003}', '\U{2004}', '\U{2005}',
    '\U{2006}', '\U{2007}', '\U{2008}', '\U{2009}', '\U{200A}',
    '\U{2028}', '\U{2029}', '\U{202F}', '\U{205F}', '\U{3000}', '\U{FEFF}'
  }

  predicate IsWhitespace(c: char)
  {
    c in Whitespace
  }

  /** The first position at or after `i` that does not hold whitespace
      (`|s|` when there is none): where the trimmed text starts. */
  function SkipLeading(s: string, i: nat): (n: nat)
    requires i <= |s|
    ensures i <= n <= |s|
    ensures forall k :: i <= k < n ==> IsWhitespace(s[k])
    ensures n == |s| || !IsWhitespace(s[n])
    decreases |s| - i
  {
    if i < |s| && IsWhitespace(s[i]) then SkipLeading(s, i + 1) else i
  }

  /** The end of `s[lo..j]` once its trailing whitespace is dropped: where
      the trimmed text ends. */
  function SkipTrailing(s: string, lo: nat, j: nat): (n: nat)
    requires lo <= j <= |s|
    ensures lo <= n <= j
    ensures forall k :: n <= k < j ==> IsWhitespace(s[k])
    ensures n == lo || !IsWhitespace(s[n - 1])
    decreases j
  {
    if lo < j && IsWhitespace(s[j - 1]) then SkipTrailing(s, lo, j - 1) else j
  }

  /** How many whitespace characters open `s`. */
  function LeadingWhitespace(s: string): (n: nat)
    ensures n <= |s|
    ensures forall k :: 0 <= k < n ==> IsWhitespace(s[k])
    ensures n == |s| || !IsWhitespace(s[n])
  {
    SkipLeading(s, 0)
  }

  /** `s.trim()`: the infix of `s` left after removing whitespace at both
      ends. Every character that is not whitespace is kept, and the result
      is empty exactly when `s` is all whitespace. */
  function Trim(s: string): (r: string)
    ensures |r| <= |s|
    ensures r == [] || (!IsWhitespace(r[0]) && !IsWhitespace(r[|r| - 1]))
    ensures var i := LeadingWhitespace(s);
            i + |r| <= |s| && r == s[i..i + |r|] &&
            (forall k :: i + |r| <= k < |s| ==> IsWhitespace(s[k]))
    ensures forall k :: 0 <= k < |s| && !IsWhitespace(s[k]) ==> s[k] in r
    ensures r == [] <==> forall k :: 0 <= k < |s| ==> IsWhitespace(s[k])
  {
    var i := LeadingWhitespace(s);
    var j := SkipTrailing(s, i, |s|);
    assert forall k :: 0 <= k < |s| && !IsWhitespace(s[k]) ==> i <= k < j && s[k] == s[i..j][k - i];
    s[i..j]
  }

  /** Text that neither starts nor ends with whitespace is left as it is. */
  lemma TrimKeepsTrimmed(s: string)
    requires s == [] || (!IsWhitespace(s[0]) && !IsWhitespace(s[|s| - 1]))
    ensures Trim(s) == s
  {
  }

  predicate IsAsciiLower(c: char)
  {
    'a' <= c <= 'z'
  }

  function UpperChar(c: char): char
  {
    if IsAsciiLower(c) then (c as int - 32) as char else c
  }

  /** `s.toUpperCase()` on ASCII text: lower-case letters become upper-case,
      every other character stays where it was. */
  function AsciiUpperCase(s: string): (r: string)
    ensures |r| == |s|
    ensures forall k :: 0 <= k < |s| ==> !IsAsciiLower(r[k])
    ensures forall k :: 0 <= k < |s| && !IsAsciiLower(s[k]) ==> r[k] == s[k]
    ensures forall k :: 0 <= k < |s| && IsAsciiLower(s[k]) ==>
              'A' <= r[k] <= 'Z' && r[k] as int - 'A' as int == s[k] as int - 'a' as int
  {
    seq(|s|, k requires 0 <= k < |s| => UpperChar(s[k]))
  }

  /** Upper-casing twice is upper-casing once: a stored upper-cased value is
      its own canonical form. */
  lemma UpperCaseIdempotent(s: string)
    ensures AsciiUpperCase(AsciiUpperCase(s)) == AsciiUpperCase(s)
  {
  }
}
