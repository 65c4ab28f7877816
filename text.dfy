/** String helpers shared by the bot's text handling: JavaScript's notion of
    whitespace (the `\s` regular-expression class, which is also the set that
    `String.prototype.trim` strips), `trim` itself and `startsWith`.
    A JavaScript string is a sequence of UTF-16 code units. The strings here
    are texts with no character beyond U+FFFF, where one `char` is exactly
    one code unit, so lengths and indices agree with JavaScript's. */
module Text {

  /** JavaScript WhiteSpace and LineTerminator code points. */
  predicate IsSpace(c: char)
  {
    || c == '\t' || c == '\n' || c == '\U{B}' || c == '\U{C}' || c == '\r'
    || c == ' ' || c == '\U{A0}' || c == '\U{1680}'
    || ('\U{2000}' <= c <= '\U{200A}')
    || c == '\U{2028}' || c == '\U{2029}' || c == '\U{202F}' || c == '\U{205F}'
    || c == '\U{3000}' || c == '\U{FEFF}'
  }

  /** `s.startsWith(prefix)` */
  predicate StartsWith(s: string, prefix: string)
  {
    prefix <= s
  }

  /** Index of the first non-whitespace character at or after `i`, or `|s|`:
      where `s.trim()` starts cutting. */
  function SkipSpaces(s: string, i: nat): (lo: nat)
    requires i <= |s|
    ensures i <= lo <= |s|
    ensures forall k :: i <= k < lo ==> IsSpace(s[k])
    ensures lo == |s| || !IsSpace(s[lo])
    decreases |s| - i
  {
    if i < |s| && IsSpace(s[i]) then SkipSpaces(s, i + 1) else i
  }

  /** Index just past the last non-whitespace character of `s[lo..hi]`, or
      `lo` when that stretch is all whitespace. */
  function BackOverSpaces(s: string, lo: nat, hi: nat): (end: nat)
    requires lo <= hi <= |s|
    ensures lo <= end <= hi
    ensures forall k :: end <= k < hi ==> IsSpace(s[k])
    ensures end == lo || !IsSpace(s[end - 1])
    decreases hi - lo
  {
    if hi > lo && IsSpace(s[hi - 1]) then BackOverSpaces(s, lo, hi - 1) else hi
  }

  /** `s.trim()` */
  function Trim(s: string): (r: string)
    ensures |r| <= |s|
  {
    var lo := SkipSpaces(s, 0);
    s[lo..BackOverSpaces(s, lo, |s|)]
  }

  /** What `trim` keeps: the stretch of `s` from its first to its last
      non-whitespace character. Only whitespace is dropped on either side,
      and a string without whitespace at either end is unchanged. */
  lemma TrimKeepsInnerStretch(s: string)
    ensures var r, lo := Trim(s), SkipSpaces(s, 0);
      && lo + |r| <= |s|
      && r == s[lo..lo + |r|]
      && (forall k :: 0 <= k < lo ==> IsSpace(s[k]))
      && (forall k :: lo + |r| <= k < |s| ==> IsSpace(s[k]))
      && (r == [] || (!IsSpace(r[0]) && !IsSpace(r[|r| - 1])))
      && ((s == [] || (!IsSpace(s[0]) && !IsSpace(s[|s| - 1]))) ==> r == s)
  {
  }
}
