/**
 * Name validation for the join handler: JavaScript's String.prototype.trim
 * and the "empty name is falsy" test.
 */
module Text {

  /** The characters trim() strips: ECMAScript WhiteSpace (including every
      Unicode space separator) and LineTerminator. */
  predicate IsWhitespace(c: char) {
    var n := c as int;
    n == 0x09 || n == 0x0A || n == 0x0B || n == 0x0C || n == 0x0D ||
    n == 0x20 || n == 0xA0 || n == 0x1680 ||
    (0x2000 <= n <= 0x200A) ||
    n == 0x2028 || n == 0x2029 || n == 0x202F || n == 0x205F ||
    n == 0x3000 || n == 0xFEFF
  }

  predicate AllWhitespace(s: string) {
    forall i :: 0 <= i < |s| ==> IsWhitespace(s[i])
  }

  /** Index of the first character at or after `k` that is not whitespace,
      or `|s|` when there is none. */
  function TrimStartFrom(s: string, k: nat): (lo: nat)
    requires k <= |s|
    ensures k <= lo <= |s|
    ensures forall i :: k <= i < lo ==> IsWhitespace(s[i])
    ensures lo < |s| ==> !IsWhitespace(s[lo])
    decreases |s| - k
  {
    if k == |s| || !IsWhitespace(s[k]) then k else TrimStartFrom(s, k + 1)
  }

  /** End (exclusive) of `s[lo..k]` once its trailing whitespace is dropped. */
  function TrimEndFrom(s: string, lo: nat, k: nat): (hi: nat)
    requires lo <= k <= |s|
    ensures lo <= hi <= k
    ensures forall i :: hi <= i < k ==> IsWhitespace(s[i])
    ensures lo < hi ==> !IsWhitespace(s[hi - 1])
    decreases k
  {
    if k == lo || !IsWhitespace(s[k - 1]) then k else TrimEndFrom(s, lo, k - 1)
  }

  /** `value.trim()`: a contiguous slice of `s` with no whitespace at either
      end, and everything cut away from `s` was whitespace. */
  function Trim(s: string): (r: string)
    ensures var lo := TrimStartFrom(s, 0);
      lo + |r| <= |s| && r == s[lo..lo + |r|] &&
      (forall i :: 0 <= i < lo ==> IsWhitespace(s[i])) &&
      (forall i :: lo + |r| <= i < |s| ==> IsWhitespace(s[i]))
    ensures r != [] ==> !IsWhitespace(r[0]) && !IsWhitespace(r[|r| - 1])
  {
    var lo := TrimStartFrom(s, 0);
    s[lo..TrimEndFrom(s, lo, |s|)]
  }

  /** The join handler gives up when the trimmed name is empty; that
      happens exactly when the typed name is made of whitespace only. */
  lemma TrimEmptyIffAllWhitespace(s: string)
    ensures Trim(s) == [] <==> AllWhitespace(s)
  {
  }
}
