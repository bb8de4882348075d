/** Whitespace and `str.strip()`, shared by the loader and the writer. */
module Strings {

  /**
   * The ASCII characters Python counts as whitespace (`str.isspace`): space,
   * tab, line feed, vertical tab, form feed and carriage return (codes 9 to
   * 13) and the four separators from code 28 to 31.
   */
  predicate IsSpace(c: char) {
    c == ' ' || ('\t' <= c <= '\r') || ('\U{1C}' <= c <= '\U{1F}')
  }

  /** The position of the first character at or after `from` that is not whitespace, or the end. */
  function LeadingEnd(s: string, from: nat): (i: nat)
    requires from <= |s|
    ensures from <= i <= |s|
    ensures forall k :: from <= k < i ==> IsSpace(s[k])
    ensures i < |s| ==> !IsSpace(s[i])
    decreases |s| - from
  {
    if from == |s| || !IsSpace(s[from]) then from else LeadingEnd(s, from + 1)
  }

  /** The position just after the last character before `hi` (and not before `lo`) that is not whitespace, or `lo`. */
  function TrailingStart(s: string, lo: nat, hi: nat): (j: nat)
    requires lo <= hi <= |s|
    ensures lo <= j <= hi
    ensures forall k :: j <= k < hi ==> IsSpace(s[k])
    ensures j > lo ==> !IsSpace(s[j - 1])
    decreases hi
  {
    if hi == lo || !IsSpace(s[hi - 1]) then hi else TrailingStart(s, lo, hi - 1)
  }

  /** `str.strip()`: the text without leading and trailing whitespace. */
  function Strip(s: string): string {
    var i := LeadingEnd(s, 0);
    s[i..TrailingStart(s, i, |s|)]
  }

  /**
   * Stripping removes only whitespace, from the two ends, and leaves text
   * that neither starts nor ends with whitespace; so stripping twice is
   * stripping once.
   */
  lemma StripMeaning(s: string)
    ensures var r := Strip(s);
      && (r == [] || (!IsSpace(r[0]) && !IsSpace(r[|r| - 1])))
      && (exists i, j :: 0 <= i <= j <= |s| && r == s[i..j]
            && (forall k :: 0 <= k < i ==> IsSpace(s[k]))
            && (forall k :: j <= k < |s| ==> IsSpace(s[k])))
      && Strip(r) == r
  {
    var i := LeadingEnd(s, 0);
    var j := TrailingStart(s, i, |s|);
    var r := s[i..j];
    if r != [] {
      assert r[0] == s[i] && r[|r| - 1] == s[j - 1];
    }
    StripFixed(r);
  }

  /** Text that neither starts nor ends with whitespace is left as it is. */
  lemma StripFixed(r: string)
    requires r == [] || (!IsSpace(r[0]) && !IsSpace(r[|r| - 1]))
    ensures Strip(r) == r
  {
    assert LeadingEnd(r, 0) == 0;
    assert r[0..|r|] == r;
  }
}
