/**
 * Character-level text primitives of Python that the judge relies on:
 * the whitespace class shared by `str.split()`, `str.strip()` and the regular
 * expression class `\s`, substring search, and `str.strip()`.
 */
module Strings {
  import opened Wrappers

  /**
   * Python's `str.isspace()` on the ASCII range: tab, line feed, vertical tab,
   * form feed, carriage return, the four information separators and space.
   */
  predicate IsWs(c: char) {
    c == ' ' || '\t' <= c <= '\r' || '\U{1C}' <= c <= '\U{1F}'
  }

  predicate AllWs(t: string) {
    forall k :: 0 <= k < |t| ==> IsWs(t[k])
  }

  /** `pat` occurs in `s` starting at index `i`. */
  predicate OccursAt(s: string, pat: string, i: nat) {
    i + |pat| <= |s| && s[i..i + |pat|] == pat
  }

  /** Python's `pat in s`. */
  predicate Contains(s: string, pat: string) {
    exists i: nat :: i <= |s| && OccursAt(s, pat, i)
  }

  /** Python's `s.find(pat, from)`: the leftmost occurrence at or after `from`. */
  function FindFrom(s: string, pat: string, from: nat): (r: Option<nat>)
    requires from <= |s|
    ensures r.Some? ==> from <= r.value && OccursAt(s, pat, r.value)
    ensures r.Some? ==> forall j: nat :: from <= j < r.value ==> !OccursAt(s, pat, j)
    ensures r.None? ==> forall j: nat :: from <= j ==> !OccursAt(s, pat, j)
    decreases |s| - from
  {
    if OccursAt(s, pat, from) then Some(from)
    else if from == |s| then None
    else FindFrom(s, pat, from + 1)
  }

  /** A slice of a slice is a slice of the whole. */
  lemma SliceOfSlice(s: string, i: nat, j: nat, a: nat, b: nat)
    requires i <= j <= |s| && a <= b <= j - i
    ensures s[i..j][a..b] == s[i + a..i + b]
  {
    assert forall t :: 0 <= t < b - a ==> s[i..j][a..b][t] == s[i + a..i + b][t];
  }

  /** A slice holding no occurrence of `pat` that starts inside it has no `pat` at all. */
  lemma NoOccurrenceInWindow(s: string, pat: string, i: nat, j: nat)
    requires i <= j <= |s| && pat != []
    requires forall m: nat :: i <= m < j ==> !OccursAt(s, pat, m)
    ensures !Contains(s[i..j], pat)
  {
    var w := s[i..j];
    forall k: nat | k + |pat| <= |w|
      ensures !OccursAt(w, pat, k)
    {
      assert !OccursAt(s, pat, i + k);
      SliceOfSlice(s, i, j, k, k + |pat|);
    }
  }

  /** A piece cut out of a text without `pat` has no `pat` either. */
  lemma NotContainsSlice(s: string, pat: string, i: nat, j: nat)
    requires i <= j <= |s|
    requires !Contains(s, pat)
    ensures !Contains(s[i..j], pat)
  {
    assert pat != [] by { assert OccursAt(s, [], 0); }
    NoOccurrenceInWindow(s, pat, i, j);
  }

  /** The end of the run of whitespace that starts at `i` (the regex `\s*`, greedy). */
  function SkipWs(s: string, i: nat): (r: nat)
    requires i <= |s|
    ensures i <= r <= |s| && AllWs(s[i..r])
    ensures r == |s| || !IsWs(s[r])
    decreases |s| - i
  {
    if i < |s| && IsWs(s[i]) then SkipWs(s, i + 1) else i
  }

  /** The start of the run of whitespace that ends at `j`, not going below `lo`. */
  function BackWs(s: string, lo: nat, j: nat): (r: nat)
    requires lo <= j <= |s|
    ensures lo <= r <= j && AllWs(s[r..j])
    ensures r == lo || !IsWs(s[r - 1])
    decreases j
  {
    if lo < j && IsWs(s[j - 1]) then
      var r := BackWs(s, lo, j - 1);
      assert forall k :: r <= k < j - 1 ==> s[r..j - 1][k - r] == s[k];
      r
    else j
  }

  /**
   * Python's `s.strip()`: the slice between the leading and the trailing
   * whitespace run.
   */
  function Strip(s: string): (r: string)
    ensures r == [] || (!IsWs(r[0]) && !IsWs(r[|r| - 1]))
    ensures var i := SkipWs(s, 0);
      i + |r| <= |s| && r == s[i..i + |r|] && AllWs(s[..i]) && AllWs(s[i + |r|..])
  {
    var i := SkipWs(s, 0);
    var j := BackWs(s, i, |s|);
    assert s[..i] == s[0..i];
    s[i..j]
  }

  /** `strip()` leaves a text alone exactly when it neither starts nor ends with whitespace. */
  lemma StripFixpoint(t: string)
    ensures Strip(t) == t <==> (t == [] || (!IsWs(t[0]) && !IsWs(t[|t| - 1])))
  {
    if t != [] && !IsWs(t[0]) && !IsWs(t[|t| - 1]) {
      assert SkipWs(t, 0) == 0;
      assert BackWs(t, 0, |t|) == |t|;
    }
  }

  /** `strip()` is idempotent. */
  lemma StripIdempotent(t: string)
    ensures Strip(Strip(t)) == Strip(t)
  {
    StripFixpoint(Strip(t));
  }
}
