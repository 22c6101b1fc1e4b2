/**
 * `load_testcases(question)`: two `re.findall` scans over the generated test
 * text, one for `INPUT:\s*(.*?)\s*OUTPUT:` and one for
 * `OUTPUT:\s*(.*?)(?=INPUT:|$)` (both with DOTALL, so `.` matches line
 * breaks), whose captured groups are paired by index and stripped.
 *
 * The scanners are written for these two patterns only. Each tries a match at
 * one start position the way the regular-expression engine backtracks: the
 * greedy `\s*` takes the whole whitespace run, the lazy group is as short as
 * possible. `findall` tries start positions left to right and resumes after
 * the end of each match, so matches never overlap.
 */
module Testcases {
  import opened Wrappers
  import opened Strings

  const InputTag: string := "INPUT:"
  const OutputTag: string := "OUTPUT:"

  /** One hidden test case: the stdin text and the expected stdout text. */
  datatype Case = Case(input: string, expected: string)

  /** The group a successful match captured, `s[lo..hi]`, and where the match ended. */
  datatype Hit = Hit(lo: nat, hi: nat, end: nat)

  // ---------------------------------------------------------------------
  // INPUT:\s*(.*?)\s*OUTPUT:

  /**
   * The regular expression `INPUT:\s*(.*?)\s*OUTPUT:` can match at `p` with
   * its group being `s[a..b]` and its final `OUTPUT:` at `k`.
   */
  predicate InputMatch(s: string, p: nat, a: nat, b: nat, k: nat) {
    p + |InputTag| <= a <= b <= k && OccursAt(s, InputTag, p) && OccursAt(s, OutputTag, k)
    && AllWs(s[p + |InputTag|..a]) && AllWs(s[b..k])
  }

  /**
   * The match the engine prefers at `p`: the whole whitespace run after
   * `INPUT:`, the group ending before the whitespace that precedes the first
   * `OUTPUT:`, and the match ending after that `OUTPUT:`.
   */
  predicate PreferredInputHit(s: string, p: nat, h: Hit) {
    p + |InputTag| + |OutputTag| <= h.end <= |s|
    && var k := h.end - |OutputTag|;
    InputMatch(s, p, h.lo, h.hi, k)
    && h.lo < |s| && !IsWs(s[h.lo])
    && (h.hi == h.lo || !IsWs(s[h.hi - 1]))
    && forall j: nat :: h.lo <= j < k ==> !OccursAt(s, OutputTag, j)
  }

  /** The input pattern attempted at position `p`. */
  function MatchInputAt(s: string, p: nat): (h: Option<Hit>)
    requires p <= |s|
    // It fails exactly when there is no `INPUT:` at p or no `OUTPUT:` after it.
    ensures h.None? <==>
      !OccursAt(s, InputTag, p) || forall k: nat :: p + |InputTag| <= k ==> !OccursAt(s, OutputTag, k)
    ensures h.Some? ==> PreferredInputHit(s, p, h.value)
  {
    if !OccursAt(s, InputTag, p) then None
    else
      var a := SkipWs(s, p + |InputTag|);
      match FindFrom(s, OutputTag, a)
      case None =>
        NoOutputInWs(s, p + |InputTag|, a);
        None
      case Some(k) =>
        var b := BackWs(s, a, k);
        InputHit(s, p, a, b, k);
        Some(Hit(a, b, k + |OutputTag|))
  }

  /** No `OUTPUT:` starts inside the whitespace run `s[i..j]`. */
  lemma NoOutputInWs(s: string, i: nat, j: nat)
    requires i <= j <= |s| && AllWs(s[i..j])
    ensures forall k: nat :: i <= k < j ==> !OccursAt(s, OutputTag, k)
  {
    forall k: nat | i <= k < j
      ensures !OccursAt(s, OutputTag, k)
    {
      assert s[i..j][k - i] == s[k];
      assert IsWs(s[k]);
      assert !IsWs(OutputTag[0]);
    }
  }

  /**
   * The pieces the engine settles on (`a` after the whitespace run, `k` the
   * first `OUTPUT:` from there, `b` where the whitespace before it begins)
   * form a match whose group neither starts nor ends with whitespace.
   */
  lemma InputHit(s: string, p: nat, a: nat, b: nat, k: nat)
    requires OccursAt(s, InputTag, p)
    requires a == SkipWs(s, p + |InputTag|)
    requires FindFrom(s, OutputTag, a) == Some(k)
    requires b == BackWs(s, a, k)
    ensures PreferredInputHit(s, p, Hit(a, b, k + |OutputTag|))
  {
    assert s[k..k + |OutputTag|][0] == s[k];
    assert a < |s|;
  }

  /** `re.findall` of the input pattern from position `p` on: the captured groups in order. */
  function FindInputs(s: string, p: nat): (gs: seq<string>)
    requires p <= |s|
    ensures forall i :: 0 <= i < |gs| ==> !Contains(gs[i], OutputTag)
    decreases |s| - p
  {
    if p == |s| then []
    else
      match MatchInputAt(s, p)
      case None => FindInputs(s, p + 1)
      case Some(h) =>
        NoOccurrenceInWindow(s, OutputTag, h.lo, h.hi);
        [s[h.lo..h.hi]] + FindInputs(s, h.end)
  }

  // ---------------------------------------------------------------------
  // OUTPUT:\s*(.*?)(?=INPUT:|$)

  /**
   * The lookahead `(?=INPUT:|$)` holds at `e`: `INPUT:` follows, or `e` is
   * the end of the text, or only a final line break follows (Python's `$`
   * without MULTILINE).
   */
  predicate OutputStop(s: string, e: nat) {
    OccursAt(s, InputTag, e) || e == |s| || (e + 1 == |s| && s[e] == '\n')
  }

  /** The first position at or after `e` where the lookahead holds (the lazy group's end). */
  function FirstStop(s: string, e: nat): (r: nat)
    requires e <= |s|
    ensures e <= r <= |s| && OutputStop(s, r)
    ensures forall j: nat :: e <= j < r ==> !OutputStop(s, j)
    decreases |s| - e
  {
    if OutputStop(s, e) then e else FirstStop(s, e + 1)
  }

  /**
   * The output pattern attempted at position `p`: it matches exactly when
   * `OUTPUT:` is at `p`; the group starts after the whitespace run and ends at
   * the first place where `INPUT:` or the end of the text follows.
   */
  function MatchOutputAt(s: string, p: nat): (h: Option<Hit>)
    requires p <= |s|
    ensures h.Some? <==> OccursAt(s, OutputTag, p)
    ensures h.Some? ==>
      p + |OutputTag| <= h.value.lo <= h.value.hi == h.value.end <= |s|
      && AllWs(s[p + |OutputTag|..h.value.lo])
      && (h.value.lo == |s| || !IsWs(s[h.value.lo]))
      && OutputStop(s, h.value.hi)
      && forall j: nat :: h.value.lo <= j < h.value.hi ==> !OutputStop(s, j)
  {
    if !OccursAt(s, OutputTag, p) then None
    else
      var a := SkipWs(s, p + |OutputTag|);
      var e := FirstStop(s, a);
      Some(Hit(a, e, e))
  }

  /** `re.findall` of the output pattern from position `p` on: the captured groups in order. */
  function FindOutputs(s: string, p: nat): (gs: seq<string>)
    requires p <= |s|
    ensures forall i :: 0 <= i < |gs| ==> !Contains(gs[i], InputTag)
    decreases |s| - p
  {
    if p == |s| then []
    else
      match MatchOutputAt(s, p)
      case None => FindOutputs(s, p + 1)
      case Some(h) =>
        forall m: nat | h.lo <= m < h.hi
          ensures !OccursAt(s, InputTag, m)
        {
          assert !OutputStop(s, m);
        }
        NoOccurrenceInWindow(s, InputTag, h.lo, h.hi);
        [s[h.lo..h.hi]] + FindOutputs(s, h.end)
  }

  // ---------------------------------------------------------------------
  // load_testcases

  /** `[(i.strip(), o.strip()) for i, o in zip(inputs, outputs)]`. */
  function ZipStripped(inputs: seq<string>, outputs: seq<string>): (cs: seq<Case>)
    ensures |cs| == if |inputs| <= |outputs| then |inputs| else |outputs|
    ensures forall i :: 0 <= i < |cs| ==> cs[i] == Case(Strip(inputs[i]), Strip(outputs[i]))
  {
    if inputs == [] || outputs == [] then []
    else [Case(Strip(inputs[0]), Strip(outputs[0]))] + ZipStripped(inputs[1..], outputs[1..])
  }

  /** `load_testcases(question)`. */
  function LoadTestcases(text: string): seq<Case> {
    ZipStripped(FindInputs(text, 0), FindOutputs(text, 0))
  }

  // ---------------------------------------------------------------------
  // Properties of load_testcases

  /** Without an `INPUT:` from `p` on, the input scan finds nothing. */
  lemma {:induction false} FindInputsNone(s: string, p: nat)
    requires p <= |s|
    requires (forall j: nat :: p <= j ==> !OccursAt(s, InputTag, j))
          || (forall j: nat :: p <= j ==> !OccursAt(s, OutputTag, j))
    ensures FindInputs(s, p) == []
    decreases |s| - p
  {
    if p < |s| {
      FindInputsNone(s, p + 1);
    }
  }

  /** Without an `OUTPUT:` from `p` on, the output scan finds nothing. */
  lemma {:induction false} FindOutputsNone(s: string, p: nat)
    requires p <= |s|
    requires forall j: nat :: p <= j ==> !OccursAt(s, OutputTag, j)
    ensures FindOutputs(s, p) == []
    decreases |s| - p
  {
    if p < |s| {
      FindOutputsNone(s, p + 1);
    }
  }

  /** Some `INPUT:` at or after `p` is followed, later on, by an `OUTPUT:`. */
  predicate HasInputSegment(s: string, p: nat) {
    exists q: nat, k: nat :: p <= q && q + |InputTag| <= k <= |s|
      && OccursAt(s, InputTag, q) && OccursAt(s, OutputTag, k)
  }

  /** The input scan finds a group exactly when an `INPUT:` ... `OUTPUT:` segment lies ahead. */
  lemma {:induction false} FindInputsNonEmpty(s: string, p: nat)
    requires p <= |s|
    ensures FindInputs(s, p) != [] <==> HasInputSegment(s, p)
    decreases |s| - p
  {
    if p == |s| {
      assert forall q: nat :: p <= q ==> !OccursAt(s, InputTag, q);
    } else {
      match MatchInputAt(s, p)
      case None =>
        FindInputsNonEmpty(s, p + 1);
        if HasInputSegment(s, p) {
          var q: nat, k: nat :| p <= q && q + |InputTag| <= k
            && OccursAt(s, InputTag, q) && OccursAt(s, OutputTag, k);
          if q == p {
            assert false;
          }
          assert HasInputSegment(s, p + 1);
        }
      case Some(h) =>
        var k := h.end - |OutputTag|;
        assert OccursAt(s, InputTag, p) && OccursAt(s, OutputTag, k);
    }
  }

  /** The output scan finds a group exactly when an `OUTPUT:` lies ahead. */
  lemma {:induction false} FindOutputsNonEmpty(s: string, p: nat)
    requires p <= |s|
    ensures FindOutputs(s, p) != [] <==> exists q: nat :: p <= q && OccursAt(s, OutputTag, q)
    decreases |s| - p
  {
    if p < |s| {
      match MatchOutputAt(s, p)
      case None =>
        FindOutputsNonEmpty(s, p + 1);
      case Some(h) =>
    }
  }

  /**
   * `load_testcases` yields at least one case exactly when the text has an
   * `INPUT:` followed, later on, by an `OUTPUT:`.
   */
  lemma LoadTestcasesNonEmpty(text: string)
    ensures LoadTestcases(text) != [] <==> HasInputSegment(text, 0)
  {
    FindInputsNonEmpty(text, 0);
    FindOutputsNonEmpty(text, 0);
    if HasInputSegment(text, 0) {
      var q: nat, k: nat :| q + |InputTag| <= k
        && OccursAt(text, InputTag, q) && OccursAt(text, OutputTag, k);
      assert FindOutputs(text, 0) != [];
    }
  }

  /** Text without `INPUT:` or without `OUTPUT:` yields no test cases. */
  lemma NoMarkersNoCases(text: string)
    requires !Contains(text, InputTag) || !Contains(text, OutputTag)
    ensures LoadTestcases(text) == []
  {
    if !Contains(text, OutputTag) {
      FindOutputsNone(text, 0);
    }
    FindInputsNone(text, 0);
  }

  /**
   * Every parsed case is stripped, its input holds no `OUTPUT:` and its
   * expected output holds no `INPUT:`.
   */
  lemma CasesAreClean(text: string)
    ensures forall i :: 0 <= i < |LoadTestcases(text)| ==>
      var c := LoadTestcases(text)[i];
      !Contains(c.input, OutputTag) && !Contains(c.expected, InputTag)
      && Strip(c.input) == c.input && Strip(c.expected) == c.expected
  {
    var ins, outs := FindInputs(text, 0), FindOutputs(text, 0);
    var cs := LoadTestcases(text);
    forall i | 0 <= i < |cs|
      ensures !Contains(cs[i].input, OutputTag) && !Contains(cs[i].expected, InputTag)
      ensures Strip(cs[i].input) == cs[i].input && Strip(cs[i].expected) == cs[i].expected
    {
      StripFreeOf(ins[i], OutputTag);
      StripFreeOf(outs[i], InputTag);
    }
  }

  /** Stripping cannot introduce a marker, and stripping twice changes nothing. */
  lemma StripFreeOf(t: string, pat: string)
    requires !Contains(t, pat)
    ensures !Contains(Strip(t), pat)
    ensures Strip(Strip(t)) == Strip(t)
  {
    var i := SkipWs(t, 0);
    NotContainsSlice(t, pat, i, i + |Strip(t)|);
    StripIdempotent(t);
  }

  /** `findall` of the input pattern passes over positions where the pattern fails. */
  lemma {:induction false} FindInputsSkip(s: string, p: nat, q: nat)
    requires p <= q <= |s|
    requires forall j: nat :: p <= j < q ==> MatchInputAt(s, j).None?
    ensures FindInputs(s, p) == FindInputs(s, q)
    decreases q - p
  {
    if p < q {
      FindInputsSkip(s, p, q - 1);
      FindInputsStep(s, q - 1);
    }
  }

  /** Where the input pattern fails, the scan moves on by one position. */
  lemma FindInputsStep(s: string, p: nat)
    requires p < |s| && MatchInputAt(s, p).None?
    ensures FindInputs(s, p) == FindInputs(s, p + 1)
  {
  }

  /**
   * The first group `findall` returns for the input pattern is that of the
   * first position where the pattern matches, and the scan resumes where
   * that match ends.
   */
  lemma FindInputsFirst(s: string, p: nat, q: nat)
    requires p <= q < |s|
    requires forall j: nat :: p <= j < q ==> MatchInputAt(s, j).None?
    requires MatchInputAt(s, q).Some?
    ensures var h := MatchInputAt(s, q).value;
      FindInputs(s, p) == [s[h.lo..h.hi]] + FindInputs(s, h.end)
  {
    FindInputsSkip(s, p, q);
  }

  /** `findall` of the output pattern passes over positions where no `OUTPUT:` starts. */
  lemma {:induction false} FindOutputsSkip(s: string, p: nat, q: nat)
    requires p <= q <= |s|
    requires forall j: nat :: p <= j < q ==> !OccursAt(s, OutputTag, j)
    ensures FindOutputs(s, p) == FindOutputs(s, q)
    decreases q - p
  {
    if p < q {
      FindOutputsSkip(s, p + 1, q);
    }
  }

  /**
   * The first group `findall` returns for the output pattern is that of the
   * first `OUTPUT:`, and the scan resumes where the lookahead held.
   */
  lemma FindOutputsFirst(s: string, p: nat, q: nat)
    requires p <= q < |s|
    requires forall j: nat :: p <= j < q ==> !OccursAt(s, OutputTag, j)
    requires OccursAt(s, OutputTag, q)
    ensures var h := MatchOutputAt(s, q).value;
      FindOutputs(s, p) == [s[h.lo..h.hi]] + FindOutputs(s, h.end)
  {
    FindOutputsSkip(s, p, q);
  }
}
