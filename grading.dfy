/**
 * Submit mode of `submit_code`: every parsed test case is run once through the
 * remote executor, its output compared with the expected text after
 * `normalize`, and the verdict is 'AC' exactly when all cases passed and there
 * was at least one.
 */
module Grading {
  import opened Wrappers
  import opened Strings
  import opened Normalizer
  import opened Testcases
  import opened Daily

  /** The verdict shown to the learner. */
  datatype Verdict = AC | WA

  /** The remote execution backend: (code, language, stdin) to the run's stdout. */
  type Executor = (string, string, string) -> string

  /** The stdin the judge sends for a case: its input followed by a line break. */
  function Stdin(c: Case): string {
    c.input + "\n"
  }

  /** The stdins sent for `cases`, one per case, in order. */
  function Stdins(cases: seq<Case>): (r: seq<string>)
    ensures |r| == |cases| && forall i :: 0 <= i < |cases| ==> r[i] == Stdin(cases[i])
  {
    if cases == [] then [] else Stdins(cases[..|cases| - 1]) + [Stdin(cases[|cases| - 1])]
  }

  /** A case passes when the stripped stdout and the expected text normalise alike. */
  predicate Passes(exec: Executor, code: string, language: string, c: Case) {
    Normalize(Strip(exec(code, language, Stdin(c)))) == Normalize(c.expected)
  }

  /** Whether each case passes, in order. */
  function Outcomes(exec: Executor, code: string, language: string, cases: seq<Case>): seq<bool> {
    seq(|cases|, i requires 0 <= i < |cases| => Passes(exec, code, language, cases[i]))
  }

  /** How many of `bs` are true. */
  function CountTrue(bs: seq<bool>): (n: nat)
    ensures n <= |bs|
  {
    if bs == [] then 0 else CountTrue(bs[..|bs| - 1]) + if bs[|bs| - 1] then 1 else 0
  }

  /** The count is the number of positions holding `true`. */
  lemma {:induction false} CountTrueIsSetSize(bs: seq<bool>)
    ensures CountTrue(bs) == |set i | 0 <= i < |bs| && bs[i]|
    decreases |bs|
  {
    if bs != [] {
      var n := |bs| - 1;
      var front := bs[..n];
      CountTrueIsSetSize(front);
      var before := set i | 0 <= i < n && front[i];
      var all := set i | 0 <= i < |bs| && bs[i];
      if bs[n] {
        assert all == before + {n};
      } else {
        assert all == before;
      }
    }
  }

  /** Counting one more element adds one exactly when it is true. */
  lemma CountTrueStep(bs: seq<bool>, i: nat)
    requires i < |bs|
    ensures CountTrue(bs[..i + 1]) == CountTrue(bs[..i]) + if bs[i] then 1 else 0
  {
    assert bs[..i + 1][..i] == bs[..i];
  }

  /** The stdins of one more case are those before it and its own. */
  lemma StdinsStep(cases: seq<Case>, i: nat)
    requires i < |cases|
    ensures Stdins(cases[..i + 1]) == Stdins(cases[..i]) + [Stdin(cases[i])]
  {
    assert cases[..i + 1][..i] == cases[..i];
  }

  /** All are true exactly when the count is the length. */
  lemma {:induction false} CountTrueFull(bs: seq<bool>)
    ensures CountTrue(bs) == |bs| <==> forall i :: 0 <= i < |bs| ==> bs[i]
    decreases |bs|
  {
    if bs != [] {
      var init := bs[..|bs| - 1];
      CountTrueFull(init);
      assert forall i :: 0 <= i < |init| ==> init[i] == bs[i];
    }
  }

  /** None is true exactly when the count is zero. */
  lemma {:induction false} CountTrueZero(bs: seq<bool>)
    ensures CountTrue(bs) == 0 <==> forall i :: 0 <= i < |bs| ==> !bs[i]
    decreases |bs|
  {
    if bs != [] {
      var init := bs[..|bs| - 1];
      CountTrueZero(init);
      assert forall i :: 0 <= i < |init| ==> init[i] == bs[i];
    }
  }

  /** `passed` after the loop: how many of `cases` pass. */
  function PassedCount(exec: Executor, code: string, language: string, cases: seq<Case>): nat {
    CountTrue(Outcomes(exec, code, language, cases))
  }

  /** `passed` is the number of cases that pass. */
  lemma PassedCountIsSetSize(exec: Executor, code: string, language: string, cases: seq<Case>)
    ensures PassedCount(exec, code, language, cases)
         == |set i | 0 <= i < |cases| && Passes(exec, code, language, cases[i])|
  {
    var outcomes := Outcomes(exec, code, language, cases);
    CountTrueIsSetSize(outcomes);
    assert (set i | 0 <= i < |outcomes| && outcomes[i])
        == (set i | 0 <= i < |cases| && Passes(exec, code, language, cases[i]));
  }

  /** `'AC' if passed == total and total > 0 else 'WA'`. */
  function VerdictOf(passed: nat, total: nat): Verdict {
    if passed == total && total > 0 then AC else WA
  }

  /**
   * The count of passing cases never exceeds the number of cases, and it is
   * the number of cases exactly when every case passes.
   */
  lemma AllPassIffFullCount(exec: Executor, code: string, language: string, cases: seq<Case>)
    ensures PassedCount(exec, code, language, cases) <= |cases|
    ensures PassedCount(exec, code, language, cases) == |cases|
      <==> forall i :: 0 <= i < |cases| ==> Passes(exec, code, language, cases[i])
  {
    var o := Outcomes(exec, code, language, cases);
    assert forall i :: 0 <= i < |cases| ==> o[i] == Passes(exec, code, language, cases[i]);
    CountTrueFull(o);
  }

  /** A submission is accepted exactly when there is a case and every case passes. */
  lemma AcceptedIffAllPass(exec: Executor, code: string, language: string, cases: seq<Case>)
    ensures VerdictOf(PassedCount(exec, code, language, cases), |cases|) == AC
      <==> |cases| > 0 && forall i :: 0 <= i < |cases| ==> Passes(exec, code, language, cases[i])
  {
    AllPassIffFullCount(exec, code, language, cases);
  }

  /**
   * A case passes exactly when its output has the same whitespace-separated
   * words as the expected text: the `strip()` on the output changes nothing,
   * and line structure and spacing are ignored.
   */
  lemma PassesIffSameWords(exec: Executor, code: string, language: string, c: Case)
    ensures Passes(exec, code, language, c) <==> Words(exec(code, language, Stdin(c))) == Words(c.expected)
  {
    var out := exec(code, language, Stdin(c));
    NormalizeIgnoresStrip(out);
    NormalizeEqualIffSameWords(out, c.expected);
  }

  /** A program that prints each expected text followed by a line break passes every case. */
  lemma CorrectProgramAccepted(exec: Executor, code: string, language: string, cases: seq<Case>)
    requires forall i :: 0 <= i < |cases| ==> exec(code, language, Stdin(cases[i])) == cases[i].expected + "\n"
    ensures PassedCount(exec, code, language, cases) == |cases|
    ensures VerdictOf(PassedCount(exec, code, language, cases), |cases|) == AC <==> |cases| > 0
  {
    forall i | 0 <= i < |cases|
      ensures Passes(exec, code, language, cases[i])
    {
      assert AllWs("\n") by { assert IsWs('\n'); }
      WordsBeforeWs(cases[i].expected, "\n");
      PassesIffSameWords(exec, code, language, cases[i]);
    }
    AllPassIffFullCount(exec, code, language, cases);
  }

  /** The count is zero exactly when no case passes. */
  lemma NonePassZero(exec: Executor, code: string, language: string, cases: seq<Case>)
    ensures PassedCount(exec, code, language, cases) == 0
      <==> forall i :: 0 <= i < |cases| ==> !Passes(exec, code, language, cases[i])
  {
    var o := Outcomes(exec, code, language, cases);
    assert forall i :: 0 <= i < |cases| ==> o[i] == Passes(exec, code, language, cases[i]);
    CountTrueZero(o);
  }

  /** One failing case is enough for 'WA'. */
  lemma AnyFailureRejected(exec: Executor, code: string, language: string, cases: seq<Case>, i: nat)
    requires i < |cases| && !Passes(exec, code, language, cases[i])
    ensures PassedCount(exec, code, language, cases) < |cases|
    ensures VerdictOf(PassedCount(exec, code, language, cases), |cases|) == WA
  {
    AllPassIffFullCount(exec, code, language, cases);
  }

  /**
   * The grading loop. `runs` records, in order, the stdin of every call made
   * to the executor.
   */
  method Grade(exec: Executor, code: string, language: string, cases: seq<Case>)
    returns (verdict: Verdict, passed: nat, total: nat, ghost runs: seq<string>)
    ensures total == |cases| && passed <= total
    ensures passed == PassedCount(exec, code, language, cases)
    ensures verdict == AC <==>
      total > 0 && forall i :: 0 <= i < |cases| ==> Passes(exec, code, language, cases[i])
    ensures runs == Stdins(cases)
  {
    passed := 0;
    total := |cases|;
    runs := [];
    ghost var outcomes := Outcomes(exec, code, language, cases);
    for i := 0 to |cases|
      invariant passed == CountTrue(outcomes[..i])
      invariant runs == Stdins(cases[..i])
    {
      var stdin := Stdin(cases[i]);
      var output := Strip(exec(code, language, stdin));
      runs := runs + [stdin];
      StdinsStep(cases, i);
      CountTrueStep(outcomes, i);
      var ok := Normalize(output) == Normalize(cases[i].expected);
      assert outcomes[i] == ok;
      if ok {
        passed := passed + 1;
      }
    }
    assert cases[..|cases|] == cases;
    assert outcomes[..|cases|] == outcomes;
    verdict := VerdictOf(passed, total);
    AcceptedIffAllPass(exec, code, language, cases);
  }

  /**
   * Submit mode end to end: the test text kept in the learner's session
   * (empty when absent) is parsed and graded.
   */
  method Submit(session: Session, exec: Executor, code: string, language: string)
    returns (verdict: Verdict, passed: nat, total: nat)
    ensures var cases := LoadTestcases(if TestsKey in session.data then session.data[TestsKey] else "");
      total == |cases| && passed == PassedCount(exec, code, language, cases)
      && (verdict == AC <==> total > 0 && forall i :: 0 <= i < total ==> Passes(exec, code, language, cases[i]))
    ensures TestsKey !in session.data ==> verdict == WA && passed == 0 && total == 0
  {
    var text := match Get(session.data, TestsKey) case Some(t) => t case None => "";
    var cases := LoadTestcases(text);
    ghost var runs;
    verdict, passed, total, runs := Grade(exec, code, language, cases);
  }
}
