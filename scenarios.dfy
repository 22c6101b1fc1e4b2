/**
 * Worked examples: grading of sample cases, including a run that prints
 * nothing, and normalisation of typical program output.
 */
module Scenarios {
  import opened Wrappers
  import opened Strings
  import opened Normalizer
  import opened Testcases
  import opened Grading

  // ---------------------------------------------------------------------
  // normalize

  /** Two words with whitespace around and between them normalise to the two words and one space. */
  lemma NormalizeTwoWords(u: string, a: string, v: string, b: string, w: string)
    requires AllWs(u) && AllWs(v) && v != [] && AllWs(w)
    requires IsWord(a) && IsWord(b)
    ensures Normalize(u + a + v + b + w) == a + " " + b
  {
    var text := u + a + v + b + w;
    assert text == u + (a + (v + (b + w)));
    WordsAfterWs(u, a + (v + (b + w)));
    WordsOfWordThen(a, v + (b + w));
    WordsAfterWs(v, b + w);
    WordsBeforeWs(b, w);
    assert b + [] == b;
    WordsOfWordThen(b, []);
    assert Words(b) == [b];
    assert Words(text) == [a, b];
    assert [a, b][1..] == [b];
    assert JoinSpace([a, b]) == a + " " + b;
  }

  /**
   * Carriage returns, blank lines and surrounding spaces all collapse.
   *
   * The text is a parameter pinned by `requires` rather than a literal in the
   * `ensures`: with the literal there, the verifier unfolds the definitions on
   * it eagerly and the proof runs out of resources.
   */
  lemma NormalizeCrLfExample(text: string)
    requires text == " 5 \r\n\n 5 \n"
    ensures Normalize(text) == "5 5"
  {
    assert AllWs(" ") && AllWs(" \r\n\n ") && AllWs(" \n") && IsWord("5") by {
      assert IsWs(' ') && IsWs('\r') && IsWs('\n') && !IsWs('5');
    }
    NormalizeTwoWords(" ", "5", " \r\n\n ", "5", " \n");
    assert " " + "5" + " \r\n\n " + "5" + " \n" == text;
  }

  /**
   * A line break between tokens becomes a space: line structure is not kept.
   *
   * The text is a parameter pinned by `requires` rather than a literal in the
   * `ensures`: with the literal there, the verifier unfolds the definitions on
   * it eagerly and the proof runs out of resources.
   */
  lemma NormalizeLinesExample(text: string)
    requires text == "5\n5"
    ensures Normalize(text) == "5 5"
  {
    assert AllWs("") && AllWs("\n") && IsWord("5") by {
      assert IsWs('\n') && !IsWs('5');
    }
    NormalizeTwoWords("", "5", "\n", "5", "");
    assert "" + "5" + "\n" + "5" + "" == text;
  }

  // ---------------------------------------------------------------------
  // Grading the two sample cases "2 3" -> "5" and "10 15" -> "25"

  const Sample: seq<Case> := [Case("2 3", "5"), Case("10 15", "25")]

  /**
   * A program that prints each sum on its own line is accepted with 2 of 2.
   *
   * The cases are a parameter pinned by `requires cases == Sample` for the
   * same reason as the texts above: the verifier would otherwise unfold the
   * definitions on the literal eagerly.
   */
  lemma SampleAccepted(exec: Executor, code: string, language: string, cases: seq<Case>)
    requires cases == Sample
    requires exec(code, language, "2 3\n") == "5\n" && exec(code, language, "10 15\n") == "25\n"
    ensures PassedCount(exec, code, language, cases) == 2
    ensures VerdictOf(PassedCount(exec, code, language, cases), |cases|) == AC
  {
    assert Stdin(cases[0]) == "2 3\n" && Stdin(cases[1]) == "10 15\n";
    CorrectProgramAccepted(exec, code, language, cases);
    AllPassIffFullCount(exec, code, language, cases);
  }

  lemma WordsOfZero()
    ensures Words("0") == ["0"]
  {
    assert IsWord("0");
    WordsOfWordThen("0", "");
    assert "0" + "" == "0";
  }

  /** Output "0" does not match the expected text `e` when `e` is a single other word. */
  lemma ZeroFails(exec: Executor, code: string, language: string, c: Case)
    requires exec(code, language, Stdin(c)) == "0"
    requires IsWord(c.expected) && c.expected != "0"
    ensures !Passes(exec, code, language, c)
  {
    WordsOfZero();
    WordsOfWordThen(c.expected, "");
    assert c.expected + "" == c.expected;
    PassesIffSameWords(exec, code, language, c);
  }

  /**
   * A program that always prints "0" passes neither case.
   *
   * The cases are a parameter pinned by `requires cases == Sample` for the
   * same reason as the texts above: the verifier would otherwise unfold the
   * definitions on the literal eagerly.
   */
  lemma SampleAllZero(exec: Executor, code: string, language: string, cases: seq<Case>)
    requires cases == Sample
    requires exec(code, language, "2 3\n") == "0" && exec(code, language, "10 15\n") == "0"
    ensures PassedCount(exec, code, language, cases) == 0
    ensures VerdictOf(PassedCount(exec, code, language, cases), |cases|) == WA
  {
    assert Stdin(cases[0]) == "2 3\n" && Stdin(cases[1]) == "10 15\n";
    assert IsWord("5") && IsWord("25");
    forall i | 0 <= i < |cases|
      ensures !Passes(exec, code, language, cases[i])
    {
      ZeroFails(exec, code, language, cases[i]);
    }
    NonePassZero(exec, code, language, cases);
  }

  // ---------------------------------------------------------------------
  // A run that printed nothing

  /**
   * A run that printed nothing (a compile error leaves no `run` entry, so the
   * stdout read is `""`) passes a case whose expected text is blank.
   */
  lemma SilentRunPassesBlankCase(exec: Executor, code: string, language: string, c: Case)
    requires exec(code, language, Stdin(c)) == ""
    requires AllWs(c.expected)
    ensures Passes(exec, code, language, c)
  {
    PassesIffSameWords(exec, code, language, c);
    WordsOfWs(c.expected);
  }

  /**
   * A program that prints nothing is accepted, with 1 of 1, on the single
   * case with input "1" and a blank expected text.
   */
  lemma SilentRunAccepted(exec: Executor, code: string, language: string, cases: seq<Case>)
    requires cases == [Case("1", "")]
    requires exec(code, language, "1\n") == ""
    ensures PassedCount(exec, code, language, cases) == 1
    ensures VerdictOf(PassedCount(exec, code, language, cases), |cases|) == AC
  {
    assert Stdin(cases[0]) == "1\n";
    SilentRunPassesBlankCase(exec, code, language, cases[0]);
    AcceptedIffAllPass(exec, code, language, cases);
    AllPassIffFullCount(exec, code, language, cases);
  }
}
