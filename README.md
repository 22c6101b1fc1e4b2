# Daily coding-challenge judge: the grading core in Dafny

This project models the grading logic of a small Flask application. The
application shows a generated programming problem, kept in the browser
session, and a visit that carries the session written earlier the same day
does not generate a new one. It runs the learner's code on a remote execution service against the hidden test
cases that came with the problem, and it answers with a verdict, `AC` or `WA`,
plus the number of passed cases. The model covers the four pieces of
`app.py` that do this. Every network, database and template call is left out.

- **Output normaliser** (`normalize`, `normalizer.dfy`). This is
  `" ".join(text.split())`. The model splits the text into its maximal runs of
  non-whitespace and joins them with single spaces. It proves what the result
  looks like, that the function is idempotent, which texts are its fixed
  points, and that two outputs compare equal exactly when they have the same
  words.
- **Test-case parser** (`load_testcases`, `testcases.dfy`). The parser runs
  two `re.findall` scans, `INPUT:\s*(.*?)\s*OUTPUT:` and
  `OUTPUT:\s*(.*?)(?=INPUT:|$)`, both with DOTALL. The model has a
  hand-written scanner for these two patterns only, with `findall`'s
  behaviour: matches are leftmost, never overlap, the greedy `\s*` takes the
  whole whitespace run and the lazy group is as short as possible. The two
  lists of groups are zipped and stripped.
- **Verdict aggregation** (submit mode of `submit_code`, `grading.dfy`). The
  loop over the parsed cases becomes a method with loop invariants. The
  remote executor is a function parameter `(code, language, stdin) ->
  stdout`. The method is proved against a counting function, and lemmas say
  when the verdict is `AC`.
- **Daily question and session cache** (`dash`, `daily.dfy`). The generated
  text is split on `"TESTCASES"`. Thanks to the per-session `last_date`
  guard, a visit that carries the session written earlier the same day does
  not run the generator. The session is a class
  holding a `map` that `Dash` updates in place. `Dash` is proved against a
  pure one-visit function, `DashVisit`, and the lemmas are stated about that
  function.

`strings.dfy` holds the Python string primitives these pieces share:
whitespace, `in`, `find`, `strip`, and the whitespace runs `\s*` consumes.
`wrappers.dfy` holds `Option` and `dict.get`. `scenarios.dfy` works through
concrete examples.

Whitespace is one fixed predicate, `Strings.IsWs`. It is Python's
`str.isspace()` restricted to ASCII: tab, line feed, vertical tab, form feed,
carriage return, the four information separators (28–31) and space.
`str.split()`, `str.strip()` and the regex class `\s` all use this same class
on `str` in Python, so one predicate serves all three.

Where a design description of this system and the code disagree, the model
follows the code:

- The description says the normaliser keeps line structure and internal
  spacing. The code collapses every whitespace run, line breaks included, to
  one space. So `normalize("5\n5")` is `"5 5"` (`Scenarios.NormalizeLinesExample`).
- The description has `NoTestCases` and infrastructure-failure outcomes. The
  code only has `'AC'` and `'WA'`, and an empty case list gives `'WA'` with
  0 of 0.
- The description keeps problems and test cases in a database. The code keeps
  them in the learner's session.
- The description classifies execution results. The code reads only
  `run.stdout`, with `""` as the default. So a failed run is judged on
  whatever stdout it returned (`""` when none), like any other output. It
  fails a case unless that case's expected text is blank
  (`Scenarios.SilentRunPassesBlankCase`).

## Model

| member | source | states |
|---|---|---|
| `Wrappers.Get` | app.py:59-60 | definition of `session.get(k)`: the stored value, or None when the key is absent. `Grading.Submit`, `Daily.DashCached` and `Daily.DashFresh` state what the reads and writes through it mean |
| `Strings.FindFrom` | app.py:64 | the leftmost occurrence of the separator at or after a position, or None when there is none |
| `Strings.SkipWs` | app.py:15-16 | the greedy `\s*` after a tag: it consumes only whitespace and stops at a non-whitespace character or at the end |
| `Strings.BackWs` | app.py:15 | the trailing `\s*` before `OUTPUT:`: the whitespace run that ends at the tag, and nothing more |
| `Strings.Strip` | app.py:18 | `strip()`: the result is a slice of the input with only whitespace cut away at both ends, and it neither starts nor ends with whitespace |
| `Strings.StripFixpoint` | app.py:18 | `strip()` leaves a text unchanged exactly when the text neither starts nor ends with whitespace |
| `Strings.StripIdempotent` | app.py:18 | stripping twice is the same as stripping once |
| `Normalizer.Words` | app.py:21 | `text.split()`: every piece is non-empty and has no whitespace |
| `Normalizer.WordsOfJoin` | app.py:21 | splitting `" ".join(ws)` gives back `ws` when the pieces are words |
| `Normalizer.WordsBeforeWs` | app.py:21 | trailing whitespace does not change the words of a text |
| `Normalizer.WordsCollapseRun` | app.py:21 | any non-empty run of whitespace anywhere in a text splits exactly like a single space |
| `Normalizer.JoinSpace` | app.py:21 | definition of `" ".join(ws)`. `WordsOfJoin` and `JoinCanonical` state its properties |
| `Normalizer.Normalize` | app.py:20-21 | definition of `normalize` as the join of the split. The `Normalize...` lemmas below state its properties |
| `Normalizer.NormalizeKeepsWords` | app.py:20-21 | `normalize` keeps exactly the words of its input, in order |
| `Normalizer.NormalizeCanonical` | app.py:21 | the result has no leading or trailing whitespace, its only whitespace characters are single spaces, and it is empty exactly when the input is all whitespace |
| `Normalizer.NormalizeIdempotent` | app.py:20-21 | `normalize(normalize(t)) == normalize(t)` |
| `Normalizer.NormalizeFixpoint` | app.py:20-21 | `normalize(t) == t` holds exactly for the canonical texts |
| `Normalizer.NormalizeEqualIffSameWords` | app.py:89 | two outputs compare equal after `normalize` exactly when they have the same whitespace-separated words |
| `Normalizer.WordsOfStrip` | app.py:88 | `strip()` does not change the words of a text |
| `Normalizer.NormalizeIgnoresStrip` | app.py:88-89 | the `strip()` applied to the output before `normalize` changes nothing |
| `Testcases.MatchInputAt` | app.py:15 | one attempt of `INPUT:\s*(.*?)\s*OUTPUT:` at a position. It fails exactly when there is no `INPUT:` there or no `OUTPUT:` after it. Otherwise it gives the match the engine picks: all whitespace after `INPUT:` skipped, and the group ending where the whitespace before the first following `OUTPUT:` begins |
| `Testcases.FindInputs` | app.py:15 | `findall` of the input pattern: no captured input contains `OUTPUT:` |
| `Testcases.FirstStop` | app.py:16 | the lazy group's end: the first position where `INPUT:` follows, or the end of the text, or only a final line break follows |
| `Testcases.MatchOutputAt` | app.py:16 | one attempt of the output pattern (group ended by a lookahead for `INPUT:` or the end): it succeeds exactly when `OUTPUT:` is at the position, and the group runs from after the whitespace to the first lookahead position |
| `Testcases.FindOutputs` | app.py:16 | `findall` of the output pattern: no captured output contains `INPUT:` |
| `Testcases.FindInputsSkip` | app.py:15 | the scan passes over positions where the input pattern fails (leftmost matching) |
| `Testcases.FindInputsFirst` | app.py:15 | the first group found is that of the first position where the input pattern matches, and the scan resumes at that match's end |
| `Testcases.FindOutputsSkip` | app.py:16 | the scan passes over positions where no `OUTPUT:` starts |
| `Testcases.FindOutputsFirst` | app.py:16 | the first group found is that of the first `OUTPUT:`, and the scan resumes where the lookahead held |
| `Testcases.FindInputsNonEmpty` | app.py:15 | the input scan finds a group exactly when an `INPUT:` lies ahead with an `OUTPUT:` somewhere after it |
| `Testcases.FindOutputsNonEmpty` | app.py:16 | the output scan finds a group exactly when an `OUTPUT:` lies ahead |
| `Testcases.LoadTestcases` | app.py:13-19 | definition of `load_testcases` as the stripped zip of the two scans. `LoadTestcasesNonEmpty`, `NoMarkersNoCases` and `CasesAreClean` state its properties |
| `Testcases.LoadTestcasesNonEmpty` | app.py:13-19 | at least one case is parsed exactly when the text has an `INPUT:` followed later by an `OUTPUT:`. So `"OUTPUT: x INPUT: y"` yields none |
| `Testcases.ZipStripped` | app.py:17-18 | the number of pairs is the smaller of the two match counts, and pair i is the i-th input and the i-th output, each stripped |
| `Testcases.NoMarkersNoCases` | app.py:13-19 | text without `INPUT:`, or without `OUTPUT:`, yields no test cases |
| `Testcases.CasesAreClean` | app.py:15-18 | every parsed input is free of `OUTPUT:`, every expected output is free of `INPUT:`, and both are already stripped |
| `Grading.Stdins` | app.py:86 | the stdin sent for each case is its input followed by `"\n"`, one per case, in order |
| `Grading.CountTrue` | app.py:83-90 | `passed += 1` per passing case: the count never exceeds the number of cases |
| `Grading.CountTrueFull` | app.py:89-91 | the count equals the number of flags exactly when every flag is set |
| `Grading.CountTrueZero` | app.py:83-90 | the count is 0 exactly when no flag is set |
| `Grading.CountTrueIsSetSize` | app.py:83-90 | the count is the number of positions whose flag is set |
| `Grading.Passes` | app.py:86-89 | definition of one case's check: the stripped stdout for stdin `inp + "\n"`, normalised, equals the normalised expected text. `PassesIffSameWords` states what it means |
| `Grading.PassedCount` | app.py:83-90 | definition of `passed` after the loop: the count of the per-case checks. `PassedCountIsSetSize`, `AllPassIffFullCount` and `NonePassZero` state its properties |
| `Grading.PassedCountIsSetSize` | app.py:83-90 | `passed` is the size of the set of indices of the cases that pass |
| `Grading.VerdictOf` | app.py:91 | definition of the verdict line. `AcceptedIffAllPass` states when it is `AC` |
| `Grading.AllPassIffFullCount` | app.py:89-91 | `passed == total` exactly when every case passes |
| `Grading.AcceptedIffAllPass` | app.py:91 | the verdict is `AC` exactly when there is at least one case and every case passes |
| `Grading.PassesIffSameWords` | app.py:88-89 | a case passes exactly when the program's stdout has the same words as the expected text |
| `Grading.CorrectProgramAccepted` | app.py:85-91 | a program that prints each expected text and a line break passes every case, and is accepted exactly when there is a case |
| `Grading.NonePassZero` | app.py:83-90 | when no case passes, `passed` stays 0 |
| `Grading.AnyFailureRejected` | app.py:91 | one failing case makes the verdict `WA` |
| `Grading.Grade` | app.py:83-91 | the loop runs every case once, in order, with stdin `inp + "\n"`, and never exits early. Afterwards `total == len(testcases)`, `passed <= total`, `passed` is the number of passing cases, and the verdict is `AC` exactly when `total > 0` and every case passes |
| `Grading.Submit` | app.py:82-91 | submit mode grades the cases parsed from the session's test text. Without that text the result is `WA` with 0 of 0 |
| `Daily.Split` | app.py:64 | `str.split(sep)`: at least one part, joining the parts with `sep` gives back the text, no part contains `sep`, and the first cut is at the leftmost occurrence |
| `Daily.UpToMarker` | app.py:65 | a prefix of the text that is either all of it or ends where a `"TESTCASES"` starts, with no marker starting before that point. So it is the text before the first marker. It never contains the marker |
| `Daily.SplitDaily` | app.py:64-66 | definition of the question and test text as `parts[0]` and `parts[1]` or `""`. `SplitDailySpec` states what they are |
| `Daily.SplitDailySpec` | app.py:64-66 | the question is the text before the first marker. The test text is what lies between the first and the second marker, or runs to the end, and it is `""` when there is no marker |
| `Daily.DashVisit` | app.py:58-69 | definition of one visit on values: the cached question on the same day, a fresh split otherwise. `DashCached`, `DashFresh` and `DashOncePerDay` state its properties |
| `Daily.DashCached` | app.py:59-60 | when the session already holds today's date, the cached `daily_q` is shown, the generator is not consulted, and the session is unchanged |
| `Daily.DashFresh` | app.py:61-69 | otherwise the session gets today's date, the new question and the new test text, and every other entry stays as it was |
| `Daily.DashOncePerDay` | app.py:58-69 | a second visit on the same day never consults the generator, whatever it would answer, and shows the same question with the same session |
| `Daily.Session.Dash` | app.py:58-70 | the session's new contents, the question shown and whether the generator was consulted are those of `DashVisit` |
| `Scenarios.NormalizeTwoWords` | app.py:21 | two words with any whitespace before, between and after them normalise to the two words with one space |
| `Scenarios.NormalizeCrLfExample` | app.py:21 | `normalize(" 5 \r\n\n 5 \n") == "5 5"` |
| `Scenarios.NormalizeLinesExample` | app.py:21 | `normalize("5\n5") == "5 5"`: line breaks are not kept |
| `Scenarios.SampleAccepted` | app.py:85-91 | cases "2 3" -> "5" and "10 15" -> "25", with a program that prints each sum on its own line, give `AC` with 2 of 2 |
| `Scenarios.SilentRunPassesBlankCase` | app.py:88-90 | a run whose stdout is `""` (or that has no `run` entry) passes any case whose expected text is blank |
| `Scenarios.SilentRunAccepted` | app.py:85-91 | on the single case "1" with a blank expected text, a program that prints nothing is accepted with 1 of 1 |
| `Scenarios.SampleAllZero` | app.py:85-91 | the same cases, with a program that always prints "0", give `WA` with 0 of 2 |

## Left out

- Flask routing, `render_template`, `request.form` and `redirect` (app.py:22-24, 71-81, 92-94) are web plumbing. The values the templates receive (question, verdict, passed, total) are the models' results.
- `login` and `register` (app.py:25-55) are left out. They hash passwords with a foreign library and run SQL against the `users` table.
- `get_conn` (app.py:11-12) and `database.py` are left out. They open a database connection and create tables, and hold no logic.
- Run mode of `submit_code` (app.py:77-81) is a single forwarded call with no grading. It is not modelled.
- The HTTP call to the execution service and its JSON decoding (app.py:79, 87-88) are abstracted. The executor is a function from (code, language, stdin) to the run's stdout. A failed call is assumed to surface as some stdout value, as `.get("stdout", "")` does. Network errors that raise are not modelled.
- The generative model (app.py:8, 61-63) is abstracted. Its response text is a parameter of `Dash`, consulted only on a new day. The prompt is not modelled.
- `date.today()` (app.py:58) is abstracted. Today's date is a parameter.
- Whitespace outside ASCII is left out. Python's `str.isspace()` also accepts Unicode spaces such as U+0085 and U+00A0, and `IsWs` does not.
- Signing and serialising the session cookie is left out. The session is a map from keys to strings.
- `Grading.Grade`: the order of the executor calls is recorded in a ghost sequence of stdins. Calls are pure function applications, so side effects of running code on the remote service are not modelled.
- Concurrent requests are left out. Visits that carry the same older session each run the generator. The model passes the session through visits one at a time, so `DashOncePerDay` covers only a second visit that carries the session the first one wrote.
