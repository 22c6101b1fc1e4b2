/**
 * The daily question of `dash`: the generated text is cut at "TESTCASES"
 * into the question shown to the learner and the hidden test text, both kept
 * in the session together with the date, so that a visit carrying the
 * session written earlier the same day does not ask the generator again.
 */
module Daily {
  import opened Wrappers
  import opened Strings

  const Marker: string := "TESTCASES"

  const LastDateKey: string := "last_date"
  const QuestionKey: string := "daily_q"
  const TestsKey: string := "testcases"

  /** Python's `sep.join(parts)`. */
  function JoinWith(parts: seq<string>, sep: string): string {
    if parts == [] then ""
    else if |parts| == 1 then parts[0]
    else parts[0] + sep + JoinWith(parts[1..], sep)
  }

  /**
   * Python's `s.split(sep)` with a non-empty separator: the pieces between the
   * leftmost non-overlapping occurrences of `sep`.
   */
  function Split(s: string, sep: string): (parts: seq<string>)
    requires sep != []
    ensures |parts| >= 1
    ensures JoinWith(parts, sep) == s
    ensures forall i :: 0 <= i < |parts| ==> !Contains(parts[i], sep)
    // The first cut is at the leftmost occurrence of `sep`.
    ensures |parts| > 1 ==> FindFrom(s, sep, 0) == Some(|parts[0]|)
    decreases |s|
  {
    match FindFrom(s, sep, 0)
    case None => [s]
    case Some(k) =>
      var rest := Split(s[k + |sep|..], sep);
      NoOccurrenceInWindow(s, sep, 0, k);
      assert ([s[..k]] + rest)[1..] == rest;
      assert s == s[..k] + sep + s[k + |sep|..];
      [s[..k]] + rest
  }

  /** `parts[0]` and `parts[1] if len(parts) > 1 else ""` for `parts = text.split("TESTCASES")`. */
  function SplitDaily(text: string): (string, string) {
    var parts := Split(text, Marker);
    (parts[0], if |parts| > 1 then parts[1] else "")
  }

  /** The text up to the first "TESTCASES", or all of it. */
  function UpToMarker(s: string): (r: string)
    ensures !Contains(r, Marker)
    // A prefix of `s` that stops at the first marker, or is all of `s`.
    ensures |r| <= |s| && r == s[..|r|]
    ensures r == s || OccursAt(s, Marker, |r|)
    ensures forall j: nat :: j < |r| ==> !OccursAt(s, Marker, j)
  {
    match FindFrom(s, Marker, 0)
    case None => s
    case Some(k) => NoOccurrenceInWindow(s, Marker, 0, k); s[..k]
  }

  /**
   * The question is the text before the first "TESTCASES" (all of it when
   * there is none); the test text is what follows that occurrence up to the
   * next one or the end, and is empty when there is no marker.
   */
  lemma SplitDailySpec(text: string)
    ensures SplitDaily(text).0 == UpToMarker(text)
    ensures SplitDaily(text).1 == match FindFrom(text, Marker, 0)
      case None => ""
      case Some(k) => UpToMarker(text[k + |Marker|..])
  {
    match FindFrom(text, Marker, 0)
    case None =>
    case Some(k) =>
      var rest := text[k + |Marker|..];
      assert Split(text, Marker) == [text[..k]] + Split(rest, Marker);
  }

  /** The outcome of one visit to the dashboard. */
  datatype Visit = Visit(session: map<string, string>, question: Option<string>, generated: bool)

  /**
   * One visit to `dash` on date `today`, with `response` the text the
   * generator would produce: a cached question when the session already
   * holds today's date, a fresh split of `response` otherwise.
   */
  function DashVisit(session: map<string, string>, today: string, response: string): Visit {
    if Get(session, LastDateKey) == Some(today) then
      Visit(session, Get(session, QuestionKey), false)
    else
      var (q, t) := SplitDaily(response);
      Visit(session[LastDateKey := today][QuestionKey := q][TestsKey := t], Some(q), true)
  }

  /** Same day: the cached question, the generator not consulted, the session unchanged. */
  lemma DashCached(session: map<string, string>, today: string, response: string)
    requires Get(session, LastDateKey) == Some(today)
    ensures var v := DashVisit(session, today, response);
      !v.generated && v.session == session && v.question == Get(session, QuestionKey)
  {
  }

  /**
   * New day: the session records today, the question and the test text of
   * the new response; every other entry is kept.
   */
  lemma DashFresh(session: map<string, string>, today: string, response: string)
    requires Get(session, LastDateKey) != Some(today)
    ensures var v := DashVisit(session, today, response);
      v.generated && v.question == Some(SplitDaily(response).0)
      && Get(v.session, LastDateKey) == Some(today)
      && Get(v.session, QuestionKey) == Some(SplitDaily(response).0)
      && Get(v.session, TestsKey) == Some(SplitDaily(response).1)
      && v.session.Keys == session.Keys + {LastDateKey, QuestionKey, TestsKey}
      && (forall k :: k in session && k !in {LastDateKey, QuestionKey, TestsKey} ==>
            k in v.session && v.session[k] == session[k])
  {
    assert LastDateKey != QuestionKey && LastDateKey != TestsKey && QuestionKey != TestsKey by {
      assert LastDateKey[0] != TestsKey[0];
    }
  }

  /**
   * A second visit on the same day never consults the generator, whatever it
   * would answer, and shows the same question with the same session.
   */
  lemma DashOncePerDay(session: map<string, string>, today: string, r1: string, r2: string)
    ensures var v1 := DashVisit(session, today, r1);
      var v2 := DashVisit(v1.session, today, r2);
      !v2.generated && v2.session == v1.session && v2.question == v1.question
  {
    if Get(session, LastDateKey) != Some(today) {
      DashFresh(session, today, r1);
    }
  }

  /** A learner's session: the signed cookie dictionary of the web framework. */
  class Session {
    var data: map<string, string>

    constructor (initial: map<string, string>)
      ensures data == initial
    {
      data := initial;
    }

    /** `dash`: show today's question, generating it unless this session already holds today's. */
    method Dash(today: string, response: string) returns (question: Option<string>, ghost generated: bool)
      modifies this
      ensures var v := DashVisit(old(data), today, response);
        data == v.session && question == v.question && generated == v.generated
    {
      if Get(data, LastDateKey) == Some(today) {
        return Get(data, QuestionKey), false;
      }
      var parts := Split(response, Marker);
      var q := parts[0];
      var t := if |parts| > 1 then parts[1] else "";
      data := data[LastDateKey := today];
      data := data[QuestionKey := q];
      data := data[TestsKey := t];
      return Some(q), true;
    }
  }
}
