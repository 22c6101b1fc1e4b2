/**
 * The output normaliser `normalize(text) = " ".join(text.split())`: split on
 * runs of whitespace, drop empty pieces, rejoin with single spaces. Two program
 * outputs are judged equal when their normal forms are equal.
 */
module Normalizer {
  import opened Strings

  /** A piece produced by `str.split()`: non-empty, without whitespace. */
  predicate IsWord(w: string) {
    w != [] && forall i :: 0 <= i < |w| ==> !IsWs(w[i])
  }

  /** Length of the run of non-whitespace characters that starts `s`. */
  function WordLen(s: string): (n: nat)
    ensures n <= |s|
    ensures forall i :: 0 <= i < n ==> !IsWs(s[i])
    ensures n == |s| || IsWs(s[n])
  {
    if s == [] || IsWs(s[0]) then 0 else 1 + WordLen(s[1..])
  }

  /** The run of non-whitespace is the one that ends at the first whitespace. */
  lemma {:induction false} WordLenIs(s: string, k: nat)
    requires k <= |s|
    requires forall i :: 0 <= i < k ==> !IsWs(s[i])
    requires k == |s| || IsWs(s[k])
    ensures WordLen(s) == k
    decreases k
  {
    if k > 0 {
      WordLenIs(s[1..], k - 1);
    }
  }

  /** Python's `text.split()` with no separator: the maximal runs of non-whitespace, in order. */
  function Words(s: string): (ws: seq<string>)
    ensures forall k :: 0 <= k < |ws| ==> IsWord(ws[k])
    decreases |s|
  {
    if s == [] then []
    else if IsWs(s[0]) then Words(s[1..])
    else
      var n := WordLen(s);
      [s[..n]] + Words(s[n..])
  }

  /** Python's `" ".join(ws)`. */
  function JoinSpace(ws: seq<string>): string {
    if ws == [] then ""
    else if |ws| == 1 then ws[0]
    else ws[0] + " " + JoinSpace(ws[1..])
  }

  /** `normalize(text)` of the judge. */
  function Normalize(text: string): string {
    JoinSpace(Words(text))
  }

  /**
   * The shape of a normalised text: it neither starts nor ends with
   * whitespace, its only whitespace character is the space, and no two
   * whitespace characters are adjacent.
   */
  predicate Canonical(t: string) {
    (t == [] || (!IsWs(t[0]) && !IsWs(t[|t| - 1])))
    && (forall i :: 0 <= i < |t| && IsWs(t[i]) ==> t[i] == ' ')
    && (forall i :: 0 <= i < |t| - 1 ==> !IsWs(t[i]) || !IsWs(t[i + 1]))
  }

  // ---------------------------------------------------------------------
  // Unfolding facts about Words

  /** A word followed by whitespace (or nothing) is split off as one piece. */
  lemma WordsOfWordThen(w: string, t: string)
    requires IsWord(w)
    requires t == [] || IsWs(t[0])
    ensures Words(w + t) == [w] + Words(t)
  {
    var s := w + t;
    WordLenIs(s, |w|);
    assert s[..|w|] == w && s[|w|..] == t;
  }

  /** Whitespace alone has no words. */
  lemma {:induction false} WordsOfWs(t: string)
    requires AllWs(t)
    ensures Words(t) == []
    decreases |t|
  {
    if t != [] {
      WordsOfWs(t[1..]);
    }
  }

  /** Leading whitespace does not change the words. */
  lemma {:induction false} WordsAfterWs(u: string, t: string)
    requires AllWs(u)
    ensures Words(u + t) == Words(t)
    decreases |u|
  {
    if u != [] {
      assert (u + t)[0] == u[0] && IsWs(u[0]);
      assert (u + t)[1..] == u[1..] + t;
      WordsAfterWs(u[1..], t);
    } else {
      assert u + t == t;
    }
  }

  /** Trailing whitespace does not change the words. */
  lemma {:induction false} WordsBeforeWs(u: string, t: string)
    requires AllWs(t)
    ensures Words(u + t) == Words(u)
    decreases |u|
  {
    var s := u + t;
    if u == [] {
      assert s == t;
      WordsOfWs(t);
    } else if IsWs(u[0]) {
      assert s[1..] == u[1..] + t;
      WordsBeforeWs(u[1..], t);
    } else {
      var m := WordLen(u);
      assert s[0] == u[0];
      assert m == |u| || s[m] == u[m];
      assert m < |u| || m == |s| || s[m] == t[0];
      WordLenIs(s, m);
      assert s[..m] == u[..m];
      assert s[m..] == u[m..] + t;
      WordsBeforeWs(u[m..], t);
    }
  }

  /** A run of whitespace anywhere in a text splits the same way as a single space. */
  lemma {:induction false} WordsCollapseRun(u: string, w: string, v: string)
    requires AllWs(w) && w != []
    ensures Words(u + w + v) == Words(u + " " + v)
    decreases |u|
  {
    var s, s' := u + w + v, u + " " + v;
    if u == [] {
      assert s == w + v && s' == " " + v;
      WordsAfterWs(w, v);
      WordsAfterWs(" ", v);
    } else if IsWs(u[0]) {
      assert s[0] == u[0] && s'[0] == u[0];
      assert s[1..] == u[1..] + w + v && s'[1..] == u[1..] + " " + v;
      WordsCollapseRun(u[1..], w, v);
    } else {
      var m := WordLen(u);
      var word := u[..m];
      assert IsWord(word);
      var rest := u[m..];
      assert u == word + rest;
      if m == |u| {
        assert s == u + (w + v) && s' == u + (" " + v);
        WordsOfWordThen(u, w + v);
        WordsOfWordThen(u, " " + v);
        WordsAfterWs(w, v);
        WordsAfterWs(" ", v);
      } else {
        assert s == word + (rest + w + v) && s' == word + (rest + " " + v);
        WordsOfWordThen(word, rest + w + v);
        WordsOfWordThen(word, rest + " " + v);
        WordsCollapseRun(rest, w, v);
      }
    }
  }

  // ---------------------------------------------------------------------
  // Joining words and splitting them again

  /** `str.split()` undoes `" ".join` on words. */
  lemma {:induction false} WordsOfJoin(ws: seq<string>)
    requires forall k :: 0 <= k < |ws| ==> IsWord(ws[k])
    ensures Words(JoinSpace(ws)) == ws
    decreases |ws|
  {
    if ws == [] {
    } else if |ws| == 1 {
      WordsOfWordThen(ws[0], "");
      assert ws[0] + "" == ws[0];
    } else {
      var rest := JoinSpace(ws[1..]);
      WordsOfWordThen(ws[0], " " + rest);
      assert ws[0] + " " + rest == ws[0] + (" " + rest);
      WordsAfterWs(" ", rest);
      WordsOfJoin(ws[1..]);
    }
  }

  /** Joining words gives a canonical text. */
  lemma {:induction false} JoinCanonical(ws: seq<string>)
    requires forall k :: 0 <= k < |ws| ==> IsWord(ws[k])
    ensures Canonical(JoinSpace(ws))
    ensures ws != [] ==> JoinSpace(ws) != []
    decreases |ws|
  {
    if |ws| > 1 {
      var w := ws[0];
      var rest := JoinSpace(ws[1..]);
      JoinCanonical(ws[1..]);
      var t := w + " " + rest;
      assert rest != [] && !IsWs(rest[0]);
      forall i | 0 <= i < |t| && IsWs(t[i])
        ensures t[i] == ' '
      {
        if i > |w| { assert t[i] == rest[i - |w| - 1]; }
      }
      forall i | 0 <= i < |t| - 1
        ensures !IsWs(t[i]) || !IsWs(t[i + 1])
      {
        if i > |w| {
          assert t[i] == rest[i - |w| - 1] && t[i + 1] == rest[i - |w|];
        }
      }
      assert t[|t| - 1] == rest[|rest| - 1];
    }
  }

  /** Joining a word in front of a non-empty list of words puts one space between. */
  lemma JoinSpaceCons(w: string, ws: seq<string>)
    requires ws != []
    ensures JoinSpace([w] + ws) == w + " " + JoinSpace(ws)
  {
    assert ([w] + ws)[1..] == ws;
  }

  /** What follows the first space of a canonical text is canonical and starts a word. */
  lemma CanonicalAfterSpace(t: string, n: nat)
    requires Canonical(t) && n < |t| && IsWs(t[n])
    ensures n + 1 < |t| && Canonical(t[n + 1..]) && !IsWs(t[n + 1])
  {
    var t' := t[n + 1..];
    forall i | 0 <= i < |t'| - 1
      ensures !IsWs(t'[i]) || !IsWs(t'[i + 1])
    {
      assert t'[i] == t[n + 1 + i] && t'[i + 1] == t[n + 2 + i];
    }
    forall i | 0 <= i < |t'| && IsWs(t'[i])
      ensures t'[i] == ' '
    {
      assert t'[i] == t[n + 1 + i];
    }
  }

  /** In a canonical text, the words are the first word and the words after the space that ends it. */
  lemma WordsAfterFirstSpace(t: string, n: nat)
    requires Canonical(t) && t != [] && n == WordLen(t) && n < |t|
    ensures t[n] == ' ' && Words(t) == [t[..n]] + Words(t[n + 1..])
    ensures t == t[..n] + " " + t[n + 1..]
  {
    assert t[n] == ' ';
    CutAtSpace(t, n);
    WordsAfterWs(" ", t[n + 1..]);
  }

  /** A text cut at one of its spaces. */
  lemma CutAtSpace(t: string, n: nat)
    requires n < |t| && t[n] == ' '
    ensures t[n..] == " " + t[n + 1..]
    ensures t == t[..n] + " " + t[n + 1..]
  {
    assert t[n..] == [t[n]] + t[n + 1..];
    assert t == t[..n] + t[n..];
  }

  /** A canonical text is the join of its own words. */
  lemma {:induction false} CanonicalIsJoin(t: string)
    requires Canonical(t)
    ensures JoinSpace(Words(t)) == t
    decreases |t|
  {
    if t != [] {
      var n := WordLen(t);
      if n == |t| {
        assert t[..n] == t && t[n..] == [];
      } else {
        CanonicalAfterSpace(t, n);
        var w, t' := t[..n], t[n + 1..];
        var ws := Words(t');
        CanonicalIsJoin(t');
        WordsAfterFirstSpace(t, n);
        WordsNonEmpty(t', 0);
        JoinSpaceCons(w, ws);
      }
    }
  }

  // ---------------------------------------------------------------------
  // The properties of normalize

  /** `normalize` keeps exactly the words of its input. */
  lemma NormalizeKeepsWords(text: string)
    ensures Words(Normalize(text)) == Words(text)
  {
    WordsOfJoin(Words(text));
  }

  /**
   * `normalize`'s result has no leading or trailing whitespace, and its only
   * whitespace is single spaces; it is empty exactly when the input is all whitespace.
   */
  lemma NormalizeCanonical(text: string)
    ensures Canonical(Normalize(text))
    ensures Normalize(text) == [] <==> AllWs(text)
  {
    JoinCanonical(Words(text));
    if AllWs(text) {
      WordsOfWs(text);
    } else {
      var i :| 0 <= i < |text| && !IsWs(text[i]);
      WordsNonEmpty(text, i);
    }
  }

  /** A text with a non-whitespace character has a word. */
  lemma {:induction false} WordsNonEmpty(text: string, i: nat)
    requires i < |text| && !IsWs(text[i])
    ensures Words(text) != []
    decreases |text|
  {
    if IsWs(text[0]) {
      WordsNonEmpty(text[1..], i - 1);
    }
  }

  /** `normalize` is idempotent. */
  lemma NormalizeIdempotent(text: string)
    ensures Normalize(Normalize(text)) == Normalize(text)
  {
    NormalizeKeepsWords(text);
  }

  /** The texts `normalize` leaves alone are exactly the canonical ones. */
  lemma NormalizeFixpoint(t: string)
    ensures Normalize(t) == t <==> Canonical(t)
  {
    if Canonical(t) {
      CanonicalIsJoin(t);
    } else {
      NormalizeCanonical(t);
    }
  }

  /** Two outputs compare equal after `normalize` exactly when they have the same words. */
  lemma NormalizeEqualIffSameWords(a: string, b: string)
    ensures Normalize(a) == Normalize(b) <==> Words(a) == Words(b)
  {
    NormalizeKeepsWords(a);
    NormalizeKeepsWords(b);
  }

  /** `strip()` does not change the words of a text. */
  lemma WordsOfStrip(text: string)
    ensures Words(Strip(text)) == Words(text)
  {
    var r := Strip(text);
    var i := SkipWs(text, 0);
    var j := i + |r|;
    var lead, trail := text[..i], text[j..];
    assert text == lead + (r + trail);
    WordsAfterWs(lead, r + trail);
    WordsBeforeWs(r, trail);
  }

  /** `strip()` before `normalize` changes nothing. */
  lemma NormalizeIgnoresStrip(text: string)
    ensures Normalize(Strip(text)) == Normalize(text)
  {
    WordsOfStrip(text);
  }
}
