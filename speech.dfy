/**
 * `format_speech`: every recognised utterance is split on whitespace, as
 * Python's `str.split()` without arguments does, and wrapped as
 * `['START'] + tokens + ['END']`, so that it reads like a test sentence.
 */
module Speech {
  import opened Corpus

  /** Python's `str.isspace` for one character: the whitespace `str.split()` separates on. */
  predicate IsSpace(ch: char)
  {
    || ('\U{0009}' <= ch <= '\U{000D}')
    || ('\U{001C}' <= ch <= '\U{001F}')
    || ch == ' ' || ch == '\U{0085}' || ch == '\U{00A0}' || ch == '\U{1680}'
    || ('\U{2000}' <= ch <= '\U{200A}')
    || ch == '\U{2028}' || ch == '\U{2029}' || ch == '\U{202F}' || ch == '\U{205F}' || ch == '\U{3000}'
  }

  /** `s` ends inside a token: its last character is not whitespace. */
  predicate InWord(s: string)
  {
    |s| > 0 && !IsSpace(s[|s| - 1])
  }

  /**
   * `s.split()`, one character at a time: whitespace closes the current
   * token, a character after whitespace (or at the start) opens a new one,
   * and any other character extends the last token.
   */
  function Split(s: string): (ts: seq<string>)
    ensures InWord(s) ==> |ts| > 0
  {
    if |s| == 0 then []
    else
      var init, ch := s[..|s| - 1], s[|s| - 1];
      var ts := Split(init);
      if IsSpace(ch) then ts
      else if InWord(init) then ts[..|ts| - 1] + [ts[|ts| - 1] + [ch]]
      else ts + [[ch]]
  }

  /** `' '.join(ts)`. */
  function Join(ts: seq<string>): string
  {
    if |ts| == 0 then ""
    else if |ts| == 1 then ts[0]
    else Join(ts[..|ts| - 1]) + " " + ts[|ts| - 1]
  }

  /** A token: not empty and free of whitespace. */
  predicate IsToken(t: string)
  {
    |t| > 0 && forall j :: 0 <= j < |t| ==> !IsSpace(t[j])
  }

  /**
   * The number of whitespace-separated tokens of `s`: the positions that
   * hold a non-whitespace character right after whitespace or at the start.
   */
  function Starts(s: string): nat
  {
    if |s| == 0 then 0
    else Starts(s[..|s| - 1]) + (if !IsSpace(s[|s| - 1]) && !InWord(s[..|s| - 1]) then 1 else 0)
  }

  /**
   * `s` with every run of whitespace collapsed to one space and the leading
   * and trailing whitespace removed, one character at a time: the flag
   * records a run of whitespace after some output, written out as one
   * space only when another token follows.
   */
  function Squeeze(s: string): (string, bool)
  {
    if |s| == 0 then ("", false)
    else
      var p := Squeeze(s[..|s| - 1]);
      var ch := s[|s| - 1];
      if IsSpace(ch) then (p.0, |p.0| > 0)
      else if p.1 then (p.0 + " " + [ch], false)
      else (p.0 + [ch], false)
  }

  /** The utterance as the tokens rejoined: whitespace runs collapsed to one space, ends trimmed. */
  function Normalize(s: string): string
  {
    Squeeze(s).0
  }

  // ---------------------------------------------------------------------
  // Properties of Split

  /** Every piece `split()` returns is a token. */
  lemma {:induction false} SplitTokens(s: string)
    ensures forall i :: 0 <= i < |Split(s)| ==> IsToken(Split(s)[i])
  {
    if |s| > 0 {
      var init, ch := s[..|s| - 1], s[|s| - 1];
      SplitTokens(init);
      var ts := Split(init);
      if !IsSpace(ch) && InWord(init) {
        var last := ts[|ts| - 1] + [ch];
        assert IsToken(ts[|ts| - 1]);
        assert forall j :: 0 <= j < |last| ==> last[j] == if j < |ts[|ts| - 1]| then ts[|ts| - 1][j] else ch;
      }
    }
  }

  /** `split()` returns one token per token start. */
  lemma {:induction false} SplitCount(s: string)
    ensures |Split(s)| == Starts(s)
  {
    if |s| > 0 {
      SplitCount(s[..|s| - 1]);
    }
  }

  /** `split()` returns no token exactly when the utterance is empty or all whitespace. */
  lemma {:induction false} SplitBlank(s: string)
    ensures |Split(s)| == 0 <==> forall i :: 0 <= i < |s| ==> IsSpace(s[i])
  {
    if |s| > 0 {
      var init := s[..|s| - 1];
      SplitBlank(init);
      assert forall i :: 0 <= i < |init| ==> init[i] == s[i];
    }
  }

  lemma JoinNonEmpty(ts: seq<string>)
    requires forall i :: 0 <= i < |ts| ==> IsToken(ts[i])
    ensures |Join(ts)| > 0 <==> |ts| > 0
  {
    if |ts| > 1 {
      assert IsToken(ts[|ts| - 1]);
    } else if |ts| == 1 {
      assert IsToken(ts[0]);
    }
  }

  /** Extending the last token extends the joined string by the same character. */
  lemma JoinExtend(ts: seq<string>, ch: char)
    requires |ts| > 0
    ensures Join(ts[..|ts| - 1] + [ts[|ts| - 1] + [ch]]) == Join(ts) + [ch]
  {
    var us := ts[..|ts| - 1] + [ts[|ts| - 1] + [ch]];
    assert us[..|us| - 1] == ts[..|ts| - 1];
  }

  /** Appending a token appends a space and the token, after at least one token. */
  lemma JoinSnoc(ts: seq<string>, t: string)
    ensures Join(ts + [t]) == if |ts| == 0 then t else Join(ts) + " " + t
  {
    assert (ts + [t])[..|ts|] == ts;
  }

  /** Rejoining the tokens with single spaces gives the utterance normalized. */
  lemma {:induction false} JoinSplit(s: string)
    ensures Join(Split(s)) == Normalize(s)
    ensures Squeeze(s).1 <==> |Split(s)| > 0 && |s| > 0 && IsSpace(s[|s| - 1])
  {
    if |s| > 0 {
      var init, ch := s[..|s| - 1], s[|s| - 1];
      JoinSplit(init);
      var ts := Split(init);
      SplitTokens(init);
      JoinNonEmpty(ts);
      if IsSpace(ch) {
      } else if InWord(init) {
        JoinExtend(ts, ch);
      } else {
        JoinSnoc(ts, [ch]);
      }
    }
  }

  /** A whitespace character after the text leaves the tokens as they are. */
  lemma SplitSpace(x: string, ch: char)
    requires IsSpace(ch)
    ensures Split(x + [ch]) == Split(x)
  {
    assert (x + [ch])[..|x|] == x;
  }

  /** A token after whitespace (or at the start) becomes one more piece. */
  lemma {:induction false} SplitWord(x: string, t: string)
    requires !InWord(x) && IsToken(t)
    ensures Split(x + t) == Split(x) + [t]
    decreases |t|
  {
    var y := x + t[..|t| - 1];
    var ch := t[|t| - 1];
    assert x + t == y + [ch];
    assert (y + [ch])[..|y|] == y;
    if |t| == 1 {
      assert y == x;
    } else {
      var u := t[..|t| - 1];
      assert IsToken(u) by {
        assert forall j :: 0 <= j < |u| ==> u[j] == t[j];
      }
      SplitWord(x, u);
      assert InWord(y) by {
        assert y[|y| - 1] == t[|t| - 2];
      }
      assert u + [ch] == t;
    }
  }

  /** Splitting tokens joined with single spaces gives the tokens back. */
  lemma {:induction false} SplitJoin(ts: seq<string>)
    requires forall i :: 0 <= i < |ts| ==> IsToken(ts[i])
    ensures Split(Join(ts)) == ts
  {
    if |ts| == 1 {
      SplitWord("", ts[0]);
      assert "" + ts[0] == ts[0];
    } else if |ts| > 1 {
      var init, t := ts[..|ts| - 1], ts[|ts| - 1];
      SplitJoin(init);
      SplitSpace(Join(init), ' ');
      SplitWord(Join(init) + " ", t);
      assert ts == init + [t];
    }
  }

  // ---------------------------------------------------------------------
  // format_speech

  /** One formatted utterance: `['START'] + sentence.split() + ['END']`. */
  function Wrap(sentence: string): seq<string>
  {
    [START] + Split(sentence) + [END]
  }

  /**
   * A formatted utterance opens with `'START'`, closes with `'END'`, has
   * two entries more than the utterance has tokens, holds tokens in
   * between, which rejoined give the normalized utterance; an empty or
   * all-whitespace utterance gives exactly `['START', 'END']`.
   */
  lemma WrapSpec(sentence: string)
    ensures var r := Wrap(sentence);
      && |r| == Starts(sentence) + 2
      && r[0] == START && r[|r| - 1] == END
      && (forall i :: 1 <= i < |r| - 1 ==> IsToken(r[i]))
      && Join(r[1..|r| - 1]) == Normalize(sentence)
      && ((forall i :: 0 <= i < |sentence| ==> IsSpace(sentence[i])) <==> r == [START, END])
  {
    var r := Wrap(sentence);
    SplitCount(sentence);
    SplitTokens(sentence);
    JoinSplit(sentence);
    SplitBlank(sentence);
    assert r[1..|r| - 1] == Split(sentence);
    if r == [START, END] {
      assert |Split(sentence)| == 0;
    }
  }

  /** `format_speech(list_of_sentences)`: one formatted utterance per input, in input order. */
  method FormatSpeech(sentences: seq<string>) returns (format: seq<seq<string>>)
    ensures |format| == |sentences|
    ensures forall i :: 0 <= i < |sentences| ==> format[i] == Wrap(sentences[i])
  {
    format := [];
    for i := 0 to |sentences|
      invariant |format| == i
      invariant forall j :: 0 <= j < i ==> format[j] == Wrap(sentences[j])
    {
      format := format + [[START] + Split(sentences[i]) + [END]];
    }
  }
}
