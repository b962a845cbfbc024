/** The two computations of the PDF report (`PdfUtils.kt`) that are not
    drawing: the confidence shown for each detection, and the greedy word
    wrap of the closing comment. The text measurer of the paint is a
    parameter. */
module Report {
  import opened Wrappers
  import opened Text

  // ---------------------------------------------------------------------
  // Confidence display

  /** The confidence printed for a detection: low scores are raised by 0.4,
      middle scores by 0.3, high scores kept, and the result capped at 1. */
  function DisplayConfidence(cnf: real): (d: real)
    ensures d <= 1.0
    ensures cnf <= 1.0 ==> cnf <= d
    ensures 0.0 <= cnf ==> 0.4 <= d
    ensures d == 1.0 || d == cnf || d == cnf + 0.3 || d == cnf + 0.4
  {
    var raised := if cnf < 0.5 then cnf + 0.4 else if cnf < 0.85 then cnf + 0.3 else cnf;
    if raised > 1.0 then 1.0 else raised
  }

  /** The uplift is the one of the band the score falls in. */
  lemma DisplayBands(cnf: real)
    ensures cnf < 0.5 ==> DisplayConfidence(cnf) == cnf + 0.4
    ensures 0.5 <= cnf < 0.7 ==> DisplayConfidence(cnf) == cnf + 0.3
    ensures 0.7 <= cnf < 0.85 ==> DisplayConfidence(cnf) == 1.0
    ensures 0.85 <= cnf <= 1.0 ==> DisplayConfidence(cnf) == cnf
    ensures 1.0 < cnf ==> DisplayConfidence(cnf) == 1.0
  {
  }

  /** Within a band a higher score is never shown lower. */
  lemma DisplayMonotoneInBand(a: real, b: real)
    requires a <= b
    requires (b < 0.5) || (0.5 <= a && b < 0.85) || (0.85 <= a)
    ensures DisplayConfidence(a) <= DisplayConfidence(b)
  {
  }

  /** Across the band boundary at 0.5 the order of scores is reversed: a
      score of 0.49 is shown as 0.89, a score of 0.5 as 0.8. */
  lemma DisplayNotMonotone()
    ensures DisplayConfidence(0.49) == 0.89 && DisplayConfidence(0.5) == 0.8
    ensures DisplayConfidence(0.49) > DisplayConfidence(0.5)
  {
  }

  /** Kotlin's `Float.toInt()`: rounds toward zero and saturates at the
      bounds of `Int`. */
  function ToInt(x: real): (n: int)
    ensures IntMin <= n <= IntMax
    ensures x >= IntMax as real ==> n == IntMax
    ensures x <= IntMin as real ==> n == IntMin
    ensures 0.0 <= x && x < IntMax as real ==> n as real <= x < n as real + 1.0
    ensures IntMin as real < x && x < 0.0 ==> n as real - 1.0 < x <= n as real
  {
    var t := if x >= 0.0 then x.Floor else -((-x).Floor);
    if t > IntMax then IntMax else if t < IntMin then IntMin else t
  }

  /** The percentage printed: `(confidence * 100).toInt()`. */
  function Percent(confidence: real): (pct: int)
  {
    ToInt(confidence * 100.0)
  }

  /** For a displayed confidence the percentage is a whole number from 0
      to 100, the largest not above `confidence * 100`. */
  lemma PercentBounds(confidence: real)
    requires 0.0 <= confidence <= 1.0
    ensures 0 <= Percent(confidence) <= 100
    ensures Percent(confidence) as real <= confidence * 100.0 < Percent(confidence) as real + 1.0
  {
  }

  /** Every detection clears the 0.15 threshold, so the report never
      prints less than 55%. */
  lemma DetectionPercentAtLeast55(cnf: real)
    requires 0.15 < cnf
    ensures 55 <= Percent(DisplayConfidence(cnf)) <= 100
  {
    PercentBounds(DisplayConfidence(cnf));
  }

  // ---------------------------------------------------------------------
  // Word wrap

  /** The `for (word in words)` loop of `splitTextIntoLines`, from the
      given finished lines and current line. */
  function WrapWords(words: seq<string>, measure: string -> real, maxWidth: real,
                     lines: seq<string>, line: string): (r: (seq<string>, string))
    decreases |words|
  {
    if |words| == 0 then (lines, line)
    else
      var word := words[0];
      var testLine := if |line| == 0 then word else line + " " + word;
      if measure(testLine) > maxWidth then WrapWords(words[1..], measure, maxWidth, lines + [line], word)
      else WrapWords(words[1..], measure, maxWidth, lines, testLine)
  }

  /** `splitTextIntoLines(text, paint, maxWidth)`, with `paint.measureText`
      as `measure`. */
  function SplitTextIntoLines(text: string, measure: string -> real, maxWidth: real): (lines: seq<string>)
  {
    var (lines, line) := WrapWords(Split(text, ' '), measure, maxWidth, [], "");
    if |line| != 0 then lines + [line] else lines
  }

  /** A line is within the width, or is a single word. */
  predicate WithinWidth(l: string, measure: string -> real, maxWidth: real)
  {
    ' ' !in l || measure(l) <= maxWidth
  }

  lemma {:induction false} WrapWithinWidth(words: seq<string>, measure: string -> real, maxWidth: real,
                                           lines: seq<string>, line: string)
    requires forall k :: 0 <= k < |words| ==> ' ' !in words[k]
    requires forall k :: 0 <= k < |lines| ==> WithinWidth(lines[k], measure, maxWidth)
    requires WithinWidth(line, measure, maxWidth)
    ensures var (ls, ln) := WrapWords(words, measure, maxWidth, lines, line);
      (forall k :: 0 <= k < |ls| ==> WithinWidth(ls[k], measure, maxWidth)) && WithinWidth(ln, measure, maxWidth)
    decreases |words|
  {
    if |words| > 0 {
      var word := words[0];
      var testLine := if |line| == 0 then word else line + " " + word;
      if measure(testLine) > maxWidth {
        WrapWithinWidth(words[1..], measure, maxWidth, lines + [line], word);
      } else {
        WrapWithinWidth(words[1..], measure, maxWidth, lines, testLine);
      }
    }
  }

  /** Every line holding more than one word fits the width: only a single
      word wider than the page can overflow. */
  lemma LinesWithinWidth(text: string, measure: string -> real, maxWidth: real)
    ensures forall l :: l in SplitTextIntoLines(text, measure, maxWidth) ==> WithinWidth(l, measure, maxWidth)
  {
    var (lines, line) := WrapWords(Split(text, ' '), measure, maxWidth, [], "");
    WrapWithinWidth(Split(text, ' '), measure, maxWidth, [], "");
  }

  /** Some word of `all` is wider than the page on its own. */
  predicate SomeWordTooWide(all: seq<string>, measure: string -> real, maxWidth: real)
  {
    exists k :: 0 <= k < |all| && measure(all[k]) > maxWidth
  }

  lemma {:induction false} WrapEmptyLines(words: seq<string>, all: seq<string>, measure: string -> real,
                                          maxWidth: real, lines: seq<string>, line: string)
    requires forall k :: 0 <= k < |words| ==> words[k] in all
    requires "" in lines ==> SomeWordTooWide(all, measure, maxWidth)
    ensures "" in WrapWords(words, measure, maxWidth, lines, line).0 ==> SomeWordTooWide(all, measure, maxWidth)
    decreases |words|
  {
    if |words| > 0 {
      var word := words[0];
      var testLine := if |line| == 0 then word else line + " " + word;
      assert word in all;
      forall k | 0 <= k < |words[1..]|
        ensures words[1..][k] in all
      {
        assert words[1..][k] == words[k + 1];
      }
      if measure(testLine) > maxWidth {
        if line == "" {
          var j :| 0 <= j < |all| && all[j] == word;
          assert measure(all[j]) > maxWidth;
        }
        WrapEmptyLines(words[1..], all, measure, maxWidth, lines + [line], word);
      } else {
        WrapEmptyLines(words[1..], all, measure, maxWidth, lines, testLine);
      }
    }
  }

  /** An empty line is emitted only when a word alone is wider than the
      page while the current line is empty. */
  lemma EmptyLineOnlyForWideWord(text: string, measure: string -> real, maxWidth: real)
    ensures "" in SplitTextIntoLines(text, measure, maxWidth) ==>
      SomeWordTooWide(Split(text, ' '), measure, maxWidth)
  {
    var words := Split(text, ' ');
    WrapEmptyLines(words, words, measure, maxWidth, [], "");
  }

  /** Joining a list with one more element. */
  lemma {:induction false} JoinAppend(xs: seq<string>, y: string, sep: char)
    ensures Join(xs + [y], sep) == if |xs| == 0 then y else Join(xs, sep) + [sep] + y
    decreases |xs|
  {
    if |xs| == 1 {
      assert xs + [y] == [xs[0], y];
    } else if |xs| > 1 {
      assert (xs + [y])[1..] == xs[1..] + [y];
      JoinAppend(xs[1..], y, sep);
    }
  }

  /** Joining is associative with the separator inserted between a
      non-empty prefix of parts and the rest. */
  lemma {:induction false} JoinCons(x: string, xs: seq<string>, sep: char)
    requires |xs| > 0
    ensures Join([x] + xs, sep) == x + [sep] + Join(xs, sep)
  {
    assert ([x] + xs)[1..] == xs;
  }

  /** The loop only ever appends to the finished lines. */
  lemma {:induction false} WrapKeepsLines(words: seq<string>, measure: string -> real, maxWidth: real,
                                          lines: seq<string>, line: string)
    ensures var ls := WrapWords(words, measure, maxWidth, lines, line).0;
      |lines| <= |ls| && ls[..|lines|] == lines
    decreases |words|
  {
    if |words| > 0 {
      var word := words[0];
      var testLine := if |line| == 0 then word else line + " " + word;
      if measure(testLine) > maxWidth {
        WrapKeepsLines(words[1..], measure, maxWidth, lines + [line], word);
        var ls := WrapWords(words, measure, maxWidth, lines, line).0;
        assert ls[..|lines|] == ls[..|lines| + 1][..|lines|];
      } else {
        WrapKeepsLines(words[1..], measure, maxWidth, lines, testLine);
      }
    }
  }

  /** The text still to come after `done`, glued on with single spaces. */
  function Continue(done: string, words: seq<string>): (s: string)
  {
    if |words| == 0 then done else done + " " + Join(words, ' ')
  }

  /** Moving the next word into `done` does not change the whole. */
  lemma ContinueStep(done: string, words: seq<string>)
    requires |words| > 0
    ensures Continue(done + " " + words[0], words[1..]) == Continue(done, words)
  {
    if |words| > 1 {
      JoinCons(words[0], words[1..], ' ');
      assert [words[0]] + words[1..] == words;
    }
  }

  /** The invariant of the wrap loop when no word is empty: the lines after
      the optional leading empty one, followed by the current line, are the
      words seen so far glued with single spaces. */
  lemma {:induction false} WrapContent(words: seq<string>, measure: string -> real, maxWidth: real,
                                       pre: seq<string>, body: seq<string>, line: string, done: string)
    requires forall k :: 0 <= k < |words| ==> words[k] != ""
    requires line != "" && forall k :: 0 <= k < |body| ==> body[k] != ""
    requires Join(body + [line], ' ') == done
    ensures var (ls, ln) := WrapWords(words, measure, maxWidth, pre + body, line);
      && ln != ""
      && |pre| <= |ls| && ls[..|pre|] == pre
      && (forall k :: |pre| <= k < |ls| ==> ls[k] != "")
      && Join(ls[|pre|..] + [ln], ' ') == Continue(done, words)
    decreases |words|
  {
    if |words| > 0 {
      var word := words[0];
      var testLine := line + " " + word;
      JoinStep(body, line, word, done);
      ContinueStep(done, words);
      if measure(testLine) > maxWidth {
        assert pre + body + [line] == pre + (body + [line]);
        WrapContent(words[1..], measure, maxWidth, pre, body + [line], word, done + " " + word);
      } else {
        WrapContent(words[1..], measure, maxWidth, pre, body, testLine, done + " " + word);
      }
    } else {
      assert (pre + body)[|pre|..] == body;
    }
  }

  /** Both moves of the loop add one space and the word to the joined
      text: closing the line, or extending it. */
  lemma JoinStep(body: seq<string>, line: string, word: string, done: string)
    requires Join(body + [line], ' ') == done
    ensures Join(body + [line] + [word], ' ') == done + " " + word
    ensures Join(body + [line + " " + word], ' ') == done + " " + word
  {
    JoinAppend(body + [line], word, ' ');
    JoinAppend(body, line, ' ');
    JoinAppend(body, line + " " + word, ' ');
  }

  /** For text without empty words (no leading, trailing or doubled
      spaces) the wrap loses nothing: apart from one leading empty line,
      present exactly when the first word alone is too wide, the lines are
      non-empty and, joined with single spaces, give back the text. */
  lemma WrapPreservesText(text: string, measure: string -> real, maxWidth: real)
    requires forall k :: 0 <= k < |Split(text, ' ')| ==> Split(text, ' ')[k] != ""
    ensures var lines := SplitTextIntoLines(text, measure, maxWidth);
      var skip := if measure(Split(text, ' ')[0]) > maxWidth then 1 else 0;
      && |lines| > skip
      && (skip == 1 ==> lines[0] == "")
      && (forall k :: skip <= k < |lines| ==> lines[k] != "")
      && Join(lines[skip..], ' ') == text
  {
    var words := Split(text, ' ');
    var w := words[0];
    var pre: seq<string> := if measure(w) > maxWidth then [""] else [];
    if measure(w) > maxWidth {
      var none: seq<string> := [];
      assert none + [""] == pre + [];
    }
    assert WrapWords(words, measure, maxWidth, [], "") == WrapWords(words[1..], measure, maxWidth, pre + [], w);
    WrapContent(words[1..], measure, maxWidth, pre, [], w, w);
    var (ls, ln) := WrapWords(words[1..], measure, maxWidth, pre + [], w);
    var lines := ls + [ln];
    assert SplitTextIntoLines(text, measure, maxWidth) == lines;
    assert lines[|pre|..] == ls[|pre|..] + [ln];
    JoinSplit(text, ' ');
    if |words| > 1 {
      JoinCons(w, words[1..], ' ');
      assert [w] + words[1..] == words;
    } else {
      assert words == [w];
    }
  }

  // ---------------------------------------------------------------------
  // The empty first line

  /** The measure of a monospaced font whose characters are one unit wide. */
  function Monospace(): (measure: string -> real)
  {
    (l: string) => |l| as real
  }

  /** A first word wider than the page is preceded by an empty line: the
      loop pushes the still-empty current line before starting the word's. */
  lemma WideFirstWordGivesEmptyLine()
    ensures SplitTextIntoLines("ab", Monospace(), 1.0) == ["", "ab"]
  {
    SplitNoSeparator("ab", ' ');
    var none: seq<string> := [];
    assert WrapWords(["ab"], Monospace(), 1.0, [], "") == WrapWords([], Monospace(), 1.0, none + [""], "ab");
  }

  /** The loop with the line pushed only when it holds something, which is
      what the emptiness test on the first word evidently intends. */
  function WrapWordsNonEmpty(words: seq<string>, measure: string -> real, maxWidth: real,
                             lines: seq<string>, line: string): (r: (seq<string>, string))
    decreases |words|
  {
    if |words| == 0 then (lines, line)
    else
      var word := words[0];
      var testLine := if |line| == 0 then word else line + " " + word;
      if measure(testLine) > maxWidth && |line| != 0 then
        WrapWordsNonEmpty(words[1..], measure, maxWidth, lines + [line], word)
      else WrapWordsNonEmpty(words[1..], measure, maxWidth, lines, testLine)
  }

  /** `splitTextIntoLines` with the corrected loop. */
  function SplitTextIntoLinesNonEmpty(text: string, measure: string -> real, maxWidth: real): (lines: seq<string>)
  {
    var (lines, line) := WrapWordsNonEmpty(Split(text, ' '), measure, maxWidth, [], "");
    if |line| != 0 then lines + [line] else lines
  }

  /** Once the current line holds something, and no word is empty, the
      corrected loop and the loop as written take the same steps. */
  lemma {:induction false} NonEmptyAgrees(words: seq<string>, measure: string -> real, maxWidth: real,
                                          lines: seq<string>, line: string)
    requires forall k :: 0 <= k < |words| ==> words[k] != ""
    requires line != ""
    ensures WrapWordsNonEmpty(words, measure, maxWidth, lines, line) == WrapWords(words, measure, maxWidth, lines, line)
    decreases |words|
  {
    if |words| > 0 {
      var word := words[0];
      var testLine := line + " " + word;
      if measure(testLine) > maxWidth {
        NonEmptyAgrees(words[1..], measure, maxWidth, lines + [line], word);
      } else {
        NonEmptyAgrees(words[1..], measure, maxWidth, lines, testLine);
      }
    }
  }

  /** For text without empty words the corrected wrap emits no empty line,
      keeps every line of several words within the width, and loses
      nothing of the text. */
  lemma NonEmptyWrapPreservesText(text: string, measure: string -> real, maxWidth: real)
    requires forall k :: 0 <= k < |Split(text, ' ')| ==> Split(text, ' ')[k] != ""
    ensures var lines := SplitTextIntoLinesNonEmpty(text, measure, maxWidth);
      && |lines| >= 1
      && (forall k :: 0 <= k < |lines| ==> lines[k] != "" && WithinWidth(lines[k], measure, maxWidth))
      && Join(lines, ' ') == text
  {
    var words := Split(text, ' ');
    var w := words[0];
    var none: seq<string> := [];
    assert WrapWordsNonEmpty(words, measure, maxWidth, [], "") == WrapWordsNonEmpty(words[1..], measure, maxWidth, none, w);
    NonEmptyAgrees(words[1..], measure, maxWidth, none, w);
    assert none + none == none;
    WrapContent(words[1..], measure, maxWidth, none, none, w, w);
    WrapWithinWidth(words[1..], measure, maxWidth, none, w);
    var (ls, ln) := WrapWords(words[1..], measure, maxWidth, none, w);
    assert ls[|none|..] == ls;
    assert SplitTextIntoLinesNonEmpty(text, measure, maxWidth) == ls + [ln];
    JoinSplit(text, ' ');
    if |words| > 1 {
      JoinCons(w, words[1..], ' ');
      assert [w] + words[1..] == words;
    } else {
      assert words == [w];
    }
  }
}
