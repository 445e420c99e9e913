/**
  MarkdownDetector: is_markdown and get_markdown_confidence count, over the
  non-blank lines of the content, how many of the twelve MARKDOWN_PATTERNS
  match.
*/
module MarkdownDetector {
  import opened Wrappers
  import opened RealArith
  import opened MarkdownText
  import opened MarkdownHeading

  /** The number of entries of MARKDOWN_PATTERNS; pattern 0, "heading", is
      the first in dict order. */
  const PatternCount: nat := 12

  /** re.search(MARKDOWN_PATTERNS[p], line, re.MULTILINE) for the patterns
      1 to 11 in dict order (bold, italic, code_inline, code_block, link,
      list_unordered, list_ordered, blockquote, horizontal_rule, table,
      emphasis); the regular expression engine is a parameter of the model. */
  type Matcher = (string, nat) -> bool

  /** Whether pattern p matches the line. Pattern 0, ^#{1,6}\s+, matches a
      line without a newline exactly when the heading recogniser accepts it. */
  function MatchesPattern(m: Matcher, line: string, p: nat): bool {
    if p == 0 then Heading(line).Some? else m(line, p)
  }

  /** The number of patterns among the first n that match the line. */
  function Hits(m: Matcher, line: string, n: nat): (r: nat)
    ensures r <= n
  {
    if n == 0 then 0 else Hits(m, line, n - 1) + (if MatchesPattern(m, line, n - 1) then 1 else 0)
  }

  /** Some pattern matches the line. */
  predicate AnyMatch(m: Matcher, line: string) {
    exists p | 0 <= p < PatternCount :: MatchesPattern(m, line, p)
  }

  /** The number of non-blank lines (`if line.strip()`). */
  function NonBlankCount(lines: seq<string>): (r: nat)
    ensures r <= |lines|
  {
    if lines == [] then 0
    else NonBlankCount(lines[..|lines| - 1]) + (if IsBlank(lines[|lines| - 1]) then 0 else 1)
  }

  /** The number of (non-blank line, matching pattern) pairs: markdown_score. */
  function Score(m: Matcher, lines: seq<string>): nat {
    if lines == [] then 0
    else
      var last := lines[|lines| - 1];
      Score(m, lines[..|lines| - 1]) + (if IsBlank(last) then 0 else Hits(m, last, PatternCount))
  }

  /** The number of non-blank lines that some pattern matches: markdown_count. */
  function MatchedLines(m: Matcher, lines: seq<string>): (r: nat)
    ensures r <= NonBlankCount(lines)
  {
    if lines == [] then 0
    else
      var last := lines[|lines| - 1];
      MatchedLines(m, lines[..|lines| - 1]) + (if !IsBlank(last) && AnyMatch(m, last) then 1 else 0)
  }

  /** What is_markdown(content) returns: false for empty content or content
      without a non-blank line, and otherwise whether the matches exceed 20%
      of the (line, pattern) pairs checked, PatternCount = 12 per line. */
  predicate IsMarkdownOf(m: Matcher, content: string) {
    var lines := Split(content);
    content != "" && NonBlankCount(lines) > 0 &&
    100 * Score(m, lines) > 20 * (12 * NonBlankCount(lines))
  }

  /** What get_markdown_confidence(content) returns: the share of non-blank
      lines that some pattern matches, 0 when there is none. */
  function ConfidenceOf(m: Matcher, content: string): real {
    var lines := Split(content);
    if content == "" || NonBlankCount(lines) == 0 then 0.0
    else MatchedLines(m, lines) as real / NonBlankCount(lines) as real
  }

  /** MarkdownDetector.is_markdown(content). */
  method IsMarkdown(m: Matcher, content: string) returns (b: bool)
    ensures b == IsMarkdownOf(m, content)
  {
    if content == "" {
      return false;
    }
    var lines := Split(content);
    var markdownScore := 0;
    var totalPatternsChecked := 0;
    var i := 0;
    while i < |lines|
      invariant 0 <= i <= |lines|
      invariant markdownScore == Score(m, lines[..i])
      invariant totalPatternsChecked == 12 * NonBlankCount(lines[..i])
    {
      var line := lines[i];
      assert lines[..i + 1][..i] == lines[..i] && lines[..i + 1][i] == line;
      StripCorrect(line);
      if Strip(line) != "" {
        var p := 0;
        while p < PatternCount
          invariant 0 <= p <= PatternCount
          invariant markdownScore == Score(m, lines[..i]) + Hits(m, line, p)
          invariant totalPatternsChecked == 12 * NonBlankCount(lines[..i]) + p
        {
          totalPatternsChecked := totalPatternsChecked + 1;
          if MatchesPattern(m, line, p) {
            markdownScore := markdownScore + 1;
          }
          p := p + 1;
        }
      }
      i := i + 1;
    }
    assert lines[..i] == lines;
    if totalPatternsChecked > 0 {
      var markdownPercentage := (markdownScore as real / totalPatternsChecked as real) * 100.0;
      PercentageAbove(markdownScore, totalPatternsChecked);
      return markdownPercentage > 20.0;
    }
    return false;
  }

  /** (score / total) * 100 > 20 is 100 * score > 20 * total. */
  lemma PercentageAbove(score: nat, total: nat)
    requires total > 0
    ensures (score as real / total as real) * 100.0 > 20.0 <==> 100 * score > 20 * total
  {
    ShareCompare(score, total, 0.2);
    assert (100 * score) as real == 100.0 * score as real;
    assert (20 * total) as real == 20.0 * total as real;
  }

  /** The share k / n of n > 0. */
  lemma ShareBounds(k: nat, n: nat)
    requires n > 0
    ensures var c := k as real / n as real;
      && 0.0 <= c
      && (k <= n ==> c <= 1.0)
      && (c == 0.0 <==> k == 0)
      && (c == 1.0 <==> k == n)
      && (5 * k > n ==> c > 0.2)
  {
    ShareCompare(k, n, 0.0);
    ShareCompare(k, n, 1.0);
    ShareCompare(k, n, 0.2);
    assert (5 * k) as real == 5.0 * k as real;
  }

  /** MarkdownDetector.get_markdown_confidence(content). */
  method GetMarkdownConfidence(m: Matcher, content: string) returns (c: real)
    ensures c == ConfidenceOf(m, content)
  {
    if content == "" {
      return 0.0;
    }
    var lines := Split(content);
    var markdownCount := 0;
    var totalLines := NonBlankCount(lines);
    if totalLines == 0 {
      return 0.0;
    }
    var i := 0;
    while i < |lines|
      invariant 0 <= i <= |lines|
      invariant markdownCount == MatchedLines(m, lines[..i])
    {
      var line := lines[i];
      assert lines[..i + 1][..i] == lines[..i] && lines[..i + 1][i] == line;
      StripCorrect(line);
      if Strip(line) != "" {
        var found := FirstMatch(m, line);
        if found {
          markdownCount := markdownCount + 1;
        }
      }
      i := i + 1;
    }
    assert lines[..i] == lines;
    var ratio := markdownCount as real / totalLines as real;
    ConfidenceRange(m, content);
    c := if ratio <= 1.0 then ratio else 1.0;
  }

  /** The inner loop of get_markdown_confidence: stops at the first pattern
      that matches. */
  method FirstMatch(m: Matcher, line: string) returns (found: bool)
    ensures found == AnyMatch(m, line)
  {
    found := false;
    var p := 0;
    while p < PatternCount
      invariant 0 <= p <= PatternCount
      invariant forall q | 0 <= q < p :: !MatchesPattern(m, line, q)
    {
      if MatchesPattern(m, line, p) {
        found := true;
        break;
      }
      p := p + 1;
    }
  }

  /** The confidence lies in [0, 1]; it is 0 exactly when no non-blank line
      matches and 1 exactly when every non-blank line does. */
  lemma ConfidenceRange(m: Matcher, content: string)
    ensures var c := ConfidenceOf(m, content);
      var lines := Split(content);
      && 0.0 <= c <= 1.0
      && (c == 0.0 <==> content == "" || MatchedLines(m, lines) == 0)
      && (c == 1.0 <==> content != "" && NonBlankCount(lines) > 0 && MatchedLines(m, lines) == NonBlankCount(lines))
  {
    var lines := Split(content);
    var k, n := MatchedLines(m, lines), NonBlankCount(lines);
    if content != "" && n > 0 {
      ShareBounds(k, n);
    }
  }

  /** A line matches some pattern exactly when it has a hit. */
  lemma {:induction false} HitsAny(m: Matcher, line: string, n: nat)
    ensures Hits(m, line, n) > 0 <==> exists p | 0 <= p < n :: MatchesPattern(m, line, p)
  {
    if n > 0 {
      HitsAny(m, line, n - 1);
    }
  }

  /** Each matched line contributes one to twelve pattern matches, every
      other line none. */
  lemma {:induction false} ScoreBounds(m: Matcher, lines: seq<string>)
    ensures MatchedLines(m, lines) <= Score(m, lines) <= 12 * MatchedLines(m, lines)
  {
    if lines != [] {
      var last := lines[|lines| - 1];
      ScoreBounds(m, lines[..|lines| - 1]);
      HitsAny(m, last, PatternCount);
    }
  }

  /** Content detected as markdown has a confidence above 0.2: the 20%
      share of matches needs more than a fifth of the lines to match. */
  lemma MarkdownConfidence(m: Matcher, content: string)
    requires IsMarkdownOf(m, content)
    ensures ConfidenceOf(m, content) > 0.2
  {
    var lines := Split(content);
    ScoreBounds(m, lines);
    var k, n := MatchedLines(m, lines), NonBlankCount(lines);
    assert 5 * k > n;
    ShareBounds(k, n);
  }

  /** Empty or blank content is not markdown and has confidence 0. */
  lemma BlankContent(m: Matcher, content: string)
    requires forall k | 0 <= k < |Split(content)| :: IsBlank(Split(content)[k])
    ensures !IsMarkdownOf(m, content) && ConfidenceOf(m, content) == 0.0
  {
    NoNonBlank(Split(content));
  }

  lemma {:induction false} NoNonBlank(lines: seq<string>)
    requires forall k | 0 <= k < |lines| :: IsBlank(lines[k])
    ensures NonBlankCount(lines) == 0
  {
    if lines != [] {
      NoNonBlank(lines[..|lines| - 1]);
    }
  }

  /** 20% of twelve patterns is 2.4 matches per line: when every non-blank
      line matches at least three patterns the content is markdown, and when
      every line matches at most two it is not. */
  lemma MatchesPerLine(m: Matcher, content: string)
    ensures var lines := Split(content);
      content != "" && NonBlankCount(lines) > 0 &&
      (forall k | 0 <= k < |lines| && !IsBlank(lines[k]) :: Hits(m, lines[k], PatternCount) >= 3)
      ==> IsMarkdownOf(m, content)
    ensures var lines := Split(content);
      (forall k | 0 <= k < |lines| :: Hits(m, lines[k], PatternCount) <= 2)
      ==> !IsMarkdownOf(m, content)
  {
    var lines := Split(content);
    if forall k | 0 <= k < |lines| && !IsBlank(lines[k]) :: Hits(m, lines[k], PatternCount) >= 3 {
      ScoreAtLeastThree(m, lines);
      assert 100 * Score(m, lines) >= 300 * NonBlankCount(lines);
    }
    if forall k | 0 <= k < |lines| :: Hits(m, lines[k], PatternCount) <= 2 {
      ScoreAtMostTwo(m, lines);
      assert 100 * Score(m, lines) <= 200 * NonBlankCount(lines);
    }
  }

  /** Lines that each match three patterns or more give a score of at
      least three per line. */
  lemma {:induction false} ScoreAtLeastThree(m: Matcher, lines: seq<string>)
    requires forall k | 0 <= k < |lines| && !IsBlank(lines[k]) :: Hits(m, lines[k], PatternCount) >= 3
    ensures Score(m, lines) >= 3 * NonBlankCount(lines)
  {
    if lines != [] {
      var init := lines[..|lines| - 1];
      assert forall k | 0 <= k < |init| :: init[k] == lines[k];
      ScoreAtLeastThree(m, init);
    }
  }

  /** Lines that each match two patterns or fewer give a score of at most
      two per line. */
  lemma {:induction false} ScoreAtMostTwo(m: Matcher, lines: seq<string>)
    requires forall k | 0 <= k < |lines| :: Hits(m, lines[k], PatternCount) <= 2
    ensures Score(m, lines) <= 2 * NonBlankCount(lines)
  {
    if lines != [] {
      var init := lines[..|lines| - 1];
      assert forall k | 0 <= k < |init| :: init[k] == lines[k];
      ScoreAtMostTwo(m, init);
    }
  }
}
