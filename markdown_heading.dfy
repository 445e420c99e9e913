/**
  The ATX heading recogniser of the markdown utilities: re.match of
  ^(#{1,6})\s+(.*) on a line. Group 1 is the run of '#', group 2 the text
  after the whitespace. The detector's "heading" pattern ^#{1,6}\s+ matches
  exactly the lines this recogniser accepts.
*/
module MarkdownHeading {
  import opened Wrappers
  import opened MarkdownText

  /** The number of '#' the line starts with. */
  function LeadingHashes(s: string): (n: nat)
    ensures n <= |s|
  {
    if s != [] && s[0] == '#' then 1 + LeadingHashes(s[1..]) else 0
  }

  /** The run of '#' is all of the leading '#'. */
  lemma LeadingHashesCorrect(s: string)
    ensures var n := LeadingHashes(s);
      (forall k | 0 <= k < n :: s[k] == '#') && (n < |s| ==> s[n] != '#')
  {
    if s != [] && s[0] == '#' {
      LeadingHashesCorrect(s[1..]);
    }
  }

  /** The longest prefix without a newline: what (.*) matches. */
  function UpToNewline(s: string): (r: string)
    ensures |r| <= |s|
  {
    if s == [] || s[0] == '\n' then [] else [s[0]] + UpToNewline(s[1..])
  }

  /** (.*) stops at the first newline. */
  lemma UpToNewlineCorrect(s: string)
    ensures var r := UpToNewline(s);
      r == s[..|r|] && '\n' !in r && (|r| < |s| ==> s[|r|] == '\n')
  {
    if s != [] && s[0] != '\n' {
      UpToNewlineCorrect(s[1..]);
    }
  }

  /** A recognised heading: its level and its text (groups 1 and 2). */
  datatype HeadingLine = HeadingLine(level: nat, text: string)

  /** re.match(r"^(#{1,6})\s+(.*)", line). #{1,6} and \s+ are greedy and
      backtracking cannot find a shorter run of '#' followed by whitespace,
      so the match, when there is one, takes all the leading '#' and all the
      whitespace after them. */
  function Heading(line: string): (h: Option<HeadingLine>)
    ensures h.Some? ==> 1 <= h.value.level <= 6
  {
    var n := LeadingHashes(line);
    if 1 <= n <= 6 && n < |line| && IsSpace(line[n]) then
      Some(HeadingLine(n, UpToNewline(TrimLeft(line[n..]))))
    else None
  }

  /** A line is a heading of level n exactly when it starts with n '#',
      1 <= n <= 6, followed by a whitespace character; so the level is the
      number of leading '#', and a line of seven or more '#' is no heading. */
  lemma HeadingLevel(line: string, n: nat)
    ensures (Heading(line).Some? && Heading(line).value.level == n) <==>
      (1 <= n <= 6 && n < |line| && (forall k | 0 <= k < n :: line[k] == '#') && IsSpace(line[n]))
  {
    LeadingHashesCorrect(line);
  }

  /** A line that starts with seven '#' is not a heading. */
  lemma SevenHashesNoHeading(line: string)
    requires |line| >= 7 && forall k | 0 <= k < 7 :: line[k] == '#'
    ensures Heading(line).None?
  {
    LeadingHashesCorrect(line);
  }

  /** The text of a heading is the rest of the line after the '#' and the
      whitespace run that follows them, up to a newline if any. */
  lemma HeadingText(line: string)
    requires Heading(line).Some?
    ensures var h := Heading(line).value;
      exists m | h.level < m <= |line| ::
        && IsBlank(line[h.level..m])
        && (m < |line| ==> !IsSpace(line[m]))
        && m + |h.text| <= |line| && line[m..m + |h.text|] == h.text
        && '\n' !in h.text
        && (m + |h.text| == |line| || line[m + |h.text|] == '\n')
  {
    var h := Heading(line).value;
    var rest := line[h.level..];
    var t := TrimLeft(rest);
    var m := h.level + (|rest| - |t|);
    TrimLeftCorrect(rest);
    UpToNewlineCorrect(t);
    assert line[m..] == t;
    assert line[h.level..m] == rest[..|rest| - |t|];
    assert t != [] ==> t[0] == line[m];
    assert line[m..m + |h.text|] == t[..|h.text|];
  }
}
