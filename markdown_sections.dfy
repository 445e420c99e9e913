/**
  MarkdownFormatter.extract_sections: splits content into sections, one per
  heading line with a non-empty text, each holding the stripped lines up to
  the next heading line.
*/
module MarkdownSections {
  import opened Wrappers
  import opened MarkdownText
  import opened MarkdownHeading

  /** One dict of the returned list: heading, level and content. */
  datatype Section = Section(heading: string, level: nat, content: string)

  predicate IsHeading(line: string) {
    Heading(line).Some?
  }

  /** The lines before the next heading line. */
  function Body(lines: seq<string>): (b: seq<string>)
    ensures |b| <= |lines| && b == lines[..|b|]
    ensures forall k | 0 <= k < |b| :: !IsHeading(lines[k])
    ensures |b| < |lines| ==> IsHeading(lines[|b|])
  {
    if lines == [] || IsHeading(lines[0]) then []
    else
      var b := Body(lines[1..]);
      assert forall k | 1 <= k < 1 + |b| :: lines[k] == lines[1..][k - 1];
      assert [lines[0]] + b == lines[..1 + |b|];
      assert 1 + |b| < |lines| ==> lines[1 + |b|] == lines[1..][|b|];
      [lines[0]] + b
  }

  /** The section a heading with this text opens over these lines, if any: a
      heading whose text is empty opens none (`if current_section:`). */
  function Open(text: string, level: nat, body: seq<string>): seq<Section> {
    if text != "" then [Section(text, level, Strip(Join(body)))] else []
  }

  /** The sections of a sequence of lines, read heading by heading: the
      lines before the first heading belong to no section, and each heading
      takes the lines up to the next heading. */
  function SectionsOf(lines: seq<string>): seq<Section>
    decreases |lines|
  {
    if lines == [] then []
    else match Heading(lines[0])
      case None => SectionsOf(lines[1..])
      case Some(h) =>
        var rest := lines[1..];
        var body := Body(rest);
        Open(h.text, h.level, body) + SectionsOf(rest[|body|..])
  }

  /** What is still to come when the open section has heading `current`,
      level `level` and lines `content`, the finished sections are `done`,
      and `rest` is still to be read. */
  function Pending(done: seq<Section>, current: string, level: nat, content: seq<string>,
                   rest: seq<string>): seq<Section>
  {
    var body := Body(rest);
    done + Open(current, level, content + body) + SectionsOf(rest[|body|..])
  }

  /** extract_sections(content). */
  method ExtractSections(content: string) returns (sections: seq<Section>)
    ensures sections == SectionsOf(Split(content))
  {
    sections := [];
    var lines := Split(content);
    var currentSection := "";
    var currentLevel := 0;
    var currentContent: seq<string> := [];
    ghost var expected := SectionsOf(lines);
    SkipPreamble(lines);
    var i := 0;
    while i < |lines|
      invariant 0 <= i <= |lines|
      invariant currentSection == "" ==> currentContent == []
      invariant Pending(sections, currentSection, currentLevel, currentContent, lines[i..]) == expected
    {
      ghost var rest := lines[i..];
      assert rest[0] == lines[i] && rest[1..] == lines[i + 1..];
      var headingMatch := Heading(lines[i]);
      if headingMatch.Some? {
        ReadHeading(sections, currentSection, currentLevel, currentContent, rest, headingMatch.value);
        ghost var closed := sections + Open(currentSection, currentLevel, currentContent);
        if currentSection != "" {
          sections := sections + [Section(currentSection, currentLevel, Strip(Join(currentContent)))];
          currentContent := [];
        }
        assert sections == closed;
        currentSection := headingMatch.value.text;
        currentLevel := headingMatch.value.level;
      } else {
        ReadText(sections, currentSection, currentLevel, currentContent, rest);
        if currentSection != "" {
          currentContent := currentContent + [lines[i]];
        }
      }
      i := i + 1;
    }
    PendingEnd(sections, currentSection, currentLevel, currentContent, lines[i..]);
    if currentSection != "" {
      sections := sections + [Section(currentSection, currentLevel, Strip(Join(currentContent)))];
    }
  }

  /** At the end of the lines only the open section is still to come. */
  lemma PendingEnd(done: seq<Section>, current: string, level: nat, content: seq<string>,
                   rest: seq<string>)
    requires rest == []
    ensures Pending(done, current, level, content, rest) == done + Open(current, level, content)
  {
    assert Body(rest) == [] && rest[0..] == [];
    assert content + [] == content;
  }

  /** The lines before the first heading change nothing. */
  lemma {:induction false} SkipPreamble(lines: seq<string>)
    ensures SectionsOf(lines[|Body(lines)|..]) == SectionsOf(lines)
  {
    if lines != [] && !IsHeading(lines[0]) {
      SkipPreamble(lines[1..]);
      assert lines[|Body(lines)|..] == lines[1..][|Body(lines[1..])|..];
    }
  }

  /** Reading a heading line closes the open section, if any, and opens
      the heading's. */
  lemma ReadHeading(done: seq<Section>, current: string, level: nat, content: seq<string>,
                    rest: seq<string>, h: HeadingLine)
    requires rest != [] && Heading(rest[0]) == Some(h)
    ensures Pending(done + Open(current, level, content), h.text, h.level, [], rest[1..]) ==
      Pending(done, current, level, content, rest)
  {
    var tail := rest[1..];
    assert Body(rest) == [];
    assert rest[0..] == rest;
    assert content + [] == content && [] + Body(tail) == Body(tail);
    assert SectionsOf(rest) == Open(h.text, h.level, Body(tail)) + SectionsOf(tail[|Body(tail)|..]);
  }

  /** Reading any other line adds it to the open section, if any. */
  lemma ReadText(done: seq<Section>, current: string, level: nat, content: seq<string>,
                 rest: seq<string>)
    requires rest != [] && Heading(rest[0]).None?
    ensures Pending(done, current, level, if current != "" then content + [rest[0]] else content, rest[1..]) ==
      Pending(done, current, level, content, rest)
  {
    var line, tail := rest[0], rest[1..];
    assert Body(rest) == [line] + Body(tail);
    assert rest[|Body(rest)|..] == tail[|Body(tail)|..];
    assert content + [line] + Body(tail) == content + Body(rest);
  }

  predicate IsTitled(line: string) {
    Heading(line).Some? && Heading(line).value.text != ""
  }

  /** The number of heading lines. */
  function HeadingCount(lines: seq<string>): nat {
    if lines == [] then 0 else (if IsHeading(lines[0]) then 1 else 0) + HeadingCount(lines[1..])
  }

  /** The texts of the heading lines whose text is not empty, in order. */
  function Titles(lines: seq<string>): (r: seq<string>)
    ensures |r| <= HeadingCount(lines)
  {
    if lines == [] then []
    else (if IsTitled(lines[0]) then [Heading(lines[0]).value.text] else []) + Titles(lines[1..])
  }

  /** The headings of the sections, in order. */
  function HeadingsOf(sections: seq<Section>): (r: seq<string>)
    ensures |r| == |sections| && forall k | 0 <= k < |r| :: r[k] == sections[k].heading
  {
    seq(|sections|, k requires 0 <= k < |sections| => sections[k].heading)
  }

  /** Lines that are not headings contribute no title. */
  lemma {:induction false} TitlesOfBody(lines: seq<string>)
    ensures Titles(lines) == Titles(lines[|Body(lines)|..])
  {
    if lines != [] && !IsHeading(lines[0]) {
      TitlesOfBody(lines[1..]);
      assert lines[|Body(lines)|..] == lines[1..][|Body(lines[1..])|..];
    }
  }

  /** The sections come out in heading order, one for each heading line with
      a non-empty text and no other. */
  lemma {:induction false} SectionHeadings(lines: seq<string>)
    ensures HeadingsOf(SectionsOf(lines)) == Titles(lines)
    decreases |lines|
  {
    if lines != [] {
      match Heading(lines[0])
      case None =>
        SectionHeadings(lines[1..]);
      case Some(h) =>
        var rest := lines[1..];
        var body := Body(rest);
        var tail := rest[|body|..];
        var first, others := Open(h.text, h.level, body), SectionsOf(tail);
        assert SectionsOf(lines) == first + others;
        SectionHeadings(tail);
        TitlesOfBody(rest);
        assert Titles(lines) == (if h.text != "" then [h.text] else []) + Titles(tail);
        assert HeadingsOf(first) == (if h.text != "" then [h.text] else []);
        HeadingsOfAppend(first, others);
    }
  }

  lemma HeadingsOfAppend(a: seq<Section>, b: seq<Section>)
    ensures HeadingsOf(a + b) == HeadingsOf(a) + HeadingsOf(b)
  {
    var l, r := HeadingsOf(a + b), HeadingsOf(a) + HeadingsOf(b);
    forall k | 0 <= k < |l| ensures l[k] == r[k] {
      if k < |a| {
        assert (a + b)[k] == a[k];
      } else {
        assert (a + b)[k] == b[k - |a|];
      }
    }
  }

  /** There are at most as many sections as heading lines. */
  lemma SectionCount(lines: seq<string>)
    ensures |SectionsOf(lines)| <= HeadingCount(lines)
  {
    SectionHeadings(lines);
    assert |SectionsOf(lines)| == |HeadingsOf(SectionsOf(lines))|;
  }

  /** Every section comes from a heading line of the content: it has that
      line's text, which is not empty, and its level, which lies in 1..6. */
  lemma {:induction false} SectionsFromHeadings(lines: seq<string>)
    ensures forall s | s in SectionsOf(lines) ::
      && s.heading != "" && 1 <= s.level <= 6
      && exists line | line in lines :: Heading(line) == Some(HeadingLine(s.level, s.heading))
    decreases |lines|
  {
    if lines != [] {
      match Heading(lines[0])
      case None =>
        SectionsFromHeadings(lines[1..]);
      case Some(h) =>
        var rest := lines[1..];
        var tail := rest[|Body(rest)|..];
        SectionsFromHeadings(tail);
        forall line | line in tail ensures line in lines {
          var k :| 0 <= k < |tail| && tail[k] == line;
          assert lines[1 + |Body(rest)| + k] == line;
        }
    }
  }

  /** Cutting the lines just before a heading line cuts the sections there. */
  lemma {:induction false} SplitAtHeading(a: seq<string>, b: seq<string>)
    requires b == [] || IsHeading(b[0])
    ensures SectionsOf(a + b) == SectionsOf(a) + SectionsOf(b)
    decreases |a|, 1
  {
    if a == [] {
      assert a + b == b;
    } else if Heading(a[0]).None? {
      SplitPlain(a, b);
    } else {
      SplitHeaded(a, b);
    }
  }

  /** SplitAtHeading when the first line is not a heading line. */
  lemma {:induction false} SplitPlain(a: seq<string>, b: seq<string>)
    requires a != [] && Heading(a[0]).None? && (b == [] || IsHeading(b[0]))
    ensures SectionsOf(a + b) == SectionsOf(a) + SectionsOf(b)
    decreases |a|, 0
  {
    assert (a + b)[0] == a[0] && (a + b)[1..] == a[1..] + b;
    SplitAtHeading(a[1..], b);
  }

  /** SplitAtHeading when the first line is a heading line. */
  lemma {:induction false} SplitHeaded(a: seq<string>, b: seq<string>)
    requires a != [] && IsHeading(a[0]) && (b == [] || IsHeading(b[0]))
    ensures SectionsOf(a + b) == SectionsOf(a) + SectionsOf(b)
    decreases |a|, 0
  {
    var first, tail := HeadedUnfold(a, b);
    SplitAtHeading(tail, b);
    var rest, sb := SectionsOf(tail), SectionsOf(b);
    calc {
      SectionsOf(a + b);
      first + SectionsOf(tail + b);
      first + (rest + sb);
      (first + rest) + sb;
      SectionsOf(a) + sb;
    }
  }

  /** The first section of lines that start with a heading line, and what
      follows it, are the same whether or not lines starting with a heading
      line come after them. */
  lemma HeadedUnfold(a: seq<string>, b: seq<string>) returns (first: seq<Section>, tail: seq<string>)
    requires a != [] && IsHeading(a[0]) && (b == [] || IsHeading(b[0]))
    ensures |tail| < |a|
    ensures SectionsOf(a + b) == first + SectionsOf(tail + b)
    ensures SectionsOf(a) == first + SectionsOf(tail)
  {
    var h := Heading(a[0]).value;
    var ab := a + b;
    assert ab[0] == a[0] && ab[1..] == a[1..] + b;
    var body := Body(a[1..]);
    BodyAppend(a[1..], b);
    tail := a[1..][|body|..];
    assert ab[1..][|body|..] == tail + b;
    first := Open(h.text, h.level, body);
  }

  /** A heading line ends the lines before it. */
  lemma {:induction false} BodyAppend(x: seq<string>, b: seq<string>)
    requires b == [] || IsHeading(b[0])
    ensures Body(x + b) == Body(x)
  {
    if x == [] {
      assert x + b == b;
    } else {
      assert (x + b)[0] == x[0] && (x + b)[1..] == x[1..] + b;
      BodyAppend(x[1..], b);
    }
  }

  /** Lines without a heading line are their own body. */
  lemma {:induction false} BodyAll(body: seq<string>)
    requires forall k | 0 <= k < |body| :: !IsHeading(body[k])
    ensures Body(body) == body
  {
    if body != [] {
      BodyAll(body[1..]);
    }
  }

  /** The section of a titled heading line holds the stripped join of the
      lines after it up to the next heading line (or the end), whatever
      comes before and after. */
  lemma SectionContent(pre: seq<string>, heading: string, body: seq<string>, post: seq<string>)
    requires IsTitled(heading)
    requires forall k | 0 <= k < |body| :: !IsHeading(body[k])
    requires post == [] || IsHeading(post[0])
    ensures var h := Heading(heading).value;
      SectionsOf(pre + [heading] + body + post) ==
      SectionsOf(pre) + [Section(h.text, h.level, Strip(Join(body)))] + SectionsOf(post)
  {
    var h := Heading(heading).value;
    var mid := [heading] + body;
    var sec := Section(h.text, h.level, Strip(Join(body)));
    Regroup(pre, [heading], body, post);
    assert (mid + post)[0] == heading;
    SplitAtHeading(pre, mid + post);
    SplitAtHeading(mid, post);
    SingleSection(heading, body);
    assert SectionsOf(pre) + ([sec] + SectionsOf(post)) == SectionsOf(pre) + [sec] + SectionsOf(post);
  }

  /** A titled heading line followed by lines without a heading is one
      section. */
  lemma SingleSection(heading: string, body: seq<string>)
    requires IsTitled(heading)
    requires forall k | 0 <= k < |body| :: !IsHeading(body[k])
    ensures var h := Heading(heading).value;
      SectionsOf([heading] + body) == [Section(h.text, h.level, Strip(Join(body)))]
  {
    var h := Heading(heading).value;
    var lines := [heading] + body;
    BodyAll(body);
    assert lines[0] == heading && lines[1..] == body && body[|body|..] == [];
    assert SectionsOf(lines) == Open(h.text, h.level, body) + SectionsOf([]);
  }

  lemma Regroup<T>(a: seq<T>, b: seq<T>, c: seq<T>, d: seq<T>)
    ensures a + b + c + d == a + ((b + c) + d)
  {
  }
}
