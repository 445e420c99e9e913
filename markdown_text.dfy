/**
  The Python string primitives the markdown utilities rely on:
  str.isspace, str.strip(), str.split("\n") and "\n".join(...).
*/
module MarkdownText {

  /** str.isspace() for one character, which is also what the regular
      expression class \s matches in a str pattern: the characters of
      bidirectional class WS, B or S and of category Zs. */
  predicate IsSpace(c: char) {
    || '\t' <= c <= '\r'
    || '\U{1C}' <= c <= '\U{1F}'
    || c == ' ' || c == '\U{85}' || c == '\U{A0}' || c == '\U{1680}'
    || '\U{2000}' <= c <= '\U{200A}'
    || c == '\U{2028}' || c == '\U{2029}' || c == '\U{202F}' || c == '\U{205F}'
    || c == '\U{3000}'
  }

  /** Every character is whitespace (the empty string included). */
  predicate IsBlank(s: string) {
    forall k | 0 <= k < |s| :: IsSpace(s[k])
  }

  /** s.lstrip(): drops the leading whitespace. */
  function TrimLeft(s: string): (r: string)
    ensures |r| <= |s|
  {
    if s != [] && IsSpace(s[0]) then TrimLeft(s[1..]) else s
  }

  /** lstrip() drops a whitespace prefix, and only that. */
  lemma TrimLeftCorrect(s: string)
    ensures var r := TrimLeft(s);
      r == s[|s| - |r|..] && IsBlank(s[..|s| - |r|]) && (r != [] ==> !IsSpace(r[0]))
  {
    if s != [] && IsSpace(s[0]) {
      TrimLeftCorrect(s[1..]);
      var r := TrimLeft(s);
      assert s[..|s| - |r|] == [s[0]] + s[1..][..|s| - 1 - |r|];
    }
  }

  /** s.rstrip(): drops the trailing whitespace. */
  function TrimRight(s: string): (r: string)
    ensures |r| <= |s|
  {
    if s != [] && IsSpace(s[|s| - 1]) then TrimRight(s[..|s| - 1]) else s
  }

  /** rstrip() drops a whitespace suffix, and only that. */
  lemma TrimRightCorrect(s: string)
    ensures var r := TrimRight(s);
      r == s[..|r|] && IsBlank(s[|r|..]) && (r != [] ==> !IsSpace(r[|r| - 1]))
  {
    if s != [] && IsSpace(s[|s| - 1]) {
      TrimRightCorrect(s[..|s| - 1]);
      var r := TrimRight(s);
      assert s[|r|..] == s[..|s| - 1][|r|..] + [s[|s| - 1]];
    }
  }

  /** s.strip(). */
  function Strip(s: string): string {
    TrimRight(TrimLeft(s))
  }

  /** strip() keeps a contiguous piece of s, whitespace only around it, and
      the piece neither starts nor ends with whitespace; it is empty exactly
      when s is blank. */
  lemma StripCorrect(s: string)
    ensures var r := Strip(s);
      && (exists i, j | 0 <= i <= j <= |s| :: r == s[i..j] && IsBlank(s[..i]) && IsBlank(s[j..]))
      && (r != [] ==> !IsSpace(r[0]) && !IsSpace(r[|r| - 1]))
      && (r == [] <==> IsBlank(s))
  {
    var l := TrimLeft(s);
    var r := TrimRight(l);
    TrimLeftCorrect(s);
    TrimRightCorrect(l);
    var i := |s| - |l|;
    var j := i + |r|;
    assert r == s[i..j];
    assert s[j..] == l[|r|..];
    if r == [] {
      assert l == [] && s == s[..i];
    } else {
      assert r[0] == l[0];
    }
  }

  /** s.split("\n"): the pieces between newlines, at least one. */
  function Split(s: string): (r: seq<string>)
    ensures |r| >= 1
    ensures forall k | 0 <= k < |r| :: '\n' !in r[k]
  {
    if s == [] then [""]
    else if s[0] == '\n' then [""] + Split(s[1..])
    else
      var rest := Split(s[1..]);
      [[s[0]] + rest[0]] + rest[1..]
  }

  /** "\n".join(lines). */
  function Join(lines: seq<string>): string {
    if lines == [] then ""
    else if |lines| == 1 then lines[0]
    else lines[0] + "\n" + Join(lines[1..])
  }

  /** Joining the pieces of a split gives back the string. */
  lemma {:induction false} JoinSplit(s: string)
    ensures Join(Split(s)) == s
  {
    if s == [] {
    } else if s[0] == '\n' {
      JoinSplit(s[1..]);
      assert s == "\n" + s[1..];
    } else {
      var rest := Split(s[1..]);
      JoinSplit(s[1..]);
      JoinConsHead(s[0], rest[0], rest[1..]);
      assert [rest[0]] + rest[1..] == rest;
      assert s == [s[0]] + s[1..];
    }
  }

  /** A character put in front of the first line goes in front of the join. */
  lemma JoinConsHead(c: char, first: string, others: seq<string>)
    ensures Join([[c] + first] + others) == [c] + Join([first] + others)
  {
    if others != [] {
      assert ([[c] + first] + others)[1..] == others;
      assert ([first] + others)[1..] == others;
    }
  }
}
