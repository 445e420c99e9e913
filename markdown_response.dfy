/**
  MarkdownResponseFormatter: wraps a chat message with its markdown
  metadata, and does so for every message of a conversation.
*/
module MarkdownResponse {
  import opened Wrappers
  import opened RealArith
  import opened MarkdownText
  import opened MarkdownSections
  import opened MarkdownDetector

  /** The "format" entry of a formatted response. */
  datatype MarkdownFormat = MarkdownFormat(isMarkdown: bool, confidence: real, sections: seq<Section>)

  /** The dict format_response returns. */
  datatype Response = Response(
    content: string,
    sender: string,
    timestamp: Option<string>,
    format: MarkdownFormat,
    displayAsMarkdown: bool)

  /** A conversation entry: a dict, of which only "content", "sender" and
      "timestamp" are read, or any other value, kept as its text. */
  datatype Message = Dict(fields: map<string, string>) | NotDict(value: string)

  /** An entry of the formatted conversation. */
  datatype Entry = Formatted(response: Response) | Passed(message: Message)

  /** The display rule of format_response: markdown that is also confident
      enough. */
  predicate DisplayAsMarkdown(isMarkdown: bool, confidence: real) {
    isMarkdown && confidence > 0.3
  }

  /** What format_response(content, sender, timestamp) returns. */
  function ResponseOf(m: Matcher, content: string, sender: string, timestamp: Option<string>): Response {
    var isMd := IsMarkdownOf(m, content);
    var confidence := ConfidenceOf(m, content);
    Response(content, sender, timestamp,
      MarkdownFormat(isMd, confidence, SectionsOf(Split(content))),
      DisplayAsMarkdown(isMd, confidence))
  }

  /** MarkdownResponseFormatter.format_response. */
  method FormatResponse(m: Matcher, content: string, sender: string := "assistant",
                        timestamp: Option<string> := None)
    returns (r: Response)
    ensures r == ResponseOf(m, content, sender, timestamp)
  {
    var isMd := IsMarkdown(m, content);
    var confidence := GetMarkdownConfidence(m, content);
    var sections := ExtractSections(content);
    r := Response(content, sender, timestamp, MarkdownFormat(isMd, confidence, sections),
      isMd && confidence > 0.3);
  }

  /** dict.get(key, default). */
  function Get(fields: map<string, string>, key: string, default: string): string {
    if key in fields then fields[key] else default
  }

  /** What format_conversation does with one entry. */
  function EntryOf(m: Matcher, msg: Message): Entry {
    match msg
    case Dict(f) =>
      Formatted(ResponseOf(m, Get(f, "content", ""), Get(f, "sender", "assistant"),
        if "timestamp" in f then Some(f["timestamp"]) else None))
    case NotDict(_) => Passed(msg)
  }

  /** MarkdownResponseFormatter.format_conversation: one entry per message,
      in order; a message that is not a dict comes out unchanged. */
  method FormatConversation(m: Matcher, messages: seq<Message>) returns (formatted: seq<Entry>)
    ensures |formatted| == |messages|
    ensures forall k | 0 <= k < |messages| :: formatted[k] == EntryOf(m, messages[k])
    ensures forall k | 0 <= k < |messages| && messages[k].NotDict? :: formatted[k] == Passed(messages[k])
  {
    formatted := [];
    var i := 0;
    while i < |messages|
      invariant 0 <= i <= |messages|
      invariant |formatted| == i
      invariant forall k | 0 <= k < i :: formatted[k] == EntryOf(m, messages[k])
    {
      var msg := messages[i];
      match msg {
        case Dict(f) =>
          var ts := if "timestamp" in f then Some(f["timestamp"]) else None;
          var r := FormatResponse(m, Get(f, "content", ""), Get(f, "sender", "assistant"), ts);
          formatted := formatted + [Formatted(r)];
        case NotDict(_) =>
          formatted := formatted + [Passed(msg)];
      }
      i := i + 1;
    }
  }

  /** A dict message keeps its content, its sender ("assistant" when absent)
      and its timestamp (None when absent). */
  lemma DictFields(m: Matcher, f: map<string, string>)
    ensures var r := EntryOf(m, Dict(f)).response;
      && (r.content == if "content" in f then f["content"] else "")
      && (r.sender == if "sender" in f then f["sender"] else "assistant")
      && (r.timestamp.Some? <==> "timestamp" in f)
      && ("timestamp" in f ==> r.timestamp.value == f["timestamp"])
  {
  }

  /** A response is displayed as markdown exactly when the content has a
      non-blank line, its pattern matches exceed 20% of those checked, and
      more than 30% of its non-blank lines match some pattern. */
  lemma DisplayCounts(m: Matcher, content: string, sender: string, timestamp: Option<string>)
    ensures var lines := Split(content);
      var n := NonBlankCount(lines);
      ResponseOf(m, content, sender, timestamp).displayAsMarkdown <==>
        content != "" && n > 0 &&
        100 * Score(m, lines) > 20 * (12 * n) &&
        10 * MatchedLines(m, lines) > 3 * n
  {
    var lines := Split(content);
    var n := NonBlankCount(lines);
    if content != "" && n > 0 {
      Share30(MatchedLines(m, lines), n);
    }
  }

  /** k / n > 0.3 is 10 * k > 3 * n. */
  lemma Share30(k: nat, n: nat)
    requires n > 0
    ensures k as real / n as real > 0.3 <==> 10 * k > 3 * n
  {
    ShareCompare(k, n, 0.3);
    assert (10 * k) as real == 10.0 * k as real;
    assert (3 * n) as real == 3.0 * n as real;
  }

  /** A displayed response is markdown, and strongly so: its confidence is
      above 0.3, more than the 0.2 that detection alone guarantees. */
  lemma DisplayedIsMarkdown(m: Matcher, content: string, sender: string, timestamp: Option<string>)
    ensures var r := ResponseOf(m, content, sender, timestamp);
      r.displayAsMarkdown ==> r.format.isMarkdown && 0.3 < r.format.confidence <= 1.0
    ensures var r := ResponseOf(m, content, sender, timestamp);
      r.format.isMarkdown ==> r.format.confidence > 0.2
  {
    ConfidenceRange(m, content);
    if IsMarkdownOf(m, content) {
      MarkdownConfidence(m, content);
    }
  }
}
