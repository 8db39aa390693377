/**
 * `extract_output_texts`: the `output_text` payloads of a list of message records, as
 * decoded from the runner's JSON.
 */
module Messages {
  import opened Wrappers
  import opened Seqs

  /** A content item: its `"type"` and `"text"` fields, each `None` when the key is missing. */
  datatype ContentItem = ContentItem(kind: Option<string>, text: Option<string>)

  /** A message record: its `"content"` list, `None` when the key is missing. */
  datatype Message = Message(content: Option<seq<ContentItem>>)

  const OutputText: string := "output_text"

  /** `m.get("content", [])`. */
  function Contents(m: Message): seq<ContentItem> {
    match m.content
    case None => []
    case Some(items) => items
  }

  /** `c.get("type") == "output_text"`. */
  predicate IsOutputText(c: ContentItem) {
    c.kind == Some(OutputText)
  }

  /** `c.get("text", "")`. */
  function TextOf(c: ContentItem): string {
    match c.text
    case None => ""
    case Some(t) => t
  }

  /** The texts the inner loop appends for `items`. */
  function ItemTexts(items: seq<ContentItem>): seq<string>
    decreases |items|
  {
    if items == [] then []
    else
      var c := items[|items| - 1];
      ItemTexts(items[..|items| - 1]) + (if IsOutputText(c) then [TextOf(c)] else [])
  }

  /** The texts the outer loop collects for `messages`. */
  function OutputTexts(messages: seq<Message>): seq<string>
    decreases |messages|
  {
    if messages == [] then []
    else OutputTexts(messages[..|messages| - 1]) + ItemTexts(Contents(messages[|messages| - 1]))
  }

  /** Every content item of every message, in message-then-item order. */
  function AllItems(messages: seq<Message>): seq<ContentItem>
    decreases |messages|
  {
    if messages == [] then []
    else AllItems(messages[..|messages| - 1]) + Contents(messages[|messages| - 1])
  }

  lemma {:induction false} ItemTextsAppend(a: seq<ContentItem>, b: seq<ContentItem>)
    ensures ItemTexts(a + b) == ItemTexts(a) + ItemTexts(b)
    decreases |b|
  {
    if b == [] {
      assert a + b == a;
    } else {
      var b' := b[..|b| - 1];
      assert (a + b)[..|a + b| - 1] == a + b';
      ItemTextsAppend(a, b');
    }
  }

  /** Collecting message by message is collecting over all items at once. */
  lemma {:induction false} OutputTextsOfAllItems(messages: seq<Message>)
    ensures OutputTexts(messages) == ItemTexts(AllItems(messages))
    decreases |messages|
  {
    if messages != [] {
      var init := messages[..|messages| - 1];
      OutputTextsOfAllItems(init);
      ItemTextsAppend(AllItems(init), Contents(messages[|messages| - 1]));
    }
  }

  /**
   * Exactly one text per `output_text` item, in order: its `text`, or `""` when the item
   * has none. Items of any other type, and messages without content, contribute nothing.
   */
  lemma {:induction false} ItemTextsSelect(items: seq<ContentItem>)
    ensures ItemTexts(items) == Map(TextOf, Filter(IsOutputText, items))
    decreases |items|
  {
    if items != [] {
      var init := items[..|items| - 1];
      var c := items[|items| - 1];
      ItemTextsSelect(init);
      if IsOutputText(c) {
        assert Filter(IsOutputText, items) == Filter(IsOutputText, init) + [c];
        MapSnoc(TextOf, Filter(IsOutputText, init), c);
      } else {
        assert Filter(IsOutputText, items) == Filter(IsOutputText, init);
      }
    }
  }

  lemma OutputTextsSelect(messages: seq<Message>)
    ensures OutputTexts(messages) == Map(TextOf, Filter(IsOutputText, AllItems(messages)))
  {
    OutputTextsOfAllItems(messages);
    ItemTextsSelect(AllItems(messages));
  }

  /** `extract_output_texts(messages)`. */
  method ExtractOutputTexts(messages: seq<Message>) returns (texts: seq<string>)
    ensures texts == OutputTexts(messages)
  {
    texts := [];
    var i := 0;
    while i < |messages|
      invariant 0 <= i <= |messages|
      invariant texts == OutputTexts(messages[..i])
    {
      var items := Contents(messages[i]);
      var j := 0;
      while j < |items|
        invariant 0 <= j <= |items|
        invariant texts == OutputTexts(messages[..i]) + ItemTexts(items[..j])
      {
        var c := items[j];
        if IsOutputText(c) {
          texts := texts + [TextOf(c)];
        }
        assert items[..j + 1][..j] == items[..j];
        j := j + 1;
      }
      assert items[..j] == items;
      assert messages[..i + 1][..i] == messages[..i];
      i := i + 1;
    }
    assert messages[..i] == messages;
  }
}
