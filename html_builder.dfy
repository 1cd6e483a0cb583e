/** `text_to_children` and `markdown_to_html_node`: the node tree of a
    document, a `div` with one child per block. Each kind of block has a
    specification function; the method `MarkdownToHtmlNode` and its helpers
    carry the source's loops and are proved equal to them. */
module HtmlBuilder {
  import opened Results
  import opened Strings
  import opened TextNodes
  import opened HtmlNodes
  import opened InlineTokens
  import opened Blocks
  import opened MarkdownExtractor

  // ---------------------------------------------------------------------
  // Specification
  // ---------------------------------------------------------------------

  /** One HTML leaf per inline span, in order. */
  function Inlines(spans: seq<TextNode>): seq<HtmlNode>
  {
    seq(|spans|, i requires 0 <= i < |spans| => Inline(spans[i]))
  }

  /** `text_to_children`: the inline spans of `text` as HTML leaves. */
  function TextToChildren(text: string): Result<seq<HtmlNode>>
  {
    var spans :- TextToTextNodes(text);
    Ok(Inlines(spans))
  }

  /** Python `f"h{level}"`. */
  function HeadingTag(level: nat): string {
    "h" + DecimalString(level)
  }

  /** A paragraph: every run of whitespace becomes one space. */
  function ParagraphNode(block: string): Result<HtmlNode> {
    var children :- TextToChildren(CollapseSpaces(block));
    Ok(ParentNode("p", children))
  }

  /** A heading: the text after the '#' run and the one character that
      follows it. */
  function HeadingNode(block: string): Result<HtmlNode> {
    var level := LeadingHashes(block);
    var children :- TextToChildren(Drop(block, level + 1));
    Ok(ParentNode(HeadingTag(level), children))
  }

  /** `block[3:-3]`, less one leading newline. */
  function CodeText(block: string): string {
    var content := Slice(block, 3, -3);
    if StartsWith(content, "\n") then content[1..] else content
  }

  /** A code block: raw text in `pre` and `code`, not tokenized. */
  function CodeNode(block: string): HtmlNode {
    ParentNode("pre", [ParentNode("code", [LeafNode(None, CodeText(block))])])
  }

  /** What one quote line contributes: the line without "> " or ">", or
      nothing when it has neither. */
  function QuoteLine(line: string): seq<string> {
    if StartsWith(line, "> ") then [line[2..]]
    else if StartsWith(line, ">") then [line[1..]]
    else []
  }

  /** The `quote_lines` list, defined on the last line. */
  function QuoteLines(lines: seq<string>): seq<string>
    decreases |lines|
  {
    if lines == [] then []
    else QuoteLines(lines[..|lines| - 1]) + QuoteLine(lines[|lines| - 1])
  }

  /** A quote: its lines without the markers, joined by newlines. */
  function QuoteNode(block: string): Result<HtmlNode> {
    var children :- TextToChildren(Join(QuoteLines(Split(block, "\n")), "\n"));
    Ok(ParentNode("blockquote", children))
  }

  /** An unordered-list item: the line from its third character on. */
  function UnorderedItem(line: string): Result<HtmlNode> {
    var children :- TextToChildren(Drop(line, 2));
    Ok(ParentNode("li", children))
  }

  /** An ordered-list item: the line from two past its first '.'; a line
      without '.' fails as `str.index` does. */
  function OrderedItem(line: string): Result<HtmlNode> {
    match Find(line, ".")
    case None => Err(SubstringNotFound("."))
    case Some(dotIdx) =>
      var children :- TextToChildren(Drop(line, dotIdx + 2));
      Ok(ParentNode("li", children))
  }

  /** A list: one item per line, under `tag`. */
  function ListNode(tag: string, lines: seq<string>, item: string -> Result<HtmlNode>): Result<HtmlNode> {
    var items :- MapAll(lines, item);
    Ok(ParentNode(tag, items))
  }

  /** The node for one block, by its kind. */
  function BlockToNode(block: string): Result<HtmlNode> {
    match Classify(block)
    case Paragraph => ParagraphNode(block)
    case Heading => HeadingNode(block)
    case Code => Ok(CodeNode(block))
    case Quote => QuoteNode(block)
    case UnorderedList => ListNode("ul", Split(block, "\n"), UnorderedItem)
    case OrderedList => ListNode("ol", Split(block, "\n"), OrderedItem)
  }

  /** `markdown_to_html_node`: a `div` holding the node of every block; the
      first block that fails makes the whole conversion fail. */
  function MarkdownToHtml(markdown: string): Result<HtmlNode> {
    var children :- MapAll(MarkdownToBlocks(markdown), BlockToNode);
    Ok(ParentNode("div", children))
  }

  // ---------------------------------------------------------------------
  // The loops of markdown_to_html_node
  // ---------------------------------------------------------------------

  /** The `quote_lines` loop. */
  method CollectQuoteLines(lines: seq<string>) returns (quoteLines: seq<string>)
    ensures quoteLines == QuoteLines(lines)
  {
    quoteLines := [];
    for i := 0 to |lines|
      invariant quoteLines == QuoteLines(lines[..i])
    {
      assert lines[..i + 1][..i] == lines[..i];
      var line := lines[i];
      if StartsWith(line, "> ") {
        quoteLines := quoteLines + [line[2..]];
      } else if StartsWith(line, ">") {
        quoteLines := quoteLines + [line[1..]];
      }
    }
    assert lines[..|lines|] == lines;
  }

  /** The `list_items` loop of either list kind. */
  method BuildList(tag: string, lines: seq<string>, item: string -> Result<HtmlNode>) returns (r: Result<HtmlNode>)
    ensures r == ListNode(tag, lines, item)
  {
    var listItems: seq<HtmlNode> := [];
    for i := 0 to |lines|
      invariant MapAll(lines[..i], item) == Ok(listItems)
    {
      MapAllStep(lines, i, item);
      var li := item(lines[i]);
      if li.Err? {
        MapAllErrSticky(lines, i + 1, item);
        return Err(li.error);
      }
      listItems := listItems + [li.value];
    }
    assert lines[..|lines|] == lines;
    r := Ok(ParentNode(tag, listItems));
  }

  /** The body of the loop over the blocks. */
  method BlockNode(block: string) returns (r: Result<HtmlNode>)
    ensures r == BlockToNode(block)
  {
    var blockType := BlockToBlockType(block);
    match blockType
    case Paragraph =>
      r := ParagraphNode(block);
    case Heading =>
      var level := CountHashes(block);
      var children :- TextToChildren(Drop(block, level + 1));
      r := Ok(ParentNode(HeadingTag(level), children));
    case Code =>
      var codeContent := Slice(block, 3, -3);
      if StartsWith(codeContent, "\n") {
        codeContent := codeContent[1..];
      }
      r := Ok(ParentNode("pre", [ParentNode("code", [LeafNode(None, codeContent)])]));
    case Quote =>
      var quoteLines := CollectQuoteLines(Split(block, "\n"));
      var children :- TextToChildren(Join(quoteLines, "\n"));
      r := Ok(ParentNode("blockquote", children));
    case UnorderedList =>
      r := BuildList("ul", Split(block, "\n"), UnorderedItem);
    case OrderedList =>
      r := BuildList("ol", Split(block, "\n"), OrderedItem);
  }

  /** `markdown_to_html_node`, with its loop over the blocks. */
  method MarkdownToHtmlNode(markdown: string) returns (r: Result<HtmlNode>)
    ensures r == MarkdownToHtml(markdown)
  {
    var blocks := MarkdownToBlocks(markdown);
    var children: seq<HtmlNode> := [];
    for i := 0 to |blocks|
      invariant MapAll(blocks[..i], BlockToNode) == Ok(children)
    {
      MapAllStep(blocks, i, BlockToNode);
      var child := BlockNode(blocks[i]);
      if child.Err? {
        MapAllErrSticky(blocks, i + 1, BlockToNode);
        return Err(child.error);
      }
      children := children + [child.value];
    }
    assert blocks[..|blocks|] == blocks;
    r := Ok(ParentNode("div", children));
  }

  // ---------------------------------------------------------------------
  // Properties
  // ---------------------------------------------------------------------

  /** The tree is a `div` with exactly one child per block, child i being
      the node of block i; it is built exactly when every block converts. */
  lemma MarkdownToHtmlShape(markdown: string)
    ensures var blocks := MarkdownToBlocks(markdown);
            var r := MarkdownToHtml(markdown);
            && (r.Ok? <==> forall i :: 0 <= i < |blocks| ==> BlockToNode(blocks[i]).Ok?)
            && (r.Ok? ==> r.value.ParentNode? && r.value.tag == "div" && |r.value.children| == |blocks|
                          && forall i :: 0 <= i < |blocks| ==> BlockToNode(blocks[i]) == Ok(r.value.children[i]))
  {
    MapAllOk(MarkdownToBlocks(markdown), BlockToNode);
  }

  /** A failure is the failure of the first block that does not convert. */
  lemma MarkdownToHtmlFirstError(markdown: string)
    requires MarkdownToHtml(markdown).Err?
    ensures var blocks := MarkdownToBlocks(markdown);
            exists i :: 0 <= i < |blocks| && BlockToNode(blocks[i]) == Err(MarkdownToHtml(markdown).error)
                        && forall j :: 0 <= j < i ==> BlockToNode(blocks[j]).Ok?
  {
    MapAllFirstErr(MarkdownToBlocks(markdown), BlockToNode);
  }

  /** A blank document is an empty `div`. */
  lemma BlankDocument(markdown: string)
    requires AllSpace(markdown)
    ensures MarkdownToHtml(markdown) == Ok(ParentNode("div", []))
  {
    BlankHasNoBlocks(markdown);
  }

  /** Inline text without markup is one plain leaf. */
  lemma TextToChildrenPlain(text: string)
    requires Lacks(text, '`') && Absent(text, "**") && Lacks(text, '_') && Lacks(text, '[')
    ensures TextToChildren(text) == Ok([Inline(Plain(text, Text))])
  {
    PlainTextStaysPlain(text);
    assert Inlines([Plain(text, Text)]) == [Inline(Plain(text, Text))];
  }

  /** The node `tag` over the given spans, or the tokenizer's error. */
  function Wrap(tag: string, spans: Result<seq<TextNode>>): Result<HtmlNode> {
    match spans
    case Ok(s) => Ok(ParentNode(tag, Inlines(s)))
    case Err(e) => Err(e)
  }

  /** For one to nine, `f"h{level}"` is 'h' and the level's digit. */
  lemma HeadingTagDigit(level: nat)
    requires 1 <= level <= 9
    ensures HeadingTag(level) == ['h', ('0' as int + level) as char]
  {
    assert level % 10 == level;
  }

  /** A heading holds one to six '#' then a space; its tag is 'h' followed
      by that count, and its children are the spans of the rest. */
  lemma HeadingBlockNode(block: string)
    requires Classify(block) == Heading
    ensures var level := LeadingHashes(block);
            && 1 <= level <= 6
            && (forall k :: 0 <= k < level ==> block[k] == '#')
            && block == block[..level] + " " + Drop(block, level + 1)
            && BlockToNode(block) == Wrap(['h', ('0' as int + level) as char], TextToTextNodes(Drop(block, level + 1)))
  {
    HeadingIff(block);
    HeadingLineNode(block);
  }

  /** The same, for a block whose first line passes the heading test. */
  lemma HeadingLineNode(block: string)
    requires IsHeadingLine(block)
    ensures var level := LeadingHashes(block);
            && 1 <= level <= 6
            && (forall k :: 0 <= k < level ==> block[k] == '#')
            && block == block[..level] + " " + Drop(block, level + 1)
            && HeadingNode(block) == Wrap(['h', ('0' as int + level) as char], TextToTextNodes(Drop(block, level + 1)))
  {
    HashRun(block);
    var level := LeadingHashes(block);
    assert block == block[..level] + [block[level]] + block[level + 1..];
    HeadingNodeWrap(block);
    HeadingTagDigit(level);
  }

  lemma HeadingNodeWrap(block: string)
    ensures HeadingNode(block) == Wrap(HeadingTag(LeadingHashes(block)), TextToTextNodes(Drop(block, LeadingHashes(block) + 1)))
  {
  }

  /** The text kept from a fenced block: nothing when the block is shorter
      than two fences, else the text between the fences less a newline
      right after the opening one. */
  lemma CodeTextFences(block: string)
    requires IsCodeBlock(block)
    ensures |block| < 6 ==> CodeText(block) == ""
    ensures |block| >= 6 ==> block == "```" + (if block[3] == '\n' then "\n" else "") + CodeText(block) + "```"
  {
    if |block| >= 6 {
      var n := |block|;
      assert block[..3] == "```";
      assert block[n - 3..] == "```";
      var content := block[3..n - 3];
      assert Slice(block, 3, -3) == content;
      if n == 6 {
        assert block[3] == block[n - 3..][0];
      } else if block[3] == '\n' {
        assert content[..1] == "\n";
        assert block == block[..3] + "\n" + content[1..] + block[n - 3..];
      } else {
        assert block == block[..3] + content + block[n - 3..];
      }
    }
  }

  /** A code block never fails and is never tokenized: one leaf inside
      `code` inside `pre`, holding the text between the fences. */
  lemma CodeBlockNode(block: string)
    requires Classify(block) == BlockType.Code
    ensures BlockToNode(block) == Ok(ParentNode("pre", [ParentNode("code", [LeafNode(None, CodeText(block))])]))
    ensures |block| < 6 ==> CodeText(block) == ""
    ensures |block| >= 6 ==> block == "```" + (if block[3] == '\n' then "\n" else "") + CodeText(block) + "```"
  {
    CodeIff(block);
    CodeTextFences(block);
  }

  /** Every line of a quote gives one quote line: the line with its "> "
      or ">" marker taken off. */
  lemma {:induction false} QuoteLinesShape(lines: seq<string>)
    requires IsQuoteBlock(lines)
    ensures |QuoteLines(lines)| == |lines|
    ensures forall i :: 0 <= i < |lines| ==>
              lines[i] == (if StartsWith(lines[i], "> ") then "> " else ">") + QuoteLines(lines)[i]
    decreases |lines|
  {
    if lines != [] {
      var n := |lines| - 1;
      var init := lines[..n];
      assert forall i :: 0 <= i < n ==> init[i] == lines[i];
      QuoteLinesShape(init);
      var line := lines[n];
      assert StartsWith(line, ">");
      if StartsWith(line, "> ") {
        assert line == line[..2] + line[2..];
      } else {
        assert line == line[..1] + line[1..];
      }
    }
  }

  /** A quote block becomes a `blockquote` of the spans of its lines, with
      the markers taken off and the lines joined by newlines. */
  lemma QuoteBlockNode(block: string)
    requires Classify(block) == Quote
    ensures var lines := Split(block, "\n");
            var q := QuoteLines(lines);
            && |q| == |lines|
            && (forall i :: 0 <= i < |lines| ==> lines[i] == (if StartsWith(lines[i], "> ") then "> " else ">") + q[i])
            && BlockToNode(block) == Wrap("blockquote", TextToTextNodes(Join(q, "\n")))
  {
    QuoteIff(block);
    QuoteLinesShape(Split(block, "\n"));
  }

  /** A list whose item i is the `li` of `spans[i]`: one `li` per line, and
      it fails exactly when some line's spans fail. */
  lemma ListItems(tag: string, lines: seq<string>, item: string -> Result<HtmlNode>, spans: seq<Result<seq<TextNode>>>)
    requires |spans| == |lines|
    requires forall i :: 0 <= i < |lines| ==> item(lines[i]) == Wrap("li", spans[i])
    ensures var r := ListNode(tag, lines, item);
            && (r.Ok? <==> forall i :: 0 <= i < |lines| ==> spans[i].Ok?)
            && (r.Ok? ==> r.value.ParentNode? && r.value.tag == tag && |r.value.children| == |lines|
                          && forall i :: 0 <= i < |lines| ==> r.value.children[i] == ParentNode("li", Inlines(spans[i].value)))
  {
    MapAllOk(lines, item);
  }

  /** An unordered list has one `li` per line, holding the spans of the
      line after its "- ". */
  lemma UnorderedBlockNode(block: string)
    requires Classify(block) == UnorderedList
    ensures var lines := Split(block, "\n");
            var r := BlockToNode(block);
            && (forall i :: 0 <= i < |lines| ==> lines[i] == "- " + Drop(lines[i], 2))
            && (r.Ok? <==> forall i :: 0 <= i < |lines| ==> TextToTextNodes(Drop(lines[i], 2)).Ok?)
            && (r.Ok? ==> r.value.ParentNode? && r.value.tag == "ul" && |r.value.children| == |lines|
                          && forall i :: 0 <= i < |lines| ==>
                               r.value.children[i] == ParentNode("li", Inlines(TextToTextNodes(Drop(lines[i], 2)).value)))
  {
    var lines := Split(block, "\n");
    UnorderedIff(block);
    var spans := seq(|lines|, i requires 0 <= i < |lines| => TextToTextNodes(Drop(lines[i], 2)));
    ListItems("ul", lines, UnorderedItem, spans);
    forall i | 0 <= i < |lines| ensures lines[i] == "- " + Drop(lines[i], 2) {
      assert lines[i] == lines[i][..2] + lines[i][2..];
    }
  }

  /** In a line of an ordered list the first '.' is the one after the
      number. */
  lemma OrderedLineDot(line: string, n: nat)
    requires IsOrderedLine(line, n)
    ensures Find(line, ".") == Some(LeadingDigits(line))
  {
    var d := LeadingDigits(line);
    assert line[d..d + 1] == ".";
    forall j: nat | j < d ensures !OccursAt(line, ".", j) {
      assert line[..d][j] == line[j];
      assert line[j..j + 1] == [line[j]];
    }
    FindAt(line, ".", d);
  }

  /** The item of line `n` of an ordered list: the spans of the line after
      the number, the '.' and the character after it. */
  lemma OrderedItemOf(line: string, n: nat)
    requires IsOrderedLine(line, n)
    ensures OrderedItem(line) == Wrap("li", TextToTextNodes(Drop(line, LeadingDigits(line) + 2)))
  {
    OrderedLineDot(line, n);
  }

  /** Line i (from 1) of an ordered list is the number i, ". " and the rest. */
  lemma OrderedLinesShape(lines: seq<string>)
    requires IsOrderedBlock(lines)
    ensures forall i :: 0 <= i < |lines| ==>
              var d := LeadingDigits(lines[i]);
              && DecimalValue(lines[i][..d]) == i + 1
              && lines[i] == lines[i][..d] + ". " + Drop(lines[i], d + 2)
  {
    forall i | 0 <= i < |lines|
      ensures var d := LeadingDigits(lines[i]);
              && DecimalValue(lines[i][..d]) == i + 1
              && lines[i] == lines[i][..d] + ". " + Drop(lines[i], d + 2)
    {
      var line := lines[i];
      var d := LeadingDigits(line);
      assert IsOrderedLine(line, i + 1);
      assert line == line[..d] + line[d..d + 2] + line[d + 2..];
    }
  }

  /** An ordered list has one `li` per line, holding the spans of the line
      after its number and ". "; it never fails for want of a '.'. */
  lemma OrderedBlockNode(block: string)
    requires Classify(block) == OrderedList
    ensures var lines := Split(block, "\n");
            var r := BlockToNode(block);
            && (forall i :: 0 <= i < |lines| ==>
                  var d := LeadingDigits(lines[i]);
                  && DecimalValue(lines[i][..d]) == i + 1
                  && lines[i] == lines[i][..d] + ". " + Drop(lines[i], d + 2))
            && (r.Ok? <==> forall i :: 0 <= i < |lines| ==> TextToTextNodes(Drop(lines[i], LeadingDigits(lines[i]) + 2)).Ok?)
            && (r.Ok? ==> r.value.ParentNode? && r.value.tag == "ol" && |r.value.children| == |lines|
                          && forall i :: 0 <= i < |lines| ==>
                               r.value.children[i] ==
                                 ParentNode("li", Inlines(TextToTextNodes(Drop(lines[i], LeadingDigits(lines[i]) + 2)).value)))
  {
    var lines := Split(block, "\n");
    OrderedIff(block);
    OrderedLinesShape(lines);
    var spans := seq(|lines|, i requires 0 <= i < |lines| => TextToTextNodes(Drop(lines[i], LeadingDigits(lines[i]) + 2)));
    forall i | 0 <= i < |lines| ensures OrderedItem(lines[i]) == Wrap("li", spans[i]) {
      assert IsOrderedLine(lines[i], i + 1);
      OrderedItemOf(lines[i], i + 1);
    }
    ListItems("ol", lines, OrderedItem, spans);
  }

  /** The text of a paragraph is one line: its only whitespace is single
      spaces between words, and its words are the block's own words, in
      order. */
  lemma ParagraphOneLine(block: string)
    ensures var t := CollapseSpaces(block);
            && (forall k :: 0 <= k < |t| && IsSpace(t[k]) ==> t[k] == ' ')
            && (forall k :: 0 <= k < |t| - 1 && t[k] == ' ' ==> t[k + 1] != ' ')
            && (t != [] ==> t[0] != ' ' && t[|t| - 1] != ' ')
            && Words(t) == Words(block)
  {
    WordsShape(block);
    CollapseSpacesShape(Words(block));
    CollapseKeepsWords(block);
  }

  /** `text_to_children` fails only on an unmatched delimiter. */
  lemma TextToChildrenErr(text: string)
    ensures TextToChildren(text).Err? ==> TextToChildren(text).error.UnmatchedDelimiter?
  {
    TextToTextNodesErr(text);
  }

  /** A list fails only where one of its items fails. */
  lemma ListNodeErr(tag: string, lines: seq<string>, item: string -> Result<HtmlNode>)
    requires ListNode(tag, lines, item).Err?
    ensures exists i :: 0 <= i < |lines| && item(lines[i]) == Err(ListNode(tag, lines, item).error)
  {
    MapAllFirstErr(lines, item);
  }

  /** A block fails only on an unmatched inline delimiter: in particular an
      ordered-list line always has its '.'. */
  lemma BlockToNodeErr(block: string)
    ensures BlockToNode(block).Err? ==> BlockToNode(block).error.UnmatchedDelimiter?
  {
    var lines := Split(block, "\n");
    match Classify(block)
    case Paragraph =>
      TextToChildrenErr(CollapseSpaces(block));
    case Heading =>
      TextToChildrenErr(Drop(block, LeadingHashes(block) + 1));
    case Code =>
    case Quote =>
      TextToChildrenErr(Join(QuoteLines(lines), "\n"));
    case UnorderedList =>
      if BlockToNode(block).Err? {
        ListNodeErr("ul", lines, UnorderedItem);
        var i :| 0 <= i < |lines| && UnorderedItem(lines[i]) == Err(BlockToNode(block).error);
        TextToChildrenErr(Drop(lines[i], 2));
      }
    case OrderedList =>
      if BlockToNode(block).Err? {
        ListNodeErr("ol", lines, OrderedItem);
        var i :| 0 <= i < |lines| && OrderedItem(lines[i]) == Err(BlockToNode(block).error);
        OrderedIff(block);
        assert IsOrderedLine(lines[i], i + 1);
        OrderedLineDot(lines[i], i + 1);
        TextToChildrenErr(Drop(lines[i], LeadingDigits(lines[i]) + 2));
      }
  }

  /** The conversion fails only on an unmatched backtick, `**` or `_`. */
  lemma MarkdownToHtmlErr(markdown: string)
    ensures MarkdownToHtml(markdown).Err? ==> MarkdownToHtml(markdown).error.UnmatchedDelimiter?
  {
    if MarkdownToHtml(markdown).Err? {
      var blocks := MarkdownToBlocks(markdown);
      MapAllFirstErr(blocks, BlockToNode);
      var i :| 0 <= i < |blocks| && BlockToNode(blocks[i]) == Err(MarkdownToHtml(markdown).error);
      BlockToNodeErr(blocks[i]);
    }
  }
}
