/** Concrete inputs worked through the general lemmas: cases from the
    repository's tests, and the input on which `split_nodes_link`, run on
    its own, cuts its link out of image syntax. */
module Cases {
  import opened Results
  import opened Strings
  import opened TextNodes
  import opened MarkdownExtractor
  import opened InlineTokens
  import opened Title
  import Blocks

  /** Positions where the pattern finds nothing are skipped one by one. */
  lemma {:induction false} ScanSkip(len: nat, p: nat, q: nat, at: nat -> Option<Match>)
    requires p <= q <= len && Advances(len, at)
    requires forall k :: p <= k < q ==> at(k).None?
    ensures MarkdownExtractor.Scan(len, p, at) == MarkdownExtractor.Scan(len, q, at)
    decreases q - p
  {
    if p < q {
      ScanSkip(len, p + 1, q, at);
    }
  }

  /** No link starts at a character other than `[`, or at a `[` that
      follows a `!`. */
  lemma NoLinkAt(s: string, p: nat)
    requires p < |s| && (s[p] != '[' || (p > 0 && s[p - 1] == '!'))
    ensures LinkAt(s, p).None?
  {
    if LinkAt(s, p).Some? {
      LinkAtMatch(s, p);
    }
  }

  /** A pass over one plain node whose text holds one pair, whose rebuilt
      syntax splits the text into `before` and `after`. */
  lemma OnePairPass(text: string, markup: Markup, pair: (string, string), before: string, after: string)
    requires Extract(markup, text) == [pair]
    requires SplitOnce(text, Rebuilt(markup, pair)) == [before, after]
    ensures var out := (if before != "" then [Plain(before, Text)] else [])
                       + [TextNode(pair.0, markup.Kind(), Some(pair.1))]
                       + (if after != "" then [Plain(after, Text)] else []);
            && SplitNodeMarkup(Plain(text, Text), markup) == out
            && MarkupSplit([Plain(text, Text)], markup) == out
  {
    var node := Plain(text, Text);
    var lead := if before != "" then [Plain(before, Text)] else [];
    assert [pair][..0] == [];
    assert CutPairs(text, [], markup) == Cut([], text);
    assert CutPairs(text, [pair], markup) == Cut(lead + [TextNode(pair.0, markup.Kind(), Some(pair.1))], after);
    assert [node][..0] == [];
    assert MarkupSplit([node], markup) == FlatMap([], SplitNodeFn(markup)) + SplitNodeMarkup(node, markup);
  }

  /** Over two nodes, when the first maps to itself the result is that
      node followed by what the second maps to. */
  lemma FlatMapTwo(first: TextNode, second: TextNode, f: TextNode -> seq<TextNode>)
    requires f(first) == [first]
    ensures FlatMap([first, second], f) == [first] + f(second)
  {
    var nodes := [first, second];
    FlatMapStep(nodes, 0, f);
    FlatMapStep(nodes, 1, f);
    assert nodes[..0] == [] && nodes[..2] == nodes;
  }

  const ImageThenLink: string := "![a](u) [a](u)"

  /** No link starts in the image syntax or the space after it. */
  lemma NoLinkBeforeSecond()
    ensures forall k :: 0 <= k < 8 ==> LinkTry(ImageThenLink)(k).None?
  {
    var s := ImageThenLink;
    forall k | 0 <= k < 8
      ensures LinkTry(s)(k).None?
    {
      NoLinkAt(s, k);
    }
  }

  /** The link `[a](u)` starts at index 8, after a space. */
  lemma LinkAtEight()
    ensures IsLinkMatch(ImageThenLink, Match(8, 14, "a", "u"))
  {
    var s := ImageThenLink;
    assert s[7] == ' ' && s[8] == '[';
    assert s[9..10] == "a" && s[10] == ']' && s[11] == '(';
    assert s[12..13] == "u" && s[13] == ')';
    assert BracketsAt(s, 9, "a", "u");
  }

  /** The link extractor skips the image and reports the link after it. */
  lemma LinksAfterImage()
    ensures ExtractMarkdownLinks(Some(ImageThenLink)) == [("a", "u")]
  {
    var s := ImageThenLink;
    var m := Match(8, 14, "a", "u");
    LinkAtEight();
    LinkAtFinds(s, m);
    NoLinkBeforeSecond();
    ScanSkip(|s|, 0, 8, LinkTry(s));
    assert ScanLinks(s) == [m];
  }

  /** The rebuilt link syntax occurs first inside the image syntax. */
  lemma LinkSyntaxInsideImage()
    ensures SplitOnce(ImageThenLink, Rebuilt(LinkMarkup, ("a", "u"))) == ["!", " [a](u)"]
  {
    var s := ImageThenLink;
    var md := Rebuilt(LinkMarkup, ("a", "u"));
    assert md == "[a](u)";
    assert OccursAt(s, md, 1) by {
      assert s[1..7] == md;
    }
    forall j: nat | j < 1
      ensures !OccursAt(s, md, j)
    {
      assert s[0] != md[0];
    }
    FindAt(s, md, 1);
    assert s[..1] == "!" && s[7..] == " [a](u)";
  }

  /** Run on its own, `split_nodes_link` looks for the rebuilt `[a](u)` and
      finds it first inside the image syntax: the link node is cut out of
      the image, and the real link stays in the plain text after it. */
  lemma LinkPassCutsInsideImage()
    ensures MarkupSplit([Plain(ImageThenLink, Text)], LinkMarkup)
            == [Plain("!", Text), TextNode("a", Link, Some("u")), Plain(" [a](u)", Text)]
  {
    LinksAfterImage();
    LinkSyntaxInsideImage();
    OnePairPass(ImageThenLink, LinkMarkup, ("a", "u"), "!", " [a](u)");
  }

  /** Text without delimiters goes through the three delimiter passes
      unchanged, as one plain node, so only the image and link passes act. */
  lemma NoDelimiters(text: string, afterImages: seq<TextNode>, out: seq<TextNode>)
    requires Lacks(text, '`') && Absent(text, "**") && Lacks(text, '_')
    requires MarkupSplit([Plain(text, Text)], ImageMarkup) == afterImages
    requires MarkupSplit(afterImages, LinkMarkup) == out
    ensures TextToTextNodes(text) == Ok(out)
  {
    var start := [Plain(text, Text)];
    LacksAbsent(text, '`');
    LacksAbsent(text, '_');
    CountZero(text, "`");
    CountZero(text, "**");
    CountZero(text, "_");
    DelimiterSplitUnchanged(start, "`", TextType.Code);
    DelimiterSplitUnchanged(start, "**", Bold);
    DelimiterSplitUnchanged(start, "_", Italic);
  }

  /** No image starts at a character other than `!`. */
  lemma NoImageAt(s: string, p: nat)
    requires p < |s| && s[p] != '!'
    ensures ImageAt(s, p).None?
  {
  }

  /** No image starts after the first one. */
  lemma NoImageAfterFirst()
    ensures forall k :: 7 <= k < |ImageThenLink| ==> ImageTry(ImageThenLink)(k).None?
  {
    var s := ImageThenLink;
    forall k | 7 <= k < |s|
      ensures ImageTry(s)(k).None?
    {
      NoImageAt(s, k);
    }
  }

  /** The text opens with the image `![a](u)`. */
  lemma ImageAtStart()
    ensures IsImageMatch(ImageThenLink, Match(0, 7, "a", "u"))
  {
    var s := ImageThenLink;
    assert s[0] == '!' && s[1] == '[';
    assert s[2..3] == "a" && s[3] == ']' && s[4] == '(';
    assert s[5..6] == "u" && s[6] == ')';
    assert BracketsAt(s, 2, "a", "u");
  }

  /** The image extractor reports the image at the start. */
  lemma ImageFirst()
    ensures ExtractMarkdownImages(Some(ImageThenLink)) == [("a", "u")]
  {
    var s := ImageThenLink;
    var m := Match(0, 7, "a", "u");
    ImageAtStart();
    ImageAtFinds(s, m);
    NoImageAfterFirst();
    ScanSkip(|s|, 7, |s|, ImageTry(s));
    assert ScanImages(s) == [m];
  }

  /** The rebuilt image syntax is the start of the text. */
  lemma ImageSyntaxAtFront()
    ensures SplitOnce(ImageThenLink, Rebuilt(ImageMarkup, ("a", "u"))) == ["", " [a](u)"]
  {
    var s := ImageThenLink;
    var md := Rebuilt(ImageMarkup, ("a", "u"));
    assert md == "![a](u)";
    assert OccursAt(s, md, 0) by {
      assert s[0..7] == md;
    }
    FindAt(s, md, 0);
    assert s[..0] == "" && s[7..] == " [a](u)";
  }

  /** The image pass cuts the image off the front of the text. */
  lemma ImagePassFirst()
    ensures MarkupSplit([Plain(ImageThenLink, Text)], ImageMarkup)
            == [TextNode("a", Image, Some("u")), Plain(" [a](u)", Text)]
  {
    ImageFirst();
    ImageSyntaxAtFront();
    OnePairPass(ImageThenLink, ImageMarkup, ("a", "u"), "", " [a](u)");
  }

  const LinkAfterSpace: string := " [a](u)"

  /** The link `[a](u)` starts at index 1, after a space. */
  lemma LinkAtOne()
    ensures IsLinkMatch(LinkAfterSpace, Match(1, 7, "a", "u"))
  {
    var t := LinkAfterSpace;
    assert t[0] == ' ' && t[1] == '[';
    assert t[2..3] == "a" && t[3] == ']' && t[4] == '(';
    assert t[5..6] == "u" && t[6] == ')';
    assert BracketsAt(t, 2, "a", "u");
  }

  /** What is left after the image holds the link, one position in. */
  lemma LinkInRest()
    ensures ExtractMarkdownLinks(Some(LinkAfterSpace)) == [("a", "u")]
  {
    var t := LinkAfterSpace;
    var m := Match(1, 7, "a", "u");
    LinkAtOne();
    LinkAtFinds(t, m);
    NoLinkAt(t, 0);
    ScanSkip(|t|, 0, 1, LinkTry(t));
    assert ScanLinks(t) == [m];
  }

  /** The rebuilt link syntax is found where the link is. */
  lemma LinkSyntaxInRest()
    ensures SplitOnce(LinkAfterSpace, Rebuilt(LinkMarkup, ("a", "u"))) == [" ", ""]
  {
    var t := LinkAfterSpace;
    var md := Rebuilt(LinkMarkup, ("a", "u"));
    assert md == "[a](u)";
    assert OccursAt(t, md, 1) by {
      assert t[1..7] == md;
    }
    forall j: nat | j < 1
      ensures !OccursAt(t, md, j)
    {
      assert t[0] != md[0];
    }
    FindAt(t, md, 1);
    assert t[..1] == " " && t[7..] == "";
  }

  /** The link pass cuts the rest into the space and the link. */
  lemma LinkPassOnRest()
    ensures SplitNodeMarkup(Plain(LinkAfterSpace, Text), LinkMarkup)
            == [Plain(" ", Text), TextNode("a", Link, Some("u"))]
  {
    LinkInRest();
    LinkSyntaxInRest();
    OnePairPass(LinkAfterSpace, LinkMarkup, ("a", "u"), " ", "");
  }

  /** The text holds no delimiter. */
  lemma ImageThenLinkUndelimited()
    ensures Lacks(ImageThenLink, '`') && Absent(ImageThenLink, "**") && Lacks(ImageThenLink, '_')
  {
    var s := ImageThenLink;
    LacksAbsent(s, '*');
    forall k: nat | k <= |s|
      ensures !OccursAt(s, "**", k)
    {
      if k + 2 <= |s| {
        assert s[k..k + 2][0] == s[k];
      }
    }
  }

  /** The link pass leaves the image and cuts the rest. */
  lemma LinkPassAfterImage()
    ensures MarkupSplit([TextNode("a", Image, Some("u")), Plain(LinkAfterSpace, Text)], LinkMarkup)
            == [TextNode("a", Image, Some("u")), Plain(" ", Text), TextNode("a", Link, Some("u"))]
  {
    var image := TextNode("a", Image, Some("u"));
    var rest := Plain(LinkAfterSpace, Text);
    var f := SplitNodeFn(LinkMarkup);
    LinkPassOnRest();
    assert f(image) == [image];
    assert f(rest) == SplitNodeMarkup(rest, LinkMarkup);
    FlatMapTwo(image, rest, f);
  }

  /** Within `text_to_textnodes` the image pass runs first, so the same
      text gives the image, the space and the link. */
  lemma PipelineSeparatesImageAndLink()
    ensures TextToTextNodes(ImageThenLink)
            == Ok([TextNode("a", Image, Some("u")), Plain(" ", Text), TextNode("a", Link, Some("u"))])
  {
    ImageThenLinkUndelimited();
    ImagePassFirst();
    LinkPassAfterImage();
    NoDelimiters(ImageThenLink,
                 [TextNode("a", Image, Some("u")), Plain(LinkAfterSpace, Text)],
                 [TextNode("a", Image, Some("u")), Plain(" ", Text), TextNode("a", Link, Some("u"))]);
  }

  /** The empty text is one empty plain node. */
  lemma EmptyTextIsOnePlainNode()
    ensures TextToTextNodes("") == Ok([Plain("", Text)])
  {
    PlainTextStaysPlain("");
  }

  /** A document of one line that qualifies has that line's title. */
  lemma OneLineTitle(line: string)
    requires Absent(line, "\n") && IsTitleLine(line)
    ensures ExtractTitle(line) == Ok(TitleOf(line))
  {
    SplitWhole(line, "\n");
  }

  /** A single `# ` line is the title, without its marker. */
  lemma TitleOfOneLine()
    ensures ExtractTitle("# Hello") == Ok("Hello")
  {
    LacksAbsent("# Hello", '\n');
    TitleLineOf("# Hello", "Hello");
    OneLineTitle("# Hello");
  }

  /** A first line without a newline is the first piece of the split. */
  lemma SplitFirstLine(a: string, rest: string)
    requires Absent(a, "\n")
    ensures Split(a + "\n" + rest, "\n") == [a] + Split(rest, "\n")
  {
    var s := a + "\n" + rest;
    assert OccursAt(s, "\n", |a|) by {
      assert s[|a|..|a| + 1] == "\n";
    }
    forall j: nat | j < |a|
      ensures !OccursAt(s, "\n", j)
    {
      assert !OccursAt(a, "\n", j);
      assert s[j..j + 1] == a[j..j + 1];
    }
    FindAt(s, "\n", |a|);
    assert s[..|a|] == a && s[|a| + 1..] == rest;
  }

  /** Two lines without newlines, joined by one, split back into them. */
  lemma SplitTwoLines(a: string, b: string)
    requires Absent(a, "\n") && Absent(b, "\n")
    ensures Split(a + "\n" + b, "\n") == [a, b]
  {
    SplitFirstLine(a, b);
    SplitWhole(b, "\n");
  }

  /** In a two-line document whose first line does not qualify, the
      title comes from the second. */
  lemma SecondLineTitle(a: string, b: string)
    requires Absent(a, "\n") && Absent(b, "\n")
    requires !IsTitleLine(a) && IsTitleLine(b)
    ensures ExtractTitle(a + "\n" + b) == Ok(TitleOf(b))
  {
    SplitTwoLines(a, b);
    assert [a, b][1..] == [b];
    assert FirstTitle([a, b]) == FirstTitle([b]);
    assert FirstTitle([b]) == Ok(TitleOf(b));
  }

  /** A stripped line that qualifies: its title is what follows `# `. */
  lemma TitleLineOf(line: string, title: string)
    requires line == "# " + title && title != []
    requires !IsSpace(title[0]) && !IsSpace(title[|title| - 1])
    ensures IsTitleLine(line) && TitleOf(line) == title
  {
    StripUnchanged(line);
    assert line[..2] == "# ";
    assert line[2] == title[0];
    assert Drop(line, 2) == title;
    StripUnchanged(title);
  }

  /** A stripped `## ` line does not qualify. */
  lemma SecondLevelLine(line: string, heading: string)
    requires line == "## " + heading && heading != [] && !IsSpace(heading[|heading| - 1])
    ensures !IsTitleLine(line)
  {
    StripUnchanged(line);
    DoubleHashNeverChosen(line);
    assert line[..2] == "##";
  }

  const SecondLevelFirst: string := "## Not a title\n# The Real Title"

  /** Its first line is passed over. */
  lemma NotATitleLine()
    ensures Absent("## Not a title", "\n") && !IsTitleLine("## Not a title")
  {
    LacksAbsent("## Not a title", '\n');
    SecondLevelLine("## Not a title", "Not a title");
  }

  /** Its second line qualifies. */
  lemma RealTitleLine()
    ensures Absent("# The Real Title", "\n")
    ensures IsTitleLine("# The Real Title") && TitleOf("# The Real Title") == "The Real Title"
  {
    LacksAbsent("# The Real Title", '\n');
    TitleLineOf("# The Real Title", "The Real Title");
  }

  /** An `##` line before the `# ` line is passed over. */
  lemma TitleSkipsSecondLevel()
    ensures ExtractTitle(SecondLevelFirst) == Ok("The Real Title")
  {
    assert SecondLevelFirst == "## Not a title" + "\n" + "# The Real Title";
    NotATitleLine();
    RealTitleLine();
    SecondLineTitle("## Not a title", "# The Real Title");
  }

  /** A line of one digit, `. ` and an item is line `n` of an ordered list,
      `n` being the digit's value. */
  lemma DigitLine(line: string, d: char, item: string, n: nat)
    requires line == [d] + ". " + item && IsDigit(d) && n == (d as int) - ('0' as int)
    ensures Blocks.IsOrderedLine(line, n)
  {
    assert line[1..][0] == '.';
    assert LeadingDigits(line) == 1;
    assert line[..1] == [d];
    assert [d][..0] == [];
  }

  /** A two-line block whose first line starts with a digit passes none of
      the tests before the ordered-list test: it is an ordered list when its
      lines are numbered 1 and 2, and a paragraph otherwise. */
  lemma DigitBlock(first: string, second: string)
    requires Absent(first, "\n") && Absent(second, "\n") && first != [] && IsDigit(first[0])
    ensures Blocks.Classify(first + "\n" + second)
            == if Blocks.IsOrderedLine(first, 1) && Blocks.IsOrderedLine(second, 2)
               then Blocks.OrderedList else Blocks.Paragraph
  {
    var block := first + "\n" + second;
    var lines := [first, second];
    SplitTwoLines(first, second);
    assert !Blocks.IsHeadingLine(first) by {
      assert Blocks.LeadingHashes(first) == 0;
    }
    assert !Blocks.IsCodeBlock(block) by {
      assert block[0] == first[0];
      if |block| >= 3 {
        assert block[..3][0] == block[0];
      }
    }
    assert !Blocks.IsQuoteBlock(lines) by {
      assert lines[0][..1][0] == first[0];
    }
    assert !Blocks.IsUnorderedBlock(lines) by {
      if |first| >= 2 {
        assert lines[0][..2][0] == first[0];
      }
    }
    assert Blocks.IsOrderedBlock(lines) <==> Blocks.IsOrderedLine(first, 1) && Blocks.IsOrderedLine(second, 2) by {
      assert lines[0] == first && lines[1] == second;
    }
  }

  /** The two lines of each example: single lines, numbered by their digit. */
  lemma NumberedLines()
    ensures Absent("1. a", "\n") && Absent("2. b", "\n") && Absent("3. b", "\n")
    ensures Blocks.IsOrderedLine("1. a", 1) && Blocks.IsOrderedLine("2. b", 2)
    ensures Blocks.IsOrderedLine("3. b", 3)
  {
    LacksAbsent("1. a", '\n');
    LacksAbsent("2. b", '\n');
    LacksAbsent("3. b", '\n');
    DigitLine("1. a", '1', "a", 1);
    DigitLine("2. b", '2', "b", 2);
    DigitLine("3. b", '3', "b", 3);
  }

  /** Lines numbered 1 and 2 make an ordered list. */
  lemma CountingListIsOrdered()
    ensures Blocks.Classify("1. a\n2. b") == Blocks.OrderedList
  {
    NumberedLines();
    DigitBlock("1. a", "2. b");
    assert "1. a" + "\n" + "2. b" == "1. a\n2. b";
  }

  /** Numbers must count up from 1 without a gap: lines numbered 1 and 3
      make a paragraph. */
  lemma SkippedNumberIsParagraph()
    ensures Blocks.Classify("1. a\n3. b") == Blocks.Paragraph
  {
    NumberedLines();
    DigitBlock("1. a", "3. b");
    assert "1. a" + "\n" + "3. b" == "1. a\n3. b";
  }
}
