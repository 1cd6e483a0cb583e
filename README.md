# Markdown to HTML node tree, modelled in Dafny

This project models the core of a small static-site generator. The core turns
a Markdown document into an HTML node tree and finds the page title. It has
these parts:

- **Inline tokenizer** (`node_splitter.py`). A run of text becomes a list of
  typed text nodes: plain, bold, italic, code, image and link. It does this in
  five passes, in a fixed order: backtick, `**` and `_` delimiter splitting,
  then image syntax `![alt](url)`, then link syntax `[anchor](url)`.
- **Extractors** (`markdown_extractor.py`). Two regular expressions find
  images and links. Each bracketed part of these expressions is a maximal run
  of one character class, so neither ever backtracks. The model therefore
  writes each one as a left-to-right scanner over the string and proves the
  scanner equal to the pattern's definition of a match.
- **Blocks** (`node_splitter.py`). A document splits at blank lines `"\n\n"`
  into stripped, non-empty blocks. Each block gets one of six types: heading,
  code, quote, unordered list, ordered list or paragraph.
- **HTML builder** (`node_splitter.py`). Each block becomes one HTML node, and
  the document becomes a `div` holding them in order.
- **Title** (`extract_title.py`). The title is the first line that starts with
  `# ` once stripped.

Python's string builtins are written out in module `Strings`: `find`/`index`,
`split(sep)`, `split(sep, 1)`, `count`, `join`, `strip`, `split()`, clamped
slicing and `isdigit`. Whitespace for `strip` and `split()` is the set of
characters for which Python's `str.isspace` holds. Every `raise ValueError`
becomes an `Err` of the `Result` type in module `Results`.

The operations that work by appending in a loop are `method`s with loop
invariants:

- `split_nodes_delimiter`, `split_nodes_image` and `split_nodes_link`;
- the hash-counting and digit loops of `block_to_block_type`;
- the loops of `markdown_to_html_node`.

Each method is proved equal to a specification function. The functions that
specify a loop over a list recurse on its last element, mirroring the loop;
the scans over the characters of a string (`LeadingHashes`, `LeadingDigits`,
`LeadingSpaces`, `WordLength`, `Words`) recurse on its first character. The
properties the source promises are proved as lemmas about those functions.

Files:

- `results.dfy`: `Option`, the `Error` and `Result` types, and `MapAll`, a
  loop that aborts on the first error.
- `strings.dfy`: Python string operations and their properties.
- `nodes.dfy`: text nodes and HTML nodes.
- `markdown_extractor.dfy`: the image and link matchers.
- `inline_tokens.dfy`: the inline passes and `text_to_textnodes`.
- `blocks.dfy`: `markdown_to_blocks`, `BlockType` and `block_to_block_type`.
- `html_builder.dfy`: `text_to_children` and `markdown_to_html_node`.
- `extract_title.dfy`: `extract_title`.
- `cases.dfy`: concrete inputs worked through the general lemmas.

`split_nodes_link` is modelled as written: for each link the extractor reports,
it cuts the text at the first occurrence of the rebuilt `[anchor](url)`. When
it runs on its own over text that holds an image with the same alt text and
URL before the link, that occurrence lies inside the image syntax
(`Cases.LinkPassCutsInsideImage`). Inside `text_to_textnodes` the image pass
runs first and removes the image, so the pipeline gives the expected nodes
(`Cases.PipelineSeparatesImageAndLink`).

## Model

| member | source | states |
|---|---|---|
| Strings.Find | src/node_splitter.py:333 | the index `str.find`/`str.index` returns lies inside the string with room for the separator |
| Strings.FindSpec | src/node_splitter.py:333 | the separator occurs at the index returned, at no earlier index, and `None` (the `index` error) exactly when it occurs nowhere |
| Strings.FindAt | src/node_splitter.py:333 | an occurrence with none before it is the one found |
| Strings.CountZero | src/node_splitter.py:42-45 | `str.count` is zero exactly when the delimiter does not occur |
| Strings.SplitAbsent | src/node_splitter.py:49 | no piece of `str.split(sep)` contains the separator |
| Strings.SplitCount | src/node_splitter.py:42-49 | `split` gives one more piece than `count` counts occurrences, so an even count means an odd number of pieces |
| Strings.JoinSplit | src/node_splitter.py:175 | joining the pieces of `split(sep)` with `sep` gives the string back |
| Strings.FindAfterPart | src/node_splitter.py:175 | when a part followed by the separator holds no earlier occurrence, `find` stops right after the part |
| Strings.SplitJoin | src/node_splitter.py:175 | joining parts with a separator and splitting again gives the parts back, when no separator occurs in a part or across a part's end |
| Strings.SplitWhole | src/extract_title.py:16 | with no separator in the text, `split` gives the whole text as its one piece |
| Strings.ConcatSplit | src/node_splitter.py:49-58 | the pieces concatenate to the text with every separator removed |
| Strings.SplitOnceParts | src/node_splitter.py:86 | `split(sep, 1)` gives one piece (the text) exactly when `sep` is absent, otherwise the text before the first occurrence and the rest, which rejoin to the text |
| Strings.Drop | src/node_splitter.py:289 | `s[i:]` has the clamped length and follows the first `i` characters |
| Strings.LeadingSpaces | src/node_splitter.py:178 | the leading run counted by `strip` is all whitespace and stops at a non-space |
| Strings.TrailingSpaces | src/node_splitter.py:178 | the trailing run counted by `strip` is all whitespace and stops at a non-space |
| Strings.StripSpec | src/node_splitter.py:178 | `strip` gives a slice with only whitespace around it and non-space ends, and it is empty exactly when the string is all whitespace |
| Strings.StripUnchanged | src/node_splitter.py:178 | a string without whitespace at either end is left as it is |
| Strings.StripIdempotent | src/node_splitter.py:178 | stripping twice is stripping once |
| Strings.WordLength | src/node_splitter.py:276 | the first word of `split()` fits in the text, and it is non-empty when the text starts with a non-space |
| Strings.WordLengthSpec | src/node_splitter.py:276 | the characters counted as the first word are none of them whitespace |
| Strings.WordStop | src/node_splitter.py:276 | the first word ends at whitespace or at the end of the text |
| Strings.WordsShape | src/node_splitter.py:276 | every word of `split()` is non-empty and holds no whitespace |
| Strings.WordsWeave | src/node_splitter.py:276 | the text is its whitespace gaps and its words laid out alternately, with one more gap than words |
| Strings.GapsSpace | src/node_splitter.py:276 | every gap between, before or after the words is whitespace |
| Strings.GapsBetweenWords | src/node_splitter.py:276 | every gap between two words is non-empty; with the three rows above, the words are exactly the maximal runs of non-whitespace, in order |
| Strings.WordsOfJoin | src/node_splitter.py:276 | splitting non-empty, whitespace-free words joined by single spaces gives those words back |
| Strings.CollapseKeepsWords | src/node_splitter.py:276 | `" ".join(s.split())` has the same words as `s` |
| Strings.CollapseSpacesShape | src/node_splitter.py:276 | words joined by single spaces: the only whitespace is a space, no two spaces are adjacent, and neither end is a space |
| Strings.LeadingDigits | src/node_splitter.py:224-229 | the `num_str` loop takes the digits at the start and stops at the first non-digit |
| Strings.DecimalRoundTrip | src/node_splitter.py:291 | the decimal text of a level is all digits and reads back as that level |
| MarkdownExtractor.BracketsFromSome | src/markdown_extractor.py:10 | what the bracket parser returns is laid out as `[text](url)` at that position, with `text` free of `]` and `url` non-empty and free of `)` |
| MarkdownExtractor.BracketsFromFinds | src/markdown_extractor.py:10 | any such layout at a position is what the bracket parser returns there |
| MarkdownExtractor.ImageAtIff | src/markdown_extractor.py:10 | the image matcher accepts at a position exactly the matches of `!\[([^\]]*)\]\(([^)]+)\)` starting there |
| MarkdownExtractor.LinkAtIff | src/markdown_extractor.py:21 | the link matcher accepts at a position exactly the matches of `(?<!\!)\[([^\]]+)\]\(([^)]+)\)` starting there, the look-behind included |
| MarkdownExtractor.ScanSound | src/markdown_extractor.py:11 | every match the scan reports is one the matcher accepts, and they come in order without overlapping |
| MarkdownExtractor.ScanCovers | src/markdown_extractor.py:11 | every position where the matcher would match lies inside some reported match, so the scan misses nothing |
| MarkdownExtractor.ScanImagesSound | src/markdown_extractor.py:4-11 | every image match of `finditer` is a match of the pattern, in order and non-overlapping |
| MarkdownExtractor.ScanLinksSound | src/markdown_extractor.py:14-22 | every link match of `finditer` is a match of the pattern, in order and non-overlapping |
| MarkdownExtractor.ExtractMarkdownImages | src/markdown_extractor.py:8-9 | no text gives no images |
| MarkdownExtractor.ExtractMarkdownLinks | src/markdown_extractor.py:18-19 | no text gives no links |
| MarkdownExtractor.ImagePairsShape | src/markdown_extractor.py:10-11 | every alt text is free of `]`, and every url is non-empty and free of `)` |
| MarkdownExtractor.LinkPairsShape | src/markdown_extractor.py:21-22 | every anchor is non-empty and free of `]`, and every url is non-empty and free of `)` |
| MarkdownExtractor.ImagesOccurInText | src/markdown_extractor.py:4-11 | the syntax `![alt](url)` rebuilt from each extracted pair occurs in the text |
| MarkdownExtractor.LinksOccurInText | src/markdown_extractor.py:14-22 | the syntax `[anchor](url)` rebuilt from each extracted pair occurs in the text |
| MarkdownExtractor.NoImagesIff | src/markdown_extractor.py:4-11 | the extractor returns no images exactly when the text holds no match anywhere |
| MarkdownExtractor.NoLinksIff | src/markdown_extractor.py:14-22 | the extractor returns no links exactly when the text holds no match anywhere |
| MarkdownExtractor.NoBracketNoMatches | src/markdown_extractor.py:4-22 | text without `[` has neither images nor links |
| MarkdownExtractor.ImageSyntaxIsNoLink | src/markdown_extractor.py:20-21 | the syntax `![alt](url)` of an image whose alt text and url hold no `[` has no link match |
| InlineTokens.SplitNodesDelimiter | src/node_splitter.py:18-60 | the loop of `split_nodes_delimiter` returns what `DelimiterSplit` specifies, including its errors |
| InlineTokens.AppendPieces | src/node_splitter.py:51-58 | the inner loop appends exactly the nodes made from the pieces |
| InlineTokens.SplitEachErrSticky | src/node_splitter.py:46-47 | once a node raises, the pass's result is that error, whatever follows |
| InlineTokens.DelimiterSplitFails | src/node_splitter.py:27-28 | the pass fails with the empty-delimiter error exactly when the delimiter is empty; otherwise it fails exactly when some text node holds an odd number of delimiters, with that node's text in the error (lines 46-47) |
| InlineTokens.DelimiterSplitUnchanged | src/node_splitter.py:31-45 | non-text nodes and text without the delimiter pass through: a list of such nodes is returned unchanged |
| InlineTokens.DelimiterSplitConcat | src/node_splitter.py:31-60 | a successful pass splits every node without error and returns what each node becomes, concatenated in input order |
| InlineTokens.PieceNodesText | src/node_splitter.py:51-58 | the nodes made from one piece hold exactly that piece's text |
| InlineTokens.PiecesToNodesTexts | src/node_splitter.py:49-58 | the nodes made from the pieces concatenate to the pieces |
| InlineTokens.PiecesToNodesCount | src/node_splitter.py:51-58 | exactly one typed node per odd piece, so half as many as there are pieces |
| InlineTokens.PiecesToNodesNoEmpty | src/node_splitter.py:52-55 | no empty plain text node is emitted |
| InlineTokens.SplitNodeEven | src/node_splitter.py:41-58 | a text node with an even, non-zero delimiter count is split without error into nodes whose texts are its text with the delimiters removed, with no empty plain node and count/2 typed nodes |
| InlineTokens.DelimiterSplitErr | src/node_splitter.py:27-47 | with a non-empty delimiter the only failure is an unmatched delimiter |
| InlineTokens.Rebuilt | src/node_splitter.py:84 | the rebuilt syntax searched for is never empty |
| InlineTokens.SplitNodesMarkup | src/node_splitter.py:63-144 | the loop shared by the image and link passes returns what `MarkupSplit` specifies |
| InlineTokens.AppendSplitNode | src/node_splitter.py:74-100 | one node's iteration appends exactly what that node becomes |
| InlineTokens.AppendCuts | src/node_splitter.py:81-96 | the loop over the pairs appends the nodes `CutPairs` emits and leaves its remaining text |
| InlineTokens.SplitNodesImage | src/node_splitter.py:63-102 | `split_nodes_image` is the shared pass with the image matcher |
| InlineTokens.SplitNodesLink | src/node_splitter.py:105-144 | `split_nodes_link` is the shared pass with the link matcher |
| InlineTokens.CutPairsTyped | src/node_splitter.py:81-96 | the typed nodes emitted are one per pair, in pair order, carrying the alt or anchor and the url |
| InlineTokens.CutPairsNoEmpty | src/node_splitter.py:81-96 | no emitted plain text node is empty |
| InlineTokens.SplitNodeMarkupKeeps | src/node_splitter.py:70-79 | a non-text node, or text without matches, passes through unchanged |
| InlineTokens.SplitNodeMarkupShape | src/node_splitter.py:74-100 | a text node with matches becomes one typed node per match, in match order, with only non-empty plain text between them |
| InlineTokens.MarkupSplitUnchanged | src/node_splitter.py:63-102 | a list with no text node holding a match is returned unchanged |
| InlineTokens.ScanAt | src/node_splitter.py:82-86 | the syntax rebuilt from a match's pair occurs where the match is, ends where it ends, and ends before the next match |
| InlineTokens.CutPairsInvariant | src/node_splitter.py:81-96 | the remaining text is always a suffix of the node's text that starts no later than the next match, and the nodes emitted so far unparse to the text before it, so every rebuilt syntax is found and the `else ""` fallback never runs |
| InlineTokens.CutOne | src/node_splitter.py:84-96 | a cut at a syntax that occurs in the remaining text finds it no later than that occurrence and keeps the unparsed text intact |
| InlineTokens.SplitNodeMarkupLossless | src/node_splitter.py:74-100 | unparsing the nodes one text node is cut into gives its text back |
| InlineTokens.MarkupSplitLossless | src/node_splitter.py:63-144 | the image and link passes lose no text: their output unparses to the same Markdown as their input |
| InlineTokens.PlainTextStaysPlain | src/node_splitter.py:147-164 | text without backtick, `**`, `_` and `[` becomes one plain node holding it |
| InlineTokens.TextToTextNodesErr | src/node_splitter.py:154-162 | `text_to_textnodes` can fail only on an unmatched delimiter |
| Blocks.KeptPieces | src/node_splitter.py:175-178 | each block is the stripped form of the piece at its kept index |
| Blocks.KeptIncreasing | src/node_splitter.py:178 | the kept indices increase, so the blocks keep document order |
| Blocks.KeptComplete | src/node_splitter.py:178 | every piece that is not blank after stripping is kept |
| Blocks.BlocksInOrder | src/node_splitter.py:167-178 | `markdown_to_blocks` returns, in order, exactly the stripped non-blank pieces between blank lines |
| Blocks.BlocksStripped | src/node_splitter.py:178 | every block is non-empty, starts and ends with a non-space, and is its own strip |
| Blocks.BlankHasNoBlocks | src/node_splitter.py:175-178 | a document of whitespace only has no blocks |
| Blocks.BlocksHaveNoBlankLine | src/node_splitter.py:175-178 | no block contains `"\n\n"` |
| Blocks.BlockNewlineAbsent | src/node_splitter.py:175-178 | a block followed by one newline still holds no `"\n\n"`, since it does not end with a newline |
| Blocks.NonBlankKeepsStripped | src/node_splitter.py:178 | pieces that are non-empty and already stripped are all kept as they are |
| Blocks.BlocksRoundTrip | src/node_splitter.py:167-178 | joining the blocks with `"\n\n"` and splitting again gives the same blocks |
| Blocks.LeadingHashes | src/node_splitter.py:195-200 | the number of leading `#` is at most the line's length |
| Blocks.HashRun | src/node_splitter.py:195-200 | the counted characters are all `#` and the next one is not |
| Blocks.CountHashes | src/node_splitter.py:195-200 | the `hashes` loop counts the leading `#` |
| Blocks.ReadDigits | src/node_splitter.py:224-229 | the `num_str` loop collects the leading digits |
| Blocks.CheckOrderedLine | src/node_splitter.py:219-242 | one line passes exactly when it is digits whose value is its number, then `. `; a line that ends after the dot fails, as the caught `IndexError` does |
| Blocks.CheckOrderedList | src/node_splitter.py:217-245 | the ordered-list loop answers exactly whether line `i` is numbered `i` for every `i` from 1 |
| Blocks.BlockToBlockType | src/node_splitter.py:181-248 | `block_to_block_type` returns what `Classify` specifies |
| Blocks.HeadingFirstLine | src/node_splitter.py:191-202 | testing the first line for a heading is testing the block |
| Blocks.HeadingIff | src/node_splitter.py:193-202 | a block is a heading exactly when it starts with one to six `#` followed by a space |
| Blocks.SevenHashesNoHeading | src/node_splitter.py:201 | seven or more `#` never make a heading |
| Blocks.CodeIff | src/node_splitter.py:205-206 | a block is code exactly when it starts and ends with three backticks (such a block cannot be a heading) |
| Blocks.QuoteIff | src/node_splitter.py:209-210 | a block is a quote exactly when every line starts with `>` |
| Blocks.UnorderedIff | src/node_splitter.py:213-214 | a block is an unordered list exactly when every line starts with `- ` |
| Blocks.OrderedIff | src/node_splitter.py:216-245 | a block is an ordered list exactly when line `i` carries number `i` followed by `. ` for every line |
| Blocks.LeadingZeroCounts | src/node_splitter.py:230-235 | `int()` accepts leading zeros, so `01. a` is a valid first item |
| HtmlBuilder.CollectQuoteLines | src/node_splitter.py:304-311 | the quote loop strips `> ` or `>` from each line and drops lines without `>` |
| HtmlBuilder.BuildList | src/node_splitter.py:316-337 | the list loops build one `li` per line, or stop at the first error |
| HtmlBuilder.BlockNode | src/node_splitter.py:272-337 | one iteration of the block loop builds what `BlockToNode` specifies |
| HtmlBuilder.MarkdownToHtmlNode | src/node_splitter.py:262-339 | `markdown_to_html_node` returns what `MarkdownToHtml` specifies |
| HtmlBuilder.MarkdownToHtmlShape | src/node_splitter.py:262-339 | the document succeeds exactly when every block does; it is then a `div` with one child per block, in block order |
| HtmlBuilder.MarkdownToHtmlFirstError | src/node_splitter.py:271-278 | a failing document reports the error of its first failing block |
| HtmlBuilder.BlankDocument | src/node_splitter.py:268-339 | a document of whitespace only becomes an empty `div` |
| HtmlBuilder.TextToChildrenPlain | src/node_splitter.py:251-259 | text without inline markup becomes a single plain leaf |
| HtmlBuilder.HeadingTagDigit | src/node_splitter.py:291 | the heading tag is `h` followed by the level's digit |
| HtmlBuilder.HeadingBlockNode | src/node_splitter.py:280-291 | a heading block of level 1 to 6 is `#`s, a space and content, and becomes `h1`..`h6` around the inline nodes of the content |
| HtmlBuilder.HeadingLineNode | src/node_splitter.py:280-291 | the same shape and node for any block whose first line passes the heading test |
| HtmlBuilder.CodeTextFences | src/node_splitter.py:296-299 | a code block is the fence, an optional newline, the code text and the closing fence; a block shorter than six characters has empty code text |
| HtmlBuilder.CodeBlockNode | src/node_splitter.py:293-300 | a code block becomes `pre` around `code` around a single leaf with the code text, unparsed |
| HtmlBuilder.QuoteLinesShape | src/node_splitter.py:306-311 | in a quote, each line is its `> ` or `>` prefix followed by its quote line, one quote line per line |
| HtmlBuilder.QuoteBlockNode | src/node_splitter.py:302-314 | a quote becomes `blockquote` around the inline nodes of its lines, prefixes removed and rejoined with newlines |
| HtmlBuilder.ListItems | src/node_splitter.py:316-337 | a list succeeds exactly when every item does, and is then the list tag with one `li` per line, in order |
| HtmlBuilder.UnorderedBlockNode | src/node_splitter.py:316-325 | an unordered list becomes `ul` with one `li` per line, holding the inline nodes of the text after `- ` |
| HtmlBuilder.OrderedLineDot | src/node_splitter.py:333 | in an ordered-list line the first `.` is right after the number, so `index` never raises |
| HtmlBuilder.OrderedItemOf | src/node_splitter.py:331-336 | an ordered item holds the inline nodes of the text after `N. ` |
| HtmlBuilder.OrderedLinesShape | src/node_splitter.py:217-245 | every line of an ordered list is its number, counting from 1, then `. ` and the item text |
| HtmlBuilder.OrderedBlockNode | src/node_splitter.py:327-337 | an ordered list becomes `ol` with one `li` per line, holding the inline nodes of the text after `N. ` |
| HtmlBuilder.ParagraphOneLine | src/node_splitter.py:276 | a normalised paragraph has single spaces as its only whitespace and no space at either end, and its words are those of the block, in order |
| HtmlBuilder.TextToChildrenErr | src/node_splitter.py:251-259 | `text_to_children` can fail only on an unmatched delimiter |
| HtmlBuilder.ListNodeErr | src/node_splitter.py:316-337 | a failing list reports the error of one of its items |
| HtmlBuilder.BlockToNodeErr | src/node_splitter.py:272-337 | a block can fail only on an unmatched delimiter; in particular the ordered-list `index` error never occurs |
| HtmlBuilder.MarkdownToHtmlErr | src/node_splitter.py:262-339 | `markdown_to_html_node` can fail only on an unmatched inline delimiter |
| Title.FirstTitleIndex | src/extract_title.py:17-21 | the stopping index of the search is within the lines |
| Title.FirstTitleIndexSpec | src/extract_title.py:17-21 | no line before the stopping index qualifies, and the line at it does |
| Title.FirstTitleAt | src/extract_title.py:16-23 | the search returns the title of the line where it stops, or `NoTitleFound` when none qualifies |
| Title.ExtractTitleFirst | src/extract_title.py:16-23 | `extract_title` returns the title of the first qualifying line, and fails exactly when no line qualifies |
| Title.DoubleHashNeverChosen | src/extract_title.py:19 | a line qualifies exactly when it strips to something starting with `# `; a line starting with `##` never qualifies |
| Title.TitleStripped | src/extract_title.py:18-21 | the title of a qualifying line is non-empty, has no whitespace at either end, and is its own strip |
| Title.LoneHashNoTitle | src/extract_title.py:19 | a line that strips to a lone `#` does not qualify |
| Title.EmptyHasNoTitle | src/extract_title.py:16-23 | an empty document has no title |
| Cases.LinksAfterImage | src/markdown_extractor.py:14-22 | in `![a](u) [a](u)` the link pattern passes over the image and reports only the link `(a, u)` |
| Cases.LinkAtEight | src/markdown_extractor.py:21 | `![a](u) [a](u)` has a link match of anchor `a` and URL `u` at index 8 |
| Cases.NoLinkBeforeSecond | src/markdown_extractor.py:21 | no link match starts in the first eight characters of `![a](u) [a](u)`, the `[` of the image being preceded by `!` |
| Cases.OnePairPass | src/node_splitter.py:63-144 | a pass over one plain node whose text holds one pair gives the text before the rebuilt syntax (if not empty), the typed node, and the text after it (if not empty) |
| Cases.FlatMapTwo | src/node_splitter.py:108-113 | over two nodes, a first node the pass keeps is followed by what the pass makes of the second |
| Cases.LinkSyntaxInsideImage | src/node_splitter.py:126-128 | in `![a](u) [a](u)` the rebuilt link syntax `[a](u)` first occurs inside the image, so `split(link_md, 1)` gives `!` and ` [a](u)` |
| Cases.LinkPassCutsInsideImage | src/node_splitter.py:105-144 | `split_nodes_link` alone over `![a](u) [a](u)` gives the plain `!`, the link, and the plain ` [a](u)`: the real link stays plain text |
| Cases.NoDelimiters | src/node_splitter.py:147-164 | text with no backtick, no `**` and no `_` passes the delimiter passes unchanged, so `text_to_textnodes` gives the result of the image pass followed by the link pass |
| Cases.ImageFirst | src/markdown_extractor.py:1-11 | in `![a](u) [a](u)` the image pattern reports only the image `(a, u)` |
| Cases.ImageAtStart | src/markdown_extractor.py:10 | `![a](u) [a](u)` opens with an image match of alt `a` and URL `u` |
| Cases.NoImageAfterFirst | src/markdown_extractor.py:10 | no image match starts after the first seven characters of `![a](u) [a](u)` |
| Cases.ImageSyntaxAtFront | src/node_splitter.py:84-86 | in `![a](u) [a](u)` the rebuilt image syntax is found at the start, so `split(image_md, 1)` gives the empty text and ` [a](u)` |
| Cases.ImagePassFirst | src/node_splitter.py:63-102 | the image pass over `![a](u) [a](u)` gives the image node and the plain rest ` [a](u)` |
| Cases.LinkInRest | src/markdown_extractor.py:14-22 | in ` [a](u)` the link pattern reports the link `(a, u)` |
| Cases.LinkAtOne | src/markdown_extractor.py:21 | ` [a](u)` has a link match of anchor `a` and URL `u` at index 1 |
| Cases.LinkSyntaxInRest | src/node_splitter.py:126-128 | `split("[a](u)", 1)` on ` [a](u)` gives the space and the empty rest |
| Cases.LinkPassOnRest | src/node_splitter.py:105-144 | the link pass over the plain ` [a](u)` gives the plain space and the link node, with no empty trailing node |
| Cases.ImageThenLinkUndelimited | src/node_splitter.py:158-160 | `![a](u) [a](u)` holds no backtick, no `**` and no `_` |
| Cases.LinkPassAfterImage | src/node_splitter.py:105-144 | the link pass leaves the image node as it is and cuts the plain rest into the space and the link |
| Cases.PipelineSeparatesImageAndLink | src/node_splitter.py:147-164 | `text_to_textnodes("![a](u) [a](u)")` gives the image, the plain space and the link |
| Cases.DigitLine | src/node_splitter.py:219-242 | a line of one digit, `. ` and an item is the line whose number is that digit |
| Cases.DigitBlock | src/node_splitter.py:181-248 | a two-line block starting with a digit is an ordered list when its lines are numbered 1 and 2, and a paragraph otherwise |
| Cases.NumberedLines | src/node_splitter.py:219-242 | `1. a`, `2. b` and `3. b` are single lines numbered 1, 2 and 3 |
| Cases.CountingListIsOrdered | src/node_splitter.py:216-245 | `1. a\n2. b` is an ordered list |
| Cases.SkippedNumberIsParagraph | src/node_splitter.py:216-248 | `1. a\n3. b` is a paragraph: the numbers must count up from 1 |
| Cases.EmptyTextIsOnePlainNode | src/test_text_to_textnodes.py:101-104 | the empty text gives one empty plain node |
| Cases.OneLineTitle | src/extract_title.py:16-21 | a one-line document whose line qualifies has that line's title |
| Cases.TitleOfOneLine | src/test_extract_title.py:6-9 | the title of `# Hello` is `Hello` |
| Cases.SplitFirstLine | src/extract_title.py:16 | a first line without a newline is the first piece of the split into lines, followed by the lines of the rest |
| Cases.SplitTwoLines | src/extract_title.py:16 | two lines without newlines, joined by one, split back into those two lines |
| Cases.SecondLineTitle | src/extract_title.py:16-21 | in a two-line document whose first line does not qualify and whose second does, the title comes from the second line |
| Cases.TitleLineOf | src/extract_title.py:18-21 | a stripped line `# ` + title qualifies and gives that title |
| Cases.SecondLevelLine | src/extract_title.py:19 | a stripped line starting with `## ` does not qualify |
| Cases.NotATitleLine | src/test_extract_title.py:23 | `## Not a title` does not qualify |
| Cases.RealTitleLine | src/test_extract_title.py:23-24 | `# The Real Title` qualifies and gives `The Real Title` |
| Cases.TitleSkipsSecondLevel | src/test_extract_title.py:21-24 | the title of `## Not a title\n# The Real Title` is `The Real Title` |

## Left out

- `text_node_to_html_node` (`textnode.py`) is not part of this model. The HTML node `Inline(span)` stands for the leaf it makes from a span.
- Rendering the tree to HTML text (`to_html`, `props_to_html`) is not part of this model. Neither are the constructor checks of `LeafNode` and `ParentNode`.
- Page generation, file I/O and the command-line entry point (`generate_page.py`, `main.py`) are outside the core and are not modelled.
- The `isinstance(node, TextNode)` tests are not modelled. Every list element is a text node in the model, so those branches cannot be reached.
- `str.isdigit` and `int()` are modelled for ASCII digits only. Python also accepts other Unicode decimal digits.
- Regular-expression matching in general is not modelled. Only the two fixed patterns are modelled, as scanners proved equal to their match definitions.
- The text of each `ValueError` message is not modelled. Each error is a value that carries the message's data: the delimiter and the text, or the missing substring.
