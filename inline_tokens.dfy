/** The inline tokenizer of `node_splitter.py`: the passes that cut plain
    text nodes at delimiter pairs and at image and link syntax, and their
    composition `text_to_textnodes`. Each pass is a specification function
    (defined on the last element, like the loop that appends to
    `new_nodes`) and a method with the source's loops proved equal to it. */
module InlineTokens {
  import opened Results
  import opened Strings
  import opened TextNodes
  import opened MarkdownExtractor

  // ---------------------------------------------------------------------
  // Views of a node list used to state the passes' properties
  // ---------------------------------------------------------------------

  /** The texts of the nodes, concatenated. */
  function TextsOf(nodes: seq<TextNode>): string
    decreases |nodes|
  {
    if nodes == [] then "" else nodes[0].text + TextsOf(nodes[1..])
  }

  /** How many nodes have kind `t`. */
  function CountKind(nodes: seq<TextNode>, t: TextType): nat
    decreases |nodes|
  {
    if nodes == [] then 0 else (if nodes[0].textType == t then 1 else 0) + CountKind(nodes[1..], t)
  }

  /** The nodes that are not plain text, in order. */
  function Typed(nodes: seq<TextNode>): seq<TextNode>
    decreases |nodes|
  {
    if nodes == [] then [] else (if nodes[0].textType != Text then [nodes[0]] else []) + Typed(nodes[1..])
  }

  /** No plain text node is empty. */
  predicate NoEmptyText(nodes: seq<TextNode>) {
    forall k :: 0 <= k < |nodes| && nodes[k].textType == Text ==> nodes[k].text != ""
  }

  lemma {:induction false} TextsAppend(a: seq<TextNode>, b: seq<TextNode>)
    ensures TextsOf(a + b) == TextsOf(a) + TextsOf(b)
    decreases |a|
  {
    if a == [] {
      assert a + b == b;
    } else {
      TextsAppend(a[1..], b);
      assert (a + b)[1..] == a[1..] + b;
      assert TextsOf(a + b) == a[0].text + TextsOf(a[1..] + b);
      AppendThree(a[0].text, TextsOf(a[1..]), TextsOf(b));
    }
  }

  lemma {:induction false} CountKindAppend(a: seq<TextNode>, b: seq<TextNode>, t: TextType)
    ensures CountKind(a + b, t) == CountKind(a, t) + CountKind(b, t)
    decreases |a|
  {
    if a == [] {
      assert a + b == b;
    } else {
      CountKindAppend(a[1..], b, t);
      assert (a + b)[1..] == a[1..] + b;
    }
  }

  lemma {:induction false} TypedAppend(a: seq<TextNode>, b: seq<TextNode>)
    ensures Typed(a + b) == Typed(a) + Typed(b)
    decreases |a|
  {
    if a == [] {
      assert a + b == b;
    } else {
      TypedAppend(a[1..], b);
      var head := if a[0].textType != Text then [a[0]] else [];
      assert (a + b)[1..] == a[1..] + b;
      assert Typed(a + b) == head + Typed(a[1..] + b);
      AppendThree(head, Typed(a[1..]), Typed(b));
    }
  }

  // ---------------------------------------------------------------------
  // split_nodes_delimiter
  // ---------------------------------------------------------------------

  /** What the piece with index `idx` of `text.split(delimiter)` becomes:
      even pieces lie outside delimiter pairs and become plain text unless
      empty; odd pieces lie inside a pair and always become a node of the
      requested type, even when empty. */
  function PieceNodes(part: string, idx: nat, textType: TextType): seq<TextNode>
  {
    if idx % 2 == 0 then (if part != "" then [Plain(part, Text)] else [])
    else [Plain(part, textType)]
  }

  /** The nodes made from all pieces, in order. */
  function PiecesToNodes(parts: seq<string>, textType: TextType): seq<TextNode>
    decreases |parts|
  {
    if parts == [] then []
    else PiecesToNodes(parts[..|parts| - 1], textType) + PieceNodes(parts[|parts| - 1], |parts| - 1, textType)
  }

  /** What one input node becomes: non-text nodes and text without the
      delimiter pass through; an odd number of delimiters is an error. */
  function SplitNode(node: TextNode, delimiter: string, textType: TextType): Result<seq<TextNode>>
    requires |delimiter| > 0
  {
    if node.textType != Text then Ok([node])
    else
      var count := Count(node.text, delimiter);
      if count == 0 then Ok([node])
      else if count % 2 != 0 then Err(UnmatchedDelimiter(delimiter, node.text))
      else Ok(PiecesToNodes(Split(node.text, delimiter), textType))
  }

  /** The loop over the input nodes; the first failing node aborts it. */
  function SplitEach(nodes: seq<TextNode>, delimiter: string, textType: TextType): Result<seq<TextNode>>
    requires |delimiter| > 0
    decreases |nodes|
  {
    if nodes == [] then Ok([])
    else
      var init :- SplitEach(nodes[..|nodes| - 1], delimiter, textType);
      var last :- SplitNode(nodes[|nodes| - 1], delimiter, textType);
      Ok(init + last)
  }

  /** `split_nodes_delimiter(old_nodes, delimiter, text_type)`. */
  function DelimiterSplit(nodes: seq<TextNode>, delimiter: string, textType: TextType): Result<seq<TextNode>>
  {
    if delimiter == "" then Err(EmptyDelimiter) else SplitEach(nodes, delimiter, textType)
  }

  /** One more iteration of the loop over the input nodes. */
  lemma SplitEachStep(nodes: seq<TextNode>, i: nat, delimiter: string, textType: TextType)
    requires |delimiter| > 0 && i < |nodes|
    ensures SplitEach(nodes[..i + 1], delimiter, textType) ==
              match SplitEach(nodes[..i], delimiter, textType)
              case Err(e) => Err(e)
              case Ok(acc) =>
                match SplitNode(nodes[i], delimiter, textType)
                case Err(e) => Err(e)
                case Ok(out) => Ok(acc + out)
  {
    assert nodes[..i + 1][..i] == nodes[..i];
  }

  /** The loop of `split_nodes_delimiter`, building `new_nodes` by appending. */
  method SplitNodesDelimiter(oldNodes: seq<TextNode>, delimiter: string, textType: TextType)
    returns (r: Result<seq<TextNode>>)
    ensures r == DelimiterSplit(oldNodes, delimiter, textType)
  {
    if delimiter == "" {
      return Err(EmptyDelimiter);
    }
    var newNodes: seq<TextNode> := [];
    for i := 0 to |oldNodes|
      invariant SplitEach(oldNodes[..i], delimiter, textType) == Ok(newNodes)
    {
      var node := oldNodes[i];
      SplitEachStep(oldNodes, i, delimiter, textType);
      if node.textType != Text {
        newNodes := newNodes + [node];
        continue;
      }
      var text := node.text;
      var count := Count(text, delimiter);
      if count == 0 {
        newNodes := newNodes + [node];
        continue;
      }
      if count % 2 != 0 {
        assert SplitNode(node, delimiter, textType) == Err(UnmatchedDelimiter(delimiter, text));
        SplitEachErrSticky(oldNodes, i + 1, delimiter, textType);
        return Err(UnmatchedDelimiter(delimiter, text));
      }
      var parts := Split(text, delimiter);
      assert SplitNode(node, delimiter, textType) == Ok(PiecesToNodes(parts, textType));
      newNodes := AppendPieces(newNodes, parts, textType);
    }
    assert oldNodes[..|oldNodes|] == oldNodes;
    return Ok(newNodes);
  }

  /** The inner loop of `split_nodes_delimiter`: appends the nodes made from
      the pieces of one text to `new_nodes`. */
  method AppendPieces(newNodes: seq<TextNode>, parts: seq<string>, textType: TextType)
    returns (out: seq<TextNode>)
    ensures out == newNodes + PiecesToNodes(parts, textType)
  {
    out := newNodes;
    for idx := 0 to |parts|
      invariant out == newNodes + PiecesToNodes(parts[..idx], textType)
    {
      assert parts[..idx + 1][..idx] == parts[..idx];
      AppendThree(newNodes, PiecesToNodes(parts[..idx], textType), PieceNodes(parts[idx], idx, textType));
      if idx % 2 == 0 {
        if parts[idx] != "" {
          out := out + [Plain(parts[idx], Text)];
        }
      } else {
        out := out + [Plain(parts[idx], textType)];
      }
    }
    assert parts[..|parts|] == parts;
  }

  /** The first failure is the one reported. */
  lemma {:induction false} SplitEachErrSticky(nodes: seq<TextNode>, i: nat, delimiter: string, textType: TextType)
    requires |delimiter| > 0 && i <= |nodes|
    requires SplitEach(nodes[..i], delimiter, textType).Err?
    ensures SplitEach(nodes, delimiter, textType) == SplitEach(nodes[..i], delimiter, textType)
    decreases |nodes| - i
  {
    if i < |nodes| {
      assert nodes[..i + 1][..i] == nodes[..i];
      SplitEachErrSticky(nodes, i + 1, delimiter, textType);
    } else {
      assert nodes[..i] == nodes;
    }
  }

  /** A text node "has an odd delimiter count": the condition on which the
      pass raises. */
  predicate Unbalanced(node: TextNode, delimiter: string)
    requires |delimiter| > 0
  {
    node.textType == Text && Count(node.text, delimiter) % 2 == 1
  }

  /** The pass fails in exactly two cases: an empty delimiter, or some text
      node with an odd number of delimiters, whose text the error carries. */
  lemma {:induction false} DelimiterSplitFails(nodes: seq<TextNode>, delimiter: string, textType: TextType)
    ensures DelimiterSplit(nodes, delimiter, textType) == Err(EmptyDelimiter) <==> delimiter == ""
    ensures delimiter != "" ==>
              (DelimiterSplit(nodes, delimiter, textType).Err? <==> exists k :: 0 <= k < |nodes| && Unbalanced(nodes[k], delimiter))
    ensures delimiter != "" && DelimiterSplit(nodes, delimiter, textType).Err? ==>
              exists k :: 0 <= k < |nodes| && Unbalanced(nodes[k], delimiter)
                          && DelimiterSplit(nodes, delimiter, textType) == Err(UnmatchedDelimiter(delimiter, nodes[k].text))
    decreases |nodes|
  {
    if delimiter != "" && nodes != [] {
      var init := nodes[..|nodes| - 1];
      var last := nodes[|nodes| - 1];
      DelimiterSplitFails(init, delimiter, textType);
      assert forall k :: 0 <= k < |init| ==> init[k] == nodes[k];
      if SplitEach(init, delimiter, textType).Err? {
        var k :| 0 <= k < |init| && Unbalanced(init[k], delimiter)
                 && SplitEach(init, delimiter, textType) == Err(UnmatchedDelimiter(delimiter, init[k].text));
        assert nodes[k] == init[k];
      } else if SplitNode(last, delimiter, textType).Err? {
        assert Unbalanced(nodes[|nodes| - 1], delimiter);
      } else {
        forall k | 0 <= k < |nodes| ensures !Unbalanced(nodes[k], delimiter) {
          if k == |nodes| - 1 {
            assert nodes[k] == last;
          } else {
            assert nodes[k] == init[k];
          }
        }
      }
    }
  }

  /** Non-text nodes and text nodes without the delimiter are emitted
      unchanged and in their order: if every node is such a node, the pass
      is the identity. */
  lemma {:induction false} DelimiterSplitUnchanged(nodes: seq<TextNode>, delimiter: string, textType: TextType)
    requires |delimiter| > 0
    requires forall k :: 0 <= k < |nodes| ==> nodes[k].textType != Text || Count(nodes[k].text, delimiter) == 0
    ensures DelimiterSplit(nodes, delimiter, textType) == Ok(nodes)
    decreases |nodes|
  {
    if nodes != [] {
      var init := nodes[..|nodes| - 1];
      assert forall k :: 0 <= k < |init| ==> init[k] == nodes[k];
      DelimiterSplitUnchanged(init, delimiter, textType);
      assert init + [nodes[|nodes| - 1]] == nodes;
    }
  }

  /** The nodes one input node contributes to a successful pass; a node
      that raises contributes nothing, since the pass then fails. */
  function SplitValue(node: TextNode, delimiter: string, textType: TextType): seq<TextNode>
  {
    if delimiter == "" then []
    else match SplitNode(node, delimiter, textType)
      case Ok(out) => out
      case Err(_) => []
  }

  /** A successful pass is what each input node becomes, concatenated in
      input order; in particular every node is split without error. */
  lemma {:induction false} DelimiterSplitConcat(nodes: seq<TextNode>, delimiter: string, textType: TextType)
    requires DelimiterSplit(nodes, delimiter, textType).Ok?
    ensures delimiter != ""
    ensures forall k :: 0 <= k < |nodes| ==> SplitNode(nodes[k], delimiter, textType).Ok?
    ensures DelimiterSplit(nodes, delimiter, textType).value
            == FlatMap(nodes, node => SplitValue(node, delimiter, textType))
    decreases |nodes|
  {
    if nodes != [] {
      var init := nodes[..|nodes| - 1];
      assert forall k :: 0 <= k < |init| ==> init[k] == nodes[k];
      DelimiterSplitConcat(init, delimiter, textType);
    }
  }

  /** One piece's nodes hold exactly the piece's text. */
  lemma PieceNodesText(part: string, idx: nat, textType: TextType)
    ensures TextsOf(PieceNodes(part, idx, textType)) == part
  {
    var nodes := PieceNodes(part, idx, textType);
    if nodes != [] {
      assert nodes == [Plain(part, nodes[0].textType)];
      assert TextsOf(nodes) == part + TextsOf([]);
    }
  }

  /** One piece makes a node of the requested type exactly when its index
      is odd. */
  lemma PieceNodesCount(part: string, idx: nat, textType: TextType)
    requires textType != Text
    ensures CountKind(PieceNodes(part, idx, textType), textType) == idx % 2
  {
    var nodes := PieceNodes(part, idx, textType);
    if idx % 2 == 1 {
      assert CountKind(nodes, textType) == 1 + CountKind([], textType);
    } else if nodes != [] {
      assert CountKind(nodes, textType) == 0 + CountKind([], textType);
    }
  }

  lemma HalfStep(n: nat)
    ensures (n + 1) / 2 == n / 2 + n % 2
  {
  }

  /** The pieces' nodes' texts concatenate to the pieces. */
  lemma {:induction false} PiecesToNodesTexts(parts: seq<string>, textType: TextType)
    ensures TextsOf(PiecesToNodes(parts, textType)) == Concat(parts)
    decreases |parts|
  {
    if parts != [] {
      var n := |parts| - 1;
      var init := parts[..n];
      var tail := PieceNodes(parts[n], n, textType);
      assert PiecesToNodes(parts, textType) == PiecesToNodes(init, textType) + tail;
      PiecesToNodesTexts(init, textType);
      TextsAppend(PiecesToNodes(init, textType), tail);
      PieceNodesText(parts[n], n, textType);
      ConcatLast(parts);
    }
  }

  /** Every odd piece, and only an odd piece, makes a node of the requested
      type. */
  lemma {:induction false} PiecesToNodesCount(parts: seq<string>, textType: TextType)
    requires textType != Text
    ensures CountKind(PiecesToNodes(parts, textType), textType) == |parts| / 2
    decreases |parts|
  {
    if parts != [] {
      var n := |parts| - 1;
      var tail := PieceNodes(parts[n], n, textType);
      PiecesToNodesCount(parts[..n], textType);
      CountKindAppend(PiecesToNodes(parts[..n], textType), tail, textType);
      PieceNodesCount(parts[n], n, textType);
      HalfStep(n);
    }
  }

  /** The pieces' nodes include no empty plain text node. */
  lemma {:induction false} PiecesToNodesNoEmpty(parts: seq<string>, textType: TextType)
    requires textType != Text
    ensures NoEmptyText(PiecesToNodes(parts, textType))
    decreases |parts|
  {
    if parts != [] {
      var n := |parts| - 1;
      PiecesToNodesNoEmpty(parts[..n], textType);
    }
  }

  /** A text node with an even, non-zero number of delimiters: its texts
      concatenate to the input with every delimiter removed, no emitted
      plain text node is empty, and exactly count/2 nodes of the requested
      type are emitted. */
  lemma SplitNodeEven(node: TextNode, delimiter: string, textType: TextType)
    requires |delimiter| > 0 && textType != Text
    requires node.textType == Text
    requires Count(node.text, delimiter) > 0 && Count(node.text, delimiter) % 2 == 0
    ensures SplitNode(node, delimiter, textType).Ok?
    ensures var out := SplitNode(node, delimiter, textType).value;
            && TextsOf(out) == RemoveAll(node.text, delimiter)
            && NoEmptyText(out)
            && CountKind(out, textType) == Count(node.text, delimiter) / 2
  {
    var parts := Split(node.text, delimiter);
    PiecesToNodesTexts(parts, textType);
    PiecesToNodesCount(parts, textType);
    PiecesToNodesNoEmpty(parts, textType);
    SplitCount(node.text, delimiter);
    ConcatSplit(node.text, delimiter);
  }

  // ---------------------------------------------------------------------
  // split_nodes_image and split_nodes_link
  // ---------------------------------------------------------------------

  /** Which of the two syntaxes a pass extracts. */
  datatype Markup = ImageMarkup | LinkMarkup {
    function Kind(): TextType {
      if ImageMarkup? then Image else Link
    }
  }

  /** The pairs the matcher finds in `text`. */
  function Extract(markup: Markup, text: string): seq<(string, string)> {
    if markup == ImageMarkup then ExtractMarkdownImages(Some(text)) else ExtractMarkdownLinks(Some(text))
  }

  /** The syntax rebuilt from a pair, `![alt](url)` or `[anchor](url)`: what
      the pass searches for, rather than the match position. */
  function Rebuilt(markup: Markup, pair: (string, string)): (md: string)
    ensures |md| > 0
  {
    if markup == ImageMarkup then ImageSyntax(pair.0, pair.1) else LinkSyntax(pair.0, pair.1)
  }

  /** The state of the loop over the pairs: nodes emitted so far and
      `remaining_text`. */
  datatype Cut = Cut(emitted: seq<TextNode>, remaining: string)

  /** One iteration per pair: `remaining_text.split(md, 1)`, emit the text
      before (unless empty) and the typed node, keep the text after (or ""
      when the syntax was not found). */
  function CutPairs(text: string, pairs: seq<(string, string)>, markup: Markup): Cut
    decreases |pairs|
  {
    if pairs == [] then Cut([], text)
    else
      var prev := CutPairs(text, pairs[..|pairs| - 1], markup);
      var pair := pairs[|pairs| - 1];
      var parts := SplitOnce(prev.remaining, Rebuilt(markup, pair));
      var lead := if parts[0] != "" then [Plain(parts[0], Text)] else [];
      Cut(prev.emitted + lead + [TextNode(pair.0, markup.Kind(), Some(pair.1))],
          if |parts| > 1 then parts[1] else "")
  }

  /** What one input node becomes. */
  function SplitNodeMarkup(node: TextNode, markup: Markup): seq<TextNode>
  {
    if node.textType != Text then [node]
    else
      var pairs := Extract(markup, node.text);
      if pairs == [] then [node]
      else
        var cut := CutPairs(node.text, pairs, markup);
        cut.emitted + (if cut.remaining != "" then [Plain(cut.remaining, Text)] else [])
  }

  /** What each node becomes under `f`, concatenated: the loop that
      extends `new_nodes` node by node, defined on the last node. */
  function FlatMap(nodes: seq<TextNode>, f: TextNode -> seq<TextNode>): seq<TextNode>
    decreases |nodes|
  {
    if nodes == [] then []
    else FlatMap(nodes[..|nodes| - 1], f) + f(nodes[|nodes| - 1])
  }

  lemma FlatMapStep(nodes: seq<TextNode>, i: nat, f: TextNode -> seq<TextNode>)
    requires i < |nodes|
    ensures FlatMap(nodes[..i + 1], f) == FlatMap(nodes[..i], f) + f(nodes[i])
  {
    assert nodes[..i + 1][..i] == nodes[..i];
  }

  /** If `f` keeps every node as it is, so does `FlatMap`. */
  lemma {:induction false} FlatMapKeeps(nodes: seq<TextNode>, f: TextNode -> seq<TextNode>)
    requires forall k :: 0 <= k < |nodes| ==> f(nodes[k]) == [nodes[k]]
    ensures FlatMap(nodes, f) == nodes
    decreases |nodes|
  {
    if nodes != [] {
      var init := nodes[..|nodes| - 1];
      assert forall k :: 0 <= k < |init| ==> init[k] == nodes[k];
      FlatMapKeeps(init, f);
      assert init + [nodes[|nodes| - 1]] == nodes;
    }
  }

  /** If what `f` makes of each node maps under `g` to what `g` makes of
      the node, `FlatMap` keeps the concatenation under `g`. */
  lemma {:induction false} FlatMapConcat(nodes: seq<TextNode>, f: TextNode -> seq<TextNode>, g: TextNode -> string)
    requires forall k :: 0 <= k < |nodes| ==> ConcatMap(f(nodes[k]), g) == g(nodes[k])
    ensures ConcatMap(FlatMap(nodes, f), g) == ConcatMap(nodes, g)
    decreases |nodes|
  {
    if nodes != [] {
      var n := |nodes| - 1;
      var init := nodes[..n];
      assert forall k :: 0 <= k < |init| ==> init[k] == nodes[k];
      FlatMapConcat(init, f, g);
      ConcatMapAppend(FlatMap(init, f), f(nodes[n]), g);
      ConcatMapAppend(init, [nodes[n]], g);
      assert ConcatMap([nodes[n]], g) == g(nodes[n]) + ConcatMap([], g);
      assert init + [nodes[n]] == nodes;
    }
  }

  function SplitNodeFn(markup: Markup): TextNode -> seq<TextNode> {
    node => SplitNodeMarkup(node, markup)
  }

  /** `split_nodes_image` (`ImageMarkup`) or `split_nodes_link` (`LinkMarkup`). */
  function MarkupSplit(nodes: seq<TextNode>, markup: Markup): seq<TextNode>
  {
    FlatMap(nodes, SplitNodeFn(markup))
  }

  /** One more iteration of the loop over the pairs. */
  lemma CutPairsStep(text: string, pairs: seq<(string, string)>, j: nat, markup: Markup)
    requires j < |pairs|
    ensures var prev := CutPairs(text, pairs[..j], markup);
            var parts := SplitOnce(prev.remaining, Rebuilt(markup, pairs[j]));
            CutPairs(text, pairs[..j + 1], markup)
            == Cut(prev.emitted + (if parts[0] != "" then [Plain(parts[0], Text)] else [])
                     + [TextNode(pairs[j].0, markup.Kind(), Some(pairs[j].1))],
                   if |parts| > 1 then parts[1] else "")
  {
    assert pairs[..j + 1][..j] == pairs[..j];
  }

  /** The loop shared by `split_nodes_image` and `split_nodes_link`, which
      differ only in the matcher and the rebuilt syntax. */
  method SplitNodesMarkup(oldNodes: seq<TextNode>, markup: Markup) returns (newNodes: seq<TextNode>)
    ensures newNodes == MarkupSplit(oldNodes, markup)
  {
    newNodes := [];
    for i := 0 to |oldNodes|
      invariant newNodes == MarkupSplit(oldNodes[..i], markup)
    {
      FlatMapStep(oldNodes, i, SplitNodeFn(markup));
      newNodes := AppendSplitNode(newNodes, oldNodes[i], markup);
    }
    assert oldNodes[..|oldNodes|] == oldNodes;
  }

  /** One iteration of the loop over the nodes: appends what `node`
      becomes to `new_nodes`. */
  method AppendSplitNode(newNodes: seq<TextNode>, node: TextNode, markup: Markup) returns (out: seq<TextNode>)
    ensures out == newNodes + SplitNodeMarkup(node, markup)
  {
    if node.textType != Text {
      return newNodes + [node];
    }
    var text := node.text;
    var pairs := Extract(markup, text);
    if pairs == [] {
      return newNodes + [node];
    }
    ghost var cut := CutPairs(text, pairs, markup);
    ghost var tail := if cut.remaining != "" then [Plain(cut.remaining, Text)] else [];
    assert SplitNodeMarkup(node, markup) == cut.emitted + tail;
    AppendThree(newNodes, cut.emitted, tail);
    var remaining;
    out, remaining := AppendCuts(newNodes, text, pairs, markup);
    if remaining != "" {
      out := out + [Plain(remaining, Text)];
    }
  }

  /** Appending one iteration's nodes keeps `new_nodes` equal to the nodes
      before the loop followed by what `CutPairs` emits. */
  lemma AppendCutStep(newNodes: seq<TextNode>, out: seq<TextNode>, text: string, pairs: seq<(string, string)>, j: nat, markup: Markup)
    requires j < |pairs|
    requires out == newNodes + CutPairs(text, pairs[..j], markup).emitted
    ensures var parts := SplitOnce(CutPairs(text, pairs[..j], markup).remaining, Rebuilt(markup, pairs[j]));
            var typed := TextNode(pairs[j].0, markup.Kind(), Some(pairs[j].1));
            && (parts[0] != "" ==> out + [Plain(parts[0], Text)] + [typed] == newNodes + CutPairs(text, pairs[..j + 1], markup).emitted)
            && (parts[0] == "" ==> out + [typed] == newNodes + CutPairs(text, pairs[..j + 1], markup).emitted)
  {
    CutPairsStep(text, pairs, j, markup);
    var prev := CutPairs(text, pairs[..j], markup);
    var parts := SplitOnce(prev.remaining, Rebuilt(markup, pairs[j]));
    var typed := TextNode(pairs[j].0, markup.Kind(), Some(pairs[j].1));
    if parts[0] != "" {
      AppendFour(newNodes, prev.emitted, [Plain(parts[0], Text)], [typed]);
    } else {
      AppendFour(newNodes, prev.emitted, [], [typed]);
    }
  }

  lemma AppendThree<T>(a: seq<T>, b: seq<T>, c: seq<T>)
    ensures a + b + c == a + (b + c)
  {
  }

  lemma AppendFour<T>(a: seq<T>, b: seq<T>, c: seq<T>, d: seq<T>)
    ensures a + b + c + d == a + (b + c + d)
  {
  }

  /** The inner loop of `split_nodes_image` and `split_nodes_link`: cuts
      `remaining_text` at each pair's syntax in turn, appending to
      `new_nodes`. */
  method AppendCuts(newNodes: seq<TextNode>, text: string, pairs: seq<(string, string)>, markup: Markup)
    returns (out: seq<TextNode>, remaining: string)
    ensures out == newNodes + CutPairs(text, pairs, markup).emitted
    ensures remaining == CutPairs(text, pairs, markup).remaining
  {
    out, remaining := newNodes, text;
    for j := 0 to |pairs|
      invariant out == newNodes + CutPairs(text, pairs[..j], markup).emitted
      invariant remaining == CutPairs(text, pairs[..j], markup).remaining
    {
      CutPairsStep(text, pairs, j, markup);
      AppendCutStep(newNodes, out, text, pairs, j, markup);
      var md := Rebuilt(markup, pairs[j]);
      var parts := SplitOnce(remaining, md);
      if parts[0] != "" {
        out := out + [Plain(parts[0], Text)];
      }
      out := out + [TextNode(pairs[j].0, markup.Kind(), Some(pairs[j].1))];
      remaining := if |parts| > 1 then parts[1] else "";
    }
    assert pairs[..|pairs|] == pairs;
  }

  /** `split_nodes_image`. */
  method SplitNodesImage(oldNodes: seq<TextNode>) returns (newNodes: seq<TextNode>)
    ensures newNodes == MarkupSplit(oldNodes, ImageMarkup)
  {
    newNodes := SplitNodesMarkup(oldNodes, ImageMarkup);
  }

  /** `split_nodes_link`. */
  method SplitNodesLink(oldNodes: seq<TextNode>) returns (newNodes: seq<TextNode>)
    ensures newNodes == MarkupSplit(oldNodes, LinkMarkup)
  {
    newNodes := SplitNodesMarkup(oldNodes, LinkMarkup);
  }

  /** The typed node made from each pair, in order. */
  function PairNodes(pairs: seq<(string, string)>, markup: Markup): (r: seq<TextNode>)
    ensures |r| == |pairs|
    decreases |pairs|
  {
    if pairs == [] then []
    else
      var pair := pairs[|pairs| - 1];
      PairNodes(pairs[..|pairs| - 1], markup) + [TextNode(pair.0, markup.Kind(), Some(pair.1))]
  }

  /** Plain text before a typed node adds nothing to the typed view. */
  lemma TypedAfterLead(emitted: seq<TextNode>, lead: seq<TextNode>, typed: TextNode)
    requires |lead| <= 1 && (lead != [] ==> lead[0].textType == Text)
    requires typed.textType != Text
    ensures Typed(emitted + lead + [typed]) == Typed(emitted) + [typed]
  {
    TypedAppend(emitted, lead);
    TypedAppend(emitted + lead, [typed]);
    if lead != [] {
      assert Typed(lead) == [] + Typed(lead[1..]);
    }
  }

  /** Over the pairs: one typed node per pair, in pair order. */
  lemma {:induction false} CutPairsTyped(text: string, pairs: seq<(string, string)>, markup: Markup)
    ensures Typed(CutPairs(text, pairs, markup).emitted) == PairNodes(pairs, markup)
    decreases |pairs|
  {
    if pairs != [] {
      var n := |pairs| - 1;
      CutPairsStep(text, pairs, n, markup);
      assert pairs[..n + 1] == pairs;
      var prev := CutPairs(text, pairs[..n], markup);
      var parts := SplitOnce(prev.remaining, Rebuilt(markup, pairs[n]));
      var lead := if parts[0] != "" then [Plain(parts[0], Text)] else [];
      CutPairsTyped(text, pairs[..n], markup);
      TypedAfterLead(prev.emitted, lead, TextNode(pairs[n].0, markup.Kind(), Some(pairs[n].1)));
    }
  }

  /** Over the pairs: no emitted plain text node is empty. */
  lemma {:induction false} CutPairsNoEmpty(text: string, pairs: seq<(string, string)>, markup: Markup)
    ensures NoEmptyText(CutPairs(text, pairs, markup).emitted)
    decreases |pairs|
  {
    if pairs != [] {
      var n := |pairs| - 1;
      CutPairsStep(text, pairs, n, markup);
      assert pairs[..n + 1] == pairs;
      CutPairsNoEmpty(text, pairs[..n], markup);
      var prev := CutPairs(text, pairs[..n], markup);
      var parts := SplitOnce(prev.remaining, Rebuilt(markup, pairs[n]));
      var lead := if parts[0] != "" then [Plain(parts[0], Text)] else [];
      var typed := TextNode(pairs[n].0, markup.Kind(), Some(pairs[n].1));
      NoEmptyAppend(prev.emitted, lead);
      NoEmptyAppend(prev.emitted + lead, [typed]);
    }
  }

  lemma NoEmptyAppend(a: seq<TextNode>, b: seq<TextNode>)
    requires NoEmptyText(a) && NoEmptyText(b)
    ensures NoEmptyText(a + b)
  {
    forall k | 0 <= k < |a + b| && (a + b)[k].textType == Text ensures (a + b)[k].text != "" {
      if k < |a| {
        assert (a + b)[k] == a[k];
      } else {
        assert (a + b)[k] == b[k - |a|];
      }
    }
  }

  /** A text node without matches, or a non-text node, passes through
      unchanged. */
  lemma SplitNodeMarkupKeeps(node: TextNode, markup: Markup)
    requires node.textType != Text || Extract(markup, node.text) == []
    ensures SplitNodeMarkup(node, markup) == [node]
  {
  }

  /** A text node with matches becomes one typed node per match, carrying
      its alt or anchor and url, in match order, between non-empty plain
      text nodes. */
  lemma SplitNodeMarkupShape(node: TextNode, markup: Markup)
    requires node.textType == Text && Extract(markup, node.text) != []
    ensures Typed(SplitNodeMarkup(node, markup)) == PairNodes(Extract(markup, node.text), markup)
    ensures NoEmptyText(SplitNodeMarkup(node, markup))
  {
    var pairs := Extract(markup, node.text);
    var cut := CutPairs(node.text, pairs, markup);
    var tail := if cut.remaining != "" then [Plain(cut.remaining, Text)] else [];
    assert SplitNodeMarkup(node, markup) == cut.emitted + tail;
    CutPairsTyped(node.text, pairs, markup);
    CutPairsNoEmpty(node.text, pairs, markup);
    TypedAppend(cut.emitted, tail);
    assert Typed(tail) == [];
  }

  /** If no node is a text node with matches, the pass is the identity. */
  lemma MarkupSplitUnchanged(nodes: seq<TextNode>, markup: Markup)
    requires forall k :: 0 <= k < |nodes| ==> nodes[k].textType != Text || Extract(markup, nodes[k].text) == []
    ensures MarkupSplit(nodes, markup) == nodes
  {
    forall k | 0 <= k < |nodes| ensures SplitNodeFn(markup)(nodes[k]) == [nodes[k]] {
      SplitNodeMarkupKeeps(nodes[k], markup);
    }
    FlatMapKeeps(nodes, SplitNodeFn(markup));
  }

  // ---------------------------------------------------------------------
  // Nothing is lost: the image and link passes can be undone
  // ---------------------------------------------------------------------

  /** The Markdown text a node stands for: plain text as is, an image or a
      link as its syntax. */
  function Unparse(node: TextNode): string {
    match node.textType
    case Image => ImageSyntax(node.text, if node.url.Some? then node.url.value else "")
    case Link => LinkSyntax(node.text, if node.url.Some? then node.url.value else "")
    case _ => node.text
  }

  /** The strings `f` gives for the elements, concatenated. */
  function ConcatMap<T>(xs: seq<T>, f: T -> string): string
    decreases |xs|
  {
    if xs == [] then "" else f(xs[0]) + ConcatMap(xs[1..], f)
  }

  lemma {:induction false} ConcatMapAppend<T>(a: seq<T>, b: seq<T>, f: T -> string)
    ensures ConcatMap(a + b, f) == ConcatMap(a, f) + ConcatMap(b, f)
    decreases |a|
  {
    if a == [] {
      assert a + b == b;
    } else {
      ConcatMapAppend(a[1..], b, f);
      assert (a + b)[1..] == a[1..] + b;
    }
  }

  /** The Markdown text a node list stands for. */
  function UnparseAll(nodes: seq<TextNode>): string {
    ConcatMap(nodes, Unparse)
  }

  lemma UnparseAllAppend(a: seq<TextNode>, b: seq<TextNode>)
    ensures UnparseAll(a + b) == UnparseAll(a) + UnparseAll(b)
  {
    ConcatMapAppend(a, b, Unparse);
  }

  lemma UnparseOne(node: TextNode)
    ensures UnparseAll([node]) == Unparse(node)
  {
    assert ConcatMap([node], Unparse) == Unparse(node) + ConcatMap([], Unparse);
  }

  /** The matches the pass's extractor finds, with positions. */
  function Scan(markup: Markup, text: string): seq<Match> {
    if markup == ImageMarkup then ScanImages(text) else ScanLinks(text)
  }

  /** The i-th match the pass's extractor finds: where its syntax lies,
      that it ends before the next one starts, and the pair made from it. */
  lemma ScanAt(markup: Markup, text: string, i: nat)
    requires i < |Scan(markup, text)|
    ensures var ms := Scan(markup, text);
            var md := Rebuilt(markup, Pairs(ms)[i]);
            && OccursAt(text, md, ms[i].start)
            && ms[i].end == ms[i].start + |md|
            && (i + 1 < |ms| ==> ms[i].end <= ms[i + 1].start)
  {
    var ms := Scan(markup, text);
    var pair := Pairs(ms)[i];
    assert pair == (ms[i].text, ms[i].url);
    if markup == ImageMarkup {
      ImageScanAt(text, i);
    } else {
      LinkScanAt(text, i);
    }
  }

  lemma ImageScanAt(text: string, i: nat)
    requires i < |ScanImages(text)|
    ensures var m := ScanImages(text)[i];
            && OccursAt(text, ImageSyntax(m.text, m.url), m.start)
            && m.end == m.start + |ImageSyntax(m.text, m.url)|
            && (i + 1 < |ScanImages(text)| ==> m.end <= ScanImages(text)[i + 1].start)
  {
    ScanImagesSound(text, i);
    ImageMatchSyntax(text, ScanImages(text)[i]);
  }

  lemma LinkScanAt(text: string, i: nat)
    requires i < |ScanLinks(text)|
    ensures var m := ScanLinks(text)[i];
            && OccursAt(text, LinkSyntax(m.text, m.url), m.start)
            && m.end == m.start + |LinkSyntax(m.text, m.url)|
            && (i + 1 < |ScanLinks(text)| ==> m.end <= ScanLinks(text)[i + 1].start)
  {
    ScanLinksSound(text, i);
    LinkMatchSyntax(text, ScanLinks(text)[i]);
  }

  lemma ScanPairs(markup: Markup, text: string)
    ensures Extract(markup, text) == Pairs(Scan(markup, text))
  {
  }

  /** The loop over the pairs keeps `remaining_text` a suffix of the text
      that starts no later than the next match, and the emitted nodes
      unparse to the text before it. So every rebuilt syntax is found (the
      `else ""` fallback never runs), although possibly earlier than the
      match it was rebuilt from. */
  lemma {:induction false} CutPairsInvariant(text: string, markup: Markup, k: nat) returns (r: nat)
    requires k <= |Scan(markup, text)|
    ensures r <= |text|
    ensures CutPairs(text, Pairs(Scan(markup, text))[..k], markup).remaining == text[r..]
    ensures k < |Scan(markup, text)| ==> r <= Scan(markup, text)[k].start
    ensures UnparseAll(CutPairs(text, Pairs(Scan(markup, text))[..k], markup).emitted) + text[r..] == text
    decreases k
  {
    if k == 0 {
      r := 0;
      assert Pairs(Scan(markup, text))[..0] == [];
    } else {
      var prevR := CutPairsInvariant(text, markup, k - 1);
      r := CutPairsInvariantStep(text, markup, k, prevR);
    }
  }

  /** One iteration of the loop over the pairs keeps the invariant. */
  lemma CutPairsInvariantStep(text: string, markup: Markup, k: nat, prevR: nat) returns (r: nat)
    requires 0 < k <= |Scan(markup, text)|
    requires prevR <= Scan(markup, text)[k - 1].start && prevR <= |text|
    requires CutPairs(text, Pairs(Scan(markup, text))[..k - 1], markup).remaining == text[prevR..]
    requires UnparseAll(CutPairs(text, Pairs(Scan(markup, text))[..k - 1], markup).emitted) + text[prevR..] == text
    ensures r <= |text|
    ensures CutPairs(text, Pairs(Scan(markup, text))[..k], markup).remaining == text[r..]
    ensures k < |Scan(markup, text)| ==> r <= Scan(markup, text)[k].start
    ensures UnparseAll(CutPairs(text, Pairs(Scan(markup, text))[..k], markup).emitted) + text[r..] == text
  {
    var ms := Scan(markup, text);
    var pairs := Pairs(ms);
    ScanAt(markup, text, k - 1);
    var pair := pairs[k - 1];
    CutPairsStep(text, pairs, k - 1, markup);
    var prev := CutPairs(text, pairs[..k - 1], markup);
    r := CutOne(text, prev.emitted, prevR, pair, markup, ms[k - 1].start);
  }

  /** One cut, on plain values: if the syntax occurs at `at`, no earlier
      than the remaining text starts, the cut finds it no later than `at`,
      and the nodes emitted so far plus the new ones unparse to the text
      before the new remaining text. */
  lemma CutOne(text: string, emitted: seq<TextNode>, from: nat, pair: (string, string), markup: Markup, at: nat)
    returns (r: nat)
    requires from <= at && OccursAt(text, Rebuilt(markup, pair), at)
    requires UnparseAll(emitted) + text[from..] == text
    ensures var md := Rebuilt(markup, pair);
            var parts := SplitOnce(text[from..], md);
            && |parts| == 2 && r <= at + |md| && r <= |text| && parts[1] == text[r..]
            && UnparseAll(emitted + (if parts[0] != "" then [Plain(parts[0], Text)] else [])
                          + [TextNode(pair.0, markup.Kind(), Some(pair.1))]) + text[r..] == text
  {
    var md := Rebuilt(markup, pair);
    var rem := text[from..];
    OccursInSuffix(text, md, from, at);
    FindSpec(rem, md);
    var j := Find(rem, md).value;
    assert j <= at - from;
    var parts := SplitOnce(rem, md);
    SplitOnceParts(rem, md);
    r := from + j + |md|;
    assert parts[1] == text[r..] by {
      assert parts == [rem[..j], rem[j + |md|..]];
      assert text[from..][j + |md|..] == text[r..];
    }
    var lead := if parts[0] != "" then [Plain(parts[0], Text)] else [];
    UnparseCut(emitted, lead, parts[0], pair, markup);
    AppendFour(UnparseAll(emitted), parts[0], md, parts[1]);
  }

  /** Unparsing what one iteration emits: the text before the syntax, then
      the syntax. */
  lemma UnparseCut(emitted: seq<TextNode>, lead: seq<TextNode>, before: string, pair: (string, string), markup: Markup)
    requires lead == if before != "" then [Plain(before, Text)] else []
    ensures UnparseAll(emitted + lead + [TextNode(pair.0, markup.Kind(), Some(pair.1))])
            == UnparseAll(emitted) + before + Rebuilt(markup, pair)
  {
    var typed := TextNode(pair.0, markup.Kind(), Some(pair.1));
    UnparseAllAppend(emitted, lead);
    UnparseAllAppend(emitted + lead, [typed]);
    if before != "" {
      UnparseOne(lead[0]);
    }
    UnparseOne(typed);
  }

  /** Unparsing the nodes a text node is cut into gives its text back. */
  lemma SplitNodeMarkupLossless(node: TextNode, markup: Markup)
    ensures UnparseAll(SplitNodeMarkup(node, markup)) == Unparse(node)
  {
    if node.textType == Text && Extract(markup, node.text) != [] {
      var text := node.text;
      ScanPairs(markup, text);
      var pairs := Extract(markup, text);
      var r := CutPairsInvariant(text, markup, |pairs|);
      assert pairs[..|pairs|] == pairs;
      var cut := CutPairs(text, pairs, markup);
      var tail := if cut.remaining != "" then [Plain(cut.remaining, Text)] else [];
      UnparseAllAppend(cut.emitted, tail);
      if cut.remaining != "" {
        UnparseOne(tail[0]);
      }
    } else {
      UnparseOne(node);
    }
  }

  /** The image and link passes lose nothing: unparsing their output gives
      the same Markdown as unparsing their input. */
  lemma MarkupSplitLossless(nodes: seq<TextNode>, markup: Markup)
    ensures UnparseAll(MarkupSplit(nodes, markup)) == UnparseAll(nodes)
  {
    forall k | 0 <= k < |nodes| ensures ConcatMap(SplitNodeFn(markup)(nodes[k]), Unparse) == Unparse(nodes[k]) {
      SplitNodeMarkupLossless(nodes[k], markup);
    }
    FlatMapConcat(nodes, SplitNodeFn(markup), Unparse);
  }

  // ---------------------------------------------------------------------
  // text_to_textnodes
  // ---------------------------------------------------------------------

  /** `text_to_textnodes`: one plain node, then the passes in the fixed
      order code, bold, italic, image, link. */
  function TextToTextNodes(text: string): Result<seq<TextNode>>
  {
    var start := [Plain(text, Text)];
    var afterCode :- DelimiterSplit(start, "`", Code);
    var afterBold :- DelimiterSplit(afterCode, "**", Bold);
    var afterItalic :- DelimiterSplit(afterBold, "_", Italic);
    var afterImages := MarkupSplit(afterItalic, ImageMarkup);
    Ok(MarkupSplit(afterImages, LinkMarkup))
  }

  lemma LacksAbsent(s: string, c: char)
    requires Lacks(s, c)
    ensures Absent(s, [c])
  {
    forall k: nat | k <= |s| ensures !OccursAt(s, [c], k) {
      if k < |s| {
        assert s[k..k + 1] == [s[k]];
      }
    }
  }

  /** Text with no backtick, no `**`, no `_` and no `[` (the empty text
      included) is a single plain node. */
  lemma PlainTextStaysPlain(text: string)
    requires Lacks(text, '`') && Absent(text, "**") && Lacks(text, '_') && Lacks(text, '[')
    ensures TextToTextNodes(text) == Ok([Plain(text, Text)])
  {
    var start := [Plain(text, Text)];
    LacksAbsent(text, '`');
    LacksAbsent(text, '_');
    CountZero(text, "`");
    CountZero(text, "**");
    CountZero(text, "_");
    DelimiterSplitUnchanged(start, "`", Code);
    DelimiterSplitUnchanged(start, "**", Bold);
    DelimiterSplitUnchanged(start, "_", Italic);
    NoBracketNoMatches(text);
    MarkupSplitUnchanged(start, ImageMarkup);
    MarkupSplitUnchanged(start, LinkMarkup);
  }

  /** A pass with a non-empty delimiter can only fail on an unmatched
      delimiter. */
  lemma DelimiterSplitErr(nodes: seq<TextNode>, delimiter: string, textType: TextType)
    requires delimiter != ""
    ensures DelimiterSplit(nodes, delimiter, textType).Err? ==>
              DelimiterSplit(nodes, delimiter, textType).error.UnmatchedDelimiter?
  {
    DelimiterSplitFails(nodes, delimiter, textType);
  }

  /** `text_to_textnodes` fails only on an unmatched backtick, `**` or `_`:
      its delimiters are never empty. */
  lemma TextToTextNodesErr(text: string)
    ensures TextToTextNodes(text).Err? ==> TextToTextNodes(text).error.UnmatchedDelimiter?
  {
    var start := [Plain(text, Text)];
    DelimiterSplitErr(start, "`", Code);
    if DelimiterSplit(start, "`", Code).Ok? {
      var afterCode := DelimiterSplit(start, "`", Code).value;
      DelimiterSplitErr(afterCode, "**", Bold);
      if DelimiterSplit(afterCode, "**", Bold).Ok? {
        DelimiterSplitErr(DelimiterSplit(afterCode, "**", Bold).value, "_", Italic);
      }
    }
  }
}
