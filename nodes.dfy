/** Inline spans produced by the tokenizer. Two nodes are equal exactly
    when text, kind and url are equal, which is datatype equality. */
module TextNodes {
  import opened Results

  datatype TextType = Text | Bold | Italic | Code | Image | Link

  /** `url` is `None` unless the tokenizer made the node from image or link
      syntax (the constructor's default). */
  datatype TextNode = TextNode(text: string, textType: TextType, url: Option<string>)

  /** A node of kind `t` with no url: `TextNode(text, t)`. */
  function Plain(text: string, t: TextType): TextNode
  {
    TextNode(text, t, None)
  }
}

/** The HTML node tree built from the block structure. A `LeafNode` has an
    optional tag and a value, a `ParentNode` a tag and ordered children.
    `Inline(n)` stands for the leaf into which `text_node_to_html_node`
    turns the inline span `n`; that conversion and the rendering of the
    tree to HTML text are not part of this model. */
module HtmlNodes {
  import opened Results
  import opened TextNodes

  datatype HtmlNode =
    | LeafNode(leafTag: Option<string>, value: string)
    | ParentNode(tag: string, children: seq<HtmlNode>)
    | Inline(span: TextNode)
}
