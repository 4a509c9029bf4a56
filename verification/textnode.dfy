/** Inline text values and their mapping to HTML leaves (`src/textnode.py`). */
module TextNodes {
  import opened Wrappers
  import opened HtmlNodes

  /** `TextType`: the six inline formatting kinds. */
  datatype TextType = Text | Bold | Italic | Code | Link | Image

  /** `TextNode(text, text_type, url=None)` */
  datatype TextNode = TextNode(text: string, textType: TextType, url: Option<string>)

  /** `TextNode.__eq__`: a flag starts true and is cleared by each of the
      three attributes that differ. */
  function TextNodeEq(a: TextNode, b: TextNode): (equal: bool)
    ensures equal <==> a == b
  {
    var equal := true;
    var equal := if a.text != b.text then false else equal;
    var equal := if a.textType != b.textType then false else equal;
    var equal := if a.url != b.url then false else equal;
    equal
  }

  /** `text_node_to_html_node`. The dispatch is total over the closed
      `TextType`, so the source's "invalid text type" branch cannot be
      reached and has no counterpart here. */
  function TextNodeToHtmlNode(t: TextNode): (n: HtmlNode)
    ensures n.cls == LeafClass && n.children.NoChildren?
    ensures n.value.Some?
    ensures n.tag.None? <==> t.textType == Text
    ensures t.textType != Image ==> n.value.value == t.text
  {
    match t.textType
    case Text => LeafNode(None, Some(t.text), None)
    case Bold => LeafNode(Some("b"), Some(t.text), None)
    case Italic => LeafNode(Some("i"), Some(t.text), None)
    case Code => LeafNode(Some("code"), Some(t.text), None)
    case Link => LeafNode(Some("a"), Some(t.text), Some([("href", t.url)]))
    case Image => LeafNode(Some("img"), Some(""), Some([("src", t.url), ("alt", Some(t.text))]))
  }

  /** What each kind renders to once mapped to a leaf: plain text unchanged,
      the three emphasis kinds wrapped in their tag, a link with its `href`,
      an image with `src` then `alt` and an empty body. Rendering never
      raises. */
  lemma TextNodeRendering(t: TextNode)
    ensures ToHtml(TextNodeToHtmlNode(t)) == Success(
      match t.textType
      case Text => t.text
      case Bold => Element("b", "", t.text)
      case Italic => Element("i", "", t.text)
      case Code => Element("code", "", t.text)
      case Link => Element("a", AttrToHtml(("href", t.url)), t.text)
      case Image => Element("img", AttrToHtml(("src", t.url)) + AttrToHtml(("alt", Some(t.text))), ""))
  {
    match t.textType
    case Text =>
    case Bold => LeafRendering("b", t.text, None);
    case Italic => LeafRendering("i", t.text, None);
    case Code => LeafRendering("code", t.text, None);
    case Link =>
      OneAttribute(("href", t.url));
      LeafRendering("a", t.text, Some([("href", t.url)]));
    case Image =>
      assert "src"[0] != "alt"[0];
      TwoAttributes(("src", t.url), ("alt", Some(t.text)));
      LeafRendering("img", "", Some([("src", t.url), ("alt", Some(t.text))]));
  }
}
