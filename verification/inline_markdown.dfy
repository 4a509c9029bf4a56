/** Splitting plain-text nodes on an inline delimiter such as a backtick, `_`
    or `**` (`split_nodes_delimiter` in `src/inline_markdown.py`). */
module InlineMarkdown {
  import opened Wrappers
  import opened PyStrings
  import opened TextNodes

  /** The loop over `enumerate(split_node_text)`, from position `index` on:
      an empty piece is skipped, a piece at an odd position gets the
      requested kind, one at an even position stays plain text. */
  function PiecesToNodes(pieces: seq<string>, index: nat, textType: TextType): seq<TextNode> {
    if |pieces| == 0 then []
    else
      var here :=
        if pieces[0] == "" then []
        else if index % 2 != 0 then [TextNode(pieces[0], textType, None)]
        else [TextNode(pieces[0], Text, None)];
      here + PiecesToNodes(pieces[1..], index + 1, textType)
  }

  /** Every piece as a node whose kind is decided by its position counted
      from `index`, odd positions taking `textType`. */
  function LabelledFrom(pieces: seq<string>, index: nat, textType: TextType): (nodes: seq<TextNode>)
    ensures |nodes| == |pieces|
  {
    seq(|pieces|, j requires 0 <= j < |pieces| =>
      TextNode(pieces[j], if (index + j) % 2 == 1 then textType else Text, None))
  }

  /** The nodes whose text is not empty, in order. */
  function DropEmpty(nodes: seq<TextNode>): seq<TextNode> {
    if |nodes| == 0 then []
    else (if nodes[0].text == "" then [] else [nodes[0]]) + DropEmpty(nodes[1..])
  }

  /** The texts of a list of nodes. */
  function Texts(nodes: seq<TextNode>): (texts: seq<string>)
    ensures |texts| == |nodes|
  {
    seq(|nodes|, i requires 0 <= i < |nodes| => nodes[i].text)
  }

  /** What the source demands of one input node: plain text needs a
      non-empty delimiter occurring an even number of times. */
  predicate Splittable(node: TextNode, delimiter: string) {
    node.textType != Text || (|delimiter| > 0 && Count(node.text, delimiter) % 2 == 0)
  }

  /** The body of the outer loop for one node. A non-text node is kept as
      it is. For text, Python's `count("")` is `len + 1` and `split("")`
      raises, so an empty delimiter always raises. */
  function SplitTextNode(node: TextNode, delimiter: string, textType: TextType): (r: Result<seq<TextNode>>)
    ensures node.textType != Text ==> r == Success([node])
    ensures r.Success? <==> Splittable(node, delimiter)
    ensures node.textType == Text && r.Success? ==>
      forall k | 0 <= k < |r.value| ::
        && r.value[k].text != ""
        && r.value[k].url.None?
        && (r.value[k].textType == Text || r.value[k].textType == textType)
        && !Contains(r.value[k].text, delimiter)
  {
    if node.textType != Text then Success([node])
    else if |delimiter| == 0 then
      if (|node.text| + 1) % 2 != 0 then Failure("Invalid Markdown syntax")
      else Failure("empty separator")
    else if Count(node.text, delimiter) % 2 != 0 then Failure("Invalid Markdown syntax")
    else
      var pieces := Split(node.text, delimiter);
      var nodes := PiecesToNodes(pieces, 0, textType);
      PiecesToNodesShape(pieces, 0, textType);
      SplitPiecesLackSeparator(node.text, delimiter);
      Success(nodes)
  }

  /** `split_nodes_delimiter`: the per-node results concatenated in input
      order; the first node the source cannot split makes the call raise. */
  function SplitNodesDelimiter(oldNodes: seq<TextNode>, delimiter: string, textType: TextType): (r: Result<seq<TextNode>>)
    ensures r.Success? <==> forall i | 0 <= i < |oldNodes| :: Splittable(oldNodes[i], delimiter)
  {
    if |oldNodes| == 0 then Success([])
    else
      match SplitTextNode(oldNodes[0], delimiter, textType)
      case Failure(e) => Failure(e)
      case Success(head) =>
        match SplitNodesDelimiter(oldNodes[1..], delimiter, textType)
        case Failure(e) => Failure(e)
        case Success(tail) => Success(head + tail)
  }

  lemma {:induction false} PiecesToNodesShape(pieces: seq<string>, index: nat, textType: TextType)
    ensures forall k | 0 <= k < |PiecesToNodes(pieces, index, textType)| ::
      var n := PiecesToNodes(pieces, index, textType)[k];
      && n.text != "" && n.text in pieces && n.url.None?
      && (n.textType == Text || n.textType == textType)
    decreases |pieces|
  {
    if |pieces| > 0 {
      PiecesToNodesShape(pieces[1..], index + 1, textType);
      var nodes := PiecesToNodes(pieces, index, textType);
      var tail := PiecesToNodes(pieces[1..], index + 1, textType);
      forall k | 0 <= k < |nodes|
        ensures nodes[k].text != "" && nodes[k].text in pieces && nodes[k].url.None?
        ensures nodes[k].textType == Text || nodes[k].textType == textType
      {
        if k >= |nodes| - |tail| {
          assert nodes[k] == tail[k - (|nodes| - |tail|)];
          assert tail[k - (|nodes| - |tail|)].text in pieces[1..];
        }
      }
    }
  }

  /** The loop's result is exactly the positional labelling of the pieces
      with the empty ones removed: odd positions take the requested kind,
      even positions stay text. */
  lemma {:induction false} PiecesToNodesLabels(pieces: seq<string>, index: nat, textType: TextType)
    ensures PiecesToNodes(pieces, index, textType) == DropEmpty(LabelledFrom(pieces, index, textType))
    decreases |pieces|
  {
    if |pieces| > 0 {
      PiecesToNodesLabels(pieces[1..], index + 1, textType);
      var labelled := LabelledFrom(pieces, index, textType);
      assert labelled[1..] == LabelledFrom(pieces[1..], index + 1, textType);
    }
  }

  /** Empty pieces contribute nothing, so the texts of the nodes concatenate
      to the concatenation of the pieces. */
  lemma {:induction false} PiecesToNodesTexts(pieces: seq<string>, index: nat, textType: TextType)
    ensures Flatten(Texts(PiecesToNodes(pieces, index, textType))) == Flatten(pieces)
    decreases |pieces|
  {
    if |pieces| > 0 {
      PiecesToNodesTexts(pieces[1..], index + 1, textType);
      var tail := PiecesToNodes(pieces[1..], index + 1, textType);
      var nodes := PiecesToNodes(pieces, index, textType);
      if pieces[0] == "" {
        assert nodes == tail;
      } else {
        assert Texts(nodes) == [pieces[0]] + Texts(tail);
      }
    }
  }

  /** For one text node, the produced texts concatenate to the input text
      with every occurrence of the delimiter deleted. */
  lemma SplitTextNodeKeepsText(node: TextNode, delimiter: string, textType: TextType)
    requires node.textType == Text && Splittable(node, delimiter)
    ensures Flatten(Texts(SplitTextNode(node, delimiter, textType).value)) == RemoveAll(node.text, delimiter)
  {
    PiecesToNodesTexts(Split(node.text, delimiter), 0, textType);
    SplitFlatten(node.text, delimiter);
  }

  /** For one text node, the result is the split pieces labelled by
      position, odd positions taking the requested kind, empty pieces
      dropped. */
  lemma SplitTextNodeLabels(node: TextNode, delimiter: string, textType: TextType)
    requires node.textType == Text && Splittable(node, delimiter)
    ensures SplitTextNode(node, delimiter, textType)
         == Success(DropEmpty(LabelledFrom(Split(node.text, delimiter), 0, textType)))
  {
    PiecesToNodesLabels(Split(node.text, delimiter), 0, textType);
  }

  /** A non-empty text node without the delimiter comes back as a single
      plain node with the same text. */
  lemma SplitTextNodeWithoutDelimiter(node: TextNode, delimiter: string, textType: TextType)
    requires node.textType == Text && node.text != ""
    requires |delimiter| > 0 && !Contains(node.text, delimiter)
    ensures SplitTextNode(node, delimiter, textType) == Success([TextNode(node.text, Text, None)])
  {
    CountZeroIffAbsent(node.text, delimiter);
    SplitAbsent(node.text, delimiter);
    assert [node.text][1..] == [];
    assert PiecesToNodes([node.text], 0, textType) == [TextNode(node.text, Text, None)];
  }

  /** The output is the in-order concatenation of the per-node results, so
      a non-text node reappears unchanged at its own position. */
  lemma {:induction false} SplitNodesDelimiterConcat(oldNodes: seq<TextNode>, delimiter: string, textType: TextType)
    requires forall i | 0 <= i < |oldNodes| :: Splittable(oldNodes[i], delimiter)
    ensures SplitNodesDelimiter(oldNodes, delimiter, textType) == Success(Flatten(
      seq(|oldNodes|, i requires 0 <= i < |oldNodes| => SplitTextNode(oldNodes[i], delimiter, textType).value)))
    decreases |oldNodes|
  {
    if |oldNodes| > 0 {
      SplitNodesDelimiterConcat(oldNodes[1..], delimiter, textType);
      var all := seq(|oldNodes|, i requires 0 <= i < |oldNodes| => SplitTextNode(oldNodes[i], delimiter, textType).value);
      var rest := seq(|oldNodes| - 1, i requires 0 <= i < |oldNodes| - 1 => SplitTextNode(oldNodes[1..][i], delimiter, textType).value);
      assert all[1..] == rest;
    }
  }
}
