# Markdown-to-HTML text pipeline, modelled in Dafny

This project models the pure text core of a small static-site generator. The
generator turns Markdown pages into HTML. The model covers these parts:

- the HTML node tree (`HTMLNode`, `LeafNode`, `ParentNode`), its `to_html`
  serialiser and its structural equality;
- the inline `TextNode` value, its six `TextType`s and the mapping
  `text_node_to_html_node` to HTML leaves;
- `split_nodes_delimiter`, which cuts plain-text nodes on an inline delimiter
  such as a backtick, `_` or `**`;
- `markdown_to_blocks`, which splits a document on blank lines, and
  `block_to_block_type` with `starts_with_ascending_number`, which classify
  one block;
- `extract_title`, which finds the page title. There are two copies of it,
  one in `src/generate_content.py` and one in `src/extract_markdown.py`.

The Python built-ins the code relies on are written out over `seq<char>` in
module `PyStrings`:

- `split` and `count`, which search left to right without overlaps;
- `startswith` and `endswith`;
- `strip()`, using Python's `isspace` characters;
- `lstrip(chars)`;
- `f"{n}"` for a natural number.

The module also defines `in` (as `Contains`), `join`, `replace(sep, "")`
(as `RemoveAll`) and `int(s)` on digit strings (as `DigitsValue`). No
modelled function calls them. They are reference definitions that
contracts and lemmas state the others against: for example, `SplitJoin`,
`SplitFlatten` and `NatToStringValue` state `split` and `f"{n}"` against
them, and `SplitPiecesLackSeparator` uses `in`.

Each Python exception becomes a `Failure` that carries the message; `None`
becomes `Option.None`. An attribute dict is a sequence of pairs with
distinct keys, kept in insertion order.

Modules follow the source files:

| module | file | source |
|---|---|---|
| `Wrappers` | `wrappers.dfy` | `Option` and `Result` |
| `PyStrings` | `pystrings.dfy` | Python `str` built-ins |
| `HtmlNodes` | `htmlnode.dfy` | `src/htmlnode.py` |
| `TextNodes` | `textnode.dfy` | `src/textnode.py` |
| `InlineMarkdown` | `inline_markdown.dfy` | `src/inline_markdown.py` |
| `MarkdownBlocks` | `markdown_blocks.dfy` | `src/markdown_blocks.py` |
| `GenerateContent` | `generate_content.dfy` | `extract_title` in `src/generate_content.py` |
| `ExtractMarkdown` | `extract_markdown.dfy` | `extract_title` in `src/extract_markdown.py` |

Two points of behaviour follow the code where a reader might expect more:

- **Whitespace-only blocks.** The splitter is meant to discard empty blocks.
  The code discards only pieces that are exactly `""`, before it strips
  them. So a piece made only of whitespace comes back as an empty block.
  The model keeps this behaviour as written (see Findings), and
  `extract_title` runs on it as the source does. The corrected splitter
  `MarkdownToBlocks` is proved to lead to the same title.
- **Code blocks.** A block is CODE when it starts with three backticks and
  ends with three backticks. No separate fence lines are needed.

The title search `GenerateContent.FirstTitle` tests only whether a block
starts with `"# "`. The source also asks for a HEADING block, but
`HeadingCheckRedundant` proves that test adds nothing. The loop in
`ExtractMarkdown.TitleSearch` keeps the full guard and is proved to return
the same result.

## Model

| member | source | states |
|---|---|---|
| PyStrings.Split | src/inline_markdown.py:13 | `str.split` with a non-empty separator returns exactly one more piece than `str.count` finds occurrences |
| PyStrings.SplitJoin | src/markdown_blocks.py:17 | joining the pieces of `split` with the separator gives back the input |
| PyStrings.SplitFlatten | src/inline_markdown.py:13-20 | concatenating the pieces of `split` gives the input with every occurrence of the separator deleted |
| PyStrings.SplitPiecesLackSeparator | src/inline_markdown.py:13 | no piece that `split` returns contains the separator |
| PyStrings.SplitHeadIsPrefix | src/markdown_blocks.py:46 | the first piece of a split is a prefix of the input |
| PyStrings.SplitAbsent | src/markdown_blocks.py:17 | a string without the separator splits into itself alone |
| PyStrings.SplitAtFirst | src/markdown_blocks.py:17 | `split` cuts at the leftmost occurrence, then splits the rest the same way |
| PyStrings.CountZeroIffAbsent | src/inline_markdown.py:10 | `count` is zero exactly when the separator does not occur |
| PyStrings.ContainsAt | src/inline_markdown.py:13 | an occurrence at any position makes `sep in s` true |
| PyStrings.Strip | src/markdown_blocks.py:22 | `strip()` leaves no whitespace at either end |
| PyStrings.StripFacts | src/markdown_blocks.py:22 | `strip()` leaves nothing exactly when the input is all whitespace, and leaves already trimmed text unchanged |
| PyStrings.LStripChars | src/generate_content.py:17 | `lstrip(chars)` removes only characters of the set, and the result does not start with one |
| PyStrings.LStripCharsIsSuffix | src/generate_content.py:17 | what `lstrip(chars)` keeps is a suffix of the input |
| PyStrings.LStripSpaceIsSuffix | src/markdown_blocks.py:22 | what `lstrip()` keeps is a suffix of the input |
| PyStrings.RStripSpaceIsPrefix | src/markdown_blocks.py:22 | what `rstrip()` keeps is a prefix of the input |
| PyStrings.NatToString | src/markdown_blocks.py:49 | `f"{n}"` is a non-empty string of decimal digits without a leading zero |
| PyStrings.NatToStringValue | src/markdown_blocks.py:49 | round trip: reading the digits of `f"{n}"` back as a decimal number gives `n` |
| PyStrings.NatToStringInjective | src/markdown_blocks.py:49 | different numbers give different strings |
| PyStrings.DigitRunOfPrefix | src/markdown_blocks.py:49-50 | a line that starts with digits and then `.` has exactly those digits as its leading digit run |
| PyStrings.NumberPrefixUnique | src/markdown_blocks.py:49-50 | a line starts with `"<m>. "` and with `"<n>. "` only when `m == n` |
| HtmlNodes.PropsToHtml | src/htmlnode.py:41-46 | an absent or empty dict renders as `""`; otherwise the output begins with ` key="` for the first key |
| HtmlNodes.AttrsStartWithFirst | src/htmlnode.py:44-45 | the first attribute is rendered first |
| HtmlNodes.PropsToHtmlInOrder | src/htmlnode.py:43-46 | the attribute string is the in-order concatenation of ` key="value"` over the entries, with no sorting and no escaping |
| HtmlNodes.ElementParts | src/htmlnode.py:99 | an element is its opening tag, its body and its closing tag, and the body can be cut back out of it |
| HtmlNodes.OneAttribute | src/htmlnode.py:43-46 | a dict with one attribute renders as ` key="value"` |
| HtmlNodes.TwoAttributes | src/htmlnode.py:43-46 | a dict with two attributes renders them in insertion order |
| HtmlNodes.LeafFirstAttributeChar | src/htmlnode.py:99 | in a rendered leaf whose first attribute name is non-empty, the character after `<tag ` is the first letter of that name |
| HtmlNodes.ToHtml | src/htmlnode.py:24-139 | `to_html` succeeds exactly on renderable nodes. A base node always raises. A leaf without a value raises, whatever its tag. An untagged leaf renders its value unchanged. A tagged node renders as its opening tag, then its content, then its closing tag; for a leaf the content is exactly the value |
| HtmlNodes.ChildrenToHtml | src/htmlnode.py:136-138 | the children loop succeeds exactly when every remaining child renders |
| HtmlNodes.ChildrenToHtmlConcat | src/htmlnode.py:136-138 | the children loop yields the children's renderings concatenated in order |
| HtmlNodes.ParentRendersChildrenInOrder | src/htmlnode.py:132-139 | `ParentNode(tag, children, props)` with a tag and renderable children renders as `<tag props>`, then each child's rendering in order, then `</tag>` |
| HtmlNodes.ChildrenToHtmlFirstFailure | src/htmlnode.py:137-138 | the children loop raises the error of the first child that fails |
| HtmlNodes.ParentRaisesFirstChildError | src/htmlnode.py:136-139 | `ParentNode(tag, children, props)` with a tag raises the error of its first failing child |
| HtmlNodes.NodeEqReflexive | src/htmlnode.py:57-62 | node equality holds between a node and itself |
| HtmlNodes.NodeEqSymmetric | src/htmlnode.py:57-62 | node equality is symmetric |
| HtmlNodes.NodeEqTransitive | src/htmlnode.py:57-62 | node equality is transitive |
| HtmlNodes.EqualityIgnoresClass | src/htmlnode.py:57-62 | equality does not compare the class: `LeafNode(tag, value, props)` equals `HTMLNode(tag, value, None, props)`, yet the leaf renders and the base node raises |
| HtmlNodes.SwappedAttributes | src/htmlnode.py:41-46 | two attributes with different first letters make the same dict in either order, but the rendering starts with whichever key was inserted first |
| HtmlNodes.EqualityIgnoresAttributeOrder | src/htmlnode.py:57-62 | equality compares props as dicts, so two leaves whose attributes differ only in order are equal, although `to_html` renders them differently |
| TextNodes.TextNodeEq | src/textnode.py:38-46 | two text nodes are equal exactly when text, type and url are all equal |
| TextNodes.TextNodeToHtmlNode | src/textnode.py:69-80 | every kind maps to a leaf with a value and no children; the leaf is untagged exactly for TEXT; every kind but IMAGE keeps the text as the value |
| TextNodes.TextNodeRendering | src/textnode.py:69-80 | rendering the mapped leaf never fails. TEXT gives the text unchanged. BOLD, ITALIC and CODE give the text wrapped in `b`, `i` and `code`. LINK gives an `a` element with only `href`. IMAGE gives an empty `img` element with `src` then `alt` |
| InlineMarkdown.SplitTextNode | src/inline_markdown.py:7-20 | a non-text node comes back alone and unchanged. A text node fails exactly when the delimiter count is odd, or when the delimiter is empty. Every node produced from text has non-empty text, no url, type TEXT or the requested one, and no delimiter in it |
| InlineMarkdown.SplitNodesDelimiter | src/inline_markdown.py:4-22 | the call succeeds exactly when every input node can be split |
| InlineMarkdown.SplitNodesDelimiterConcat | src/inline_markdown.py:5-22 | the output is the per-node results concatenated in input order, so non-text nodes keep their positions |
| InlineMarkdown.PiecesToNodesShape | src/inline_markdown.py:14-20 | every node the piece loop emits has non-empty text taken from a piece, no url, and type TEXT or the requested one |
| InlineMarkdown.PiecesToNodesLabels | src/inline_markdown.py:14-20 | the piece loop is the positional labelling with empty pieces removed: odd positions get the requested type, even positions stay TEXT |
| InlineMarkdown.PiecesToNodesTexts | src/inline_markdown.py:14-20 | the emitted texts concatenate to the concatenation of the pieces |
| InlineMarkdown.SplitTextNodeKeepsText | src/inline_markdown.py:13-20 | for one text node, the produced texts concatenate to the input with every delimiter occurrence removed |
| InlineMarkdown.SplitTextNodeLabels | src/inline_markdown.py:13-20 | for one text node, the result is the split pieces labelled by position, with empty pieces dropped |
| InlineMarkdown.SplitTextNodeWithoutDelimiter | src/inline_markdown.py:13-20 | a non-empty text node without the delimiter comes back as one TEXT node with the same text and no url |
| MarkdownBlocks.MarkdownToBlocksAsWritten | src/markdown_blocks.py:13-24 | the blocks are the pieces between blank lines that are not exactly `""`, each stripped, in source order |
| MarkdownBlocks.MarkdownToBlocks | src/markdown_blocks.py:13-24 | corrected: the blocks are the pieces between blank lines, each stripped, with the empty results dropped, in source order |
| MarkdownBlocks.KeepBlocksAsWrittenIsStripOfNonEmpty | src/markdown_blocks.py:18-24 | the loop as written equals "drop the pieces that are exactly `""`, then strip each remaining one", so it keeps order and drops nothing else |
| MarkdownBlocks.KeepBlocksIsNonEmptyOfStrip | src/markdown_blocks.py:18-24 | the corrected loop equals "strip every piece, then drop the empty results" |
| MarkdownBlocks.KeepBlocksDropsOnlyEmpty | src/markdown_blocks.py:19-23 | the corrected loop equals the loop as written with its empty blocks removed |
| MarkdownBlocks.NoNewlineNoBlankLine | src/markdown_blocks.py:17 | text without a newline has no blank-line separator in it |
| MarkdownBlocks.NoSeparatorInside | src/markdown_blocks.py:17 | no separator starts inside a paragraph that has none and does not end in a newline |
| MarkdownBlocks.SplitAfterParagraph | src/markdown_blocks.py:17 | a paragraph followed by a blank line is split off first |
| MarkdownBlocks.NewlineBeforeParagraph | src/markdown_blocks.py:17-22 | a newline in front of a paragraph adds no separator and is stripped away |
| MarkdownBlocks.KeepTwo | src/markdown_blocks.py:19-23 | a paragraph followed by a piece that strips to a second paragraph gives those two blocks |
| MarkdownBlocks.KeepSkipsEmpty | src/markdown_blocks.py:20-21 | an empty piece in between changes neither loop's result |
| MarkdownBlocks.SplitOneBlankLine | src/markdown_blocks.py:17 | two paragraphs with one blank line between them split into the two |
| MarkdownBlocks.SplitFourBlankLines | src/markdown_blocks.py:17 | two paragraphs with four blank lines between them split into the first, one empty piece, and the second behind a newline |
| MarkdownBlocks.BlankLinesCollapse | src/markdown_blocks.py:13-24 | for any two paragraphs, one blank line or four between them give the same two blocks in both loops, and newlines inside the paragraphs are kept |
| MarkdownBlocks.TrailingBlankLinesGiveEmptyBlock | src/markdown_blocks.py:19-23 | a paragraph followed by three newlines gives an extra empty block as written; the corrected loop gives the paragraph alone |
| MarkdownBlocks.TrailingBlankLinesExample | src/markdown_blocks.py:19-23 | `"a\n\n\n"` gives the blocks `"a"` and `""` as written |
| MarkdownBlocks.SingleLine | src/markdown_blocks.py:46 | a block without a newline is one line |
| MarkdownBlocks.FirstLine | src/markdown_blocks.py:46 | a first line without a newline is split off first |
| MarkdownBlocks.AscendingFromIff | src/markdown_blocks.py:47-52 | the numbering loop from counter `n` accepts exactly when line `i` starts with `"<n+i>. "` for every `i` |
| MarkdownBlocks.StartsWithAscendingNumber | src/markdown_blocks.py:44-52 | the check holds exactly when line `i` (from 1) starts with `"<i>. "` for every line |
| MarkdownBlocks.TwoLineNumbering | src/markdown_blocks.py:44-52 | for two lines the check asks for `"1. "` then `"2. "`, so a skipped or repeated number fails |
| MarkdownBlocks.FirstCharacterOfRules | src/markdown_blocks.py:31-39 | each classification rule forces its own first character (`#`, a backtick, `>`, `-` or `1`), so no block meets two rules |
| MarkdownBlocks.HeadingPrefixes | src/markdown_blocks.py:31 | the six literal prefixes are exactly the markers of heading levels one to six |
| MarkdownBlocks.BlockToBlockType | src/markdown_blocks.py:27-41 | classification is total. Each kind holds exactly when its own rule holds: a heading marker, a backtick fence at both ends, `"> "` on every line, `"- "` on every line, or ascending numbering. PARAGRAPH holds exactly when no rule does, so the precedence order never decides |
| MarkdownBlocks.WrongNumberFails | src/markdown_blocks.py:44-52 | in a block of any length, a line `i` (from 0) that starts with `"<j>. "` for `j != i + 1` makes the check fail, so a skipped or repeated number anywhere is caught |
| MarkdownBlocks.SkippedNumberIsParagraph | src/markdown_blocks.py:39-41 | two lines numbered `1.` then `3.` classify as a paragraph |
| GenerateContent.TitleText | src/generate_content.py:17 | the title has no surrounding whitespace and is no longer than the block |
| GenerateContent.TitleOfHeading | src/generate_content.py:17 | round trip: the title of `"# " + text` is `text`, for trimmed text not starting with `#` |
| GenerateContent.TitleCanStartWithHash | src/generate_content.py:17 | the marker is stripped as a character set, so `"# \t#x"` gives the title `"#x"` |
| GenerateContent.HeadingCheckRedundant | src/generate_content.py:16 | the guard (HEADING and starting with `"# "`) holds exactly when the block starts with `"# "`: such a block always classifies as HEADING |
| GenerateContent.FirstTitle | src/generate_content.py:14-18 | a failed search raises the no-h1 error, and a title has no surrounding whitespace |
| GenerateContent.FirstTitleFacts | src/generate_content.py:14-18 | the search succeeds exactly when some block starts with `"# "`. On success the title is that of the first such block, every earlier block being passed over. On failure the error is the no-h1 message and no block qualifies |
| GenerateContent.FirstTitleIsFirst | src/generate_content.py:15-17 | the title is taken from the first block in order that starts with `"# "` |
| GenerateContent.SubheadingNeverTitle | src/generate_content.py:16 | a block starting with `"##"` is passed over |
| GenerateContent.FirstTitleRemoveEmpty | src/generate_content.py:15-16 | empty blocks never qualify, so dropping them changes nothing |
| GenerateContent.ExtractTitleIgnoresEmptyBlocks | src/generate_content.py:13-18 | `extract_title`, which runs on the splitter as written, gives the same result as the search over the corrected splitter's blocks |
| GenerateContent.SingleHeadingTitle | src/generate_content.py:11-18 | a one-paragraph document `"# " + text` has title `text` |
| GenerateContent.HelloTitle | tests/test_extract_markdown.py:6-9 | `"# Hello"` has title `"Hello"` |
| ExtractMarkdown.ExtractTitle | src/extract_markdown.py:10-17 | over the blocks of `markdown_to_blocks` as written, returns the title of the first block starting with `"# "`, or the no-h1 error when no block qualifies; on every input it agrees with the copy in `src/generate_content.py` |
| ExtractMarkdown.TitleSearch | src/extract_markdown.py:14-17 | the loop with the full HEADING guard returns the same result as the search in `src/generate_content.py` |

## Left out

- File and directory I/O are not modelled. This covers `generate_page`, `generate_pages_recursive`, `write_html_file`, `src/copystatic.py` and `src/main.py`. They are filesystem plumbing with printing.
- The `{{ Title }}` and `{{ Content }}` template substitution is not modelled. It is a plain `str.replace` inside the file-reading code.
- `extract_markdown_images`, `extract_markdown_links`, `split_nodes_image`, `split_nodes_link`, `text_to_textnodes` and `markdown_to_html_node` are not modelled. The tests import them, but the source files do not define them, so there is no code to model.
- The `__repr__` methods are not modelled. They only format debug strings.
- Exception classes are not modelled. A failure carries only its message. The base `to_html` raises `NotImplementedError` without a message; the model uses the class name as the message. As a result, the two copies of `extract_title` cannot be told apart: one raises `ValueError` and the other `Exception`.
- The "invalid text type" branch of `text_node_to_html_node` is left out. `TextType` is a closed datatype, so that branch cannot be reached.
- Python's dynamic typing is not modelled. Children must be nodes, and attribute values must be strings or `None` (`None` prints as `None`). Comparing a node with an object of another class, which raises `AttributeError` in Python, cannot be expressed.
- An empty delimiter makes `split_nodes_delimiter` fail on every text node. Python's `count("")` is one more than the length and `split("")` raises. The model's two messages follow that order. The exception classes are not distinguished.
- GenerateContent.TitleText: does not state that the title never starts with `#`, because that is false. `TitleCanStartWithHash` exhibits a title that starts with `#`. The model states only that the title has no surrounding whitespace.
- MarkdownBlocks.BlankLinesCollapse: the blank-line claim is proved for gaps of one and four blank lines (the gap the tests use), not for every gap length.

## Findings

| source | as written | input that shows it | evidently intended | confidence | as-written member | corrected member |
|---|---|---|---|---|---|---|
| src/markdown_blocks.py:19-23 | a piece is compared with `""` before it is stripped, so a piece of only whitespace is kept as an empty block | `"a\n\n\n"` gives `["a", ""]`; the input of the test at src/test_markdown_blocks.py:84-99 ends in a blank line and four spaces, yet two paragraphs are expected | pieces that hold no text are discarded, which is what the `== ""` test is there for | medium; not executed | MarkdownBlocks.TrailingBlankLinesGiveEmptyBlock | MarkdownBlocks.MarkdownToBlocks |
