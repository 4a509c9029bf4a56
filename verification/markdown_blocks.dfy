/** Splitting a document into blocks and classifying each block
    (`src/markdown_blocks.py`). */
module MarkdownBlocks {
  import opened PyStrings

  /** `BlockType` */
  datatype BlockType = Paragraph | Heading | Code | Quote | UList | OList

  /** The blank-line separator `markdown_to_blocks` splits on. */
  const BlockSeparator: string := "\n\n"

  /** A string list without its empty strings, in order. */
  function RemoveEmpty(strs: seq<string>): (r: seq<string>)
    ensures forall i | 0 <= i < |r| :: r[i] != ""
  {
    if |strs| == 0 then []
    else (if strs[0] == "" then [] else [strs[0]]) + RemoveEmpty(strs[1..])
  }

  /** The loop of `markdown_to_blocks` as written: a piece that is exactly
      `""` is skipped, every other piece is stripped and kept, even when
      stripping leaves nothing. */
  function KeepBlocksAsWritten(pieces: seq<string>): (blocks: seq<string>)
    ensures |blocks| <= |pieces|
    ensures forall i | 0 <= i < |blocks| :: Trimmed(blocks[i])
  {
    if |pieces| == 0 then []
    else (if pieces[0] == "" then [] else [Strip(pieces[0])]) + KeepBlocksAsWritten(pieces[1..])
  }

  /** `markdown_to_blocks` as written: the pieces between blank lines that
      are not exactly `""`, each stripped, in source order. */
  function MarkdownToBlocksAsWritten(markdown: string): (blocks: seq<string>)
    ensures blocks == MapStrip(RemoveEmpty(Split(markdown, BlockSeparator)))
  {
    KeepBlocksAsWrittenIsStripOfNonEmpty(Split(markdown, BlockSeparator));
    KeepBlocksAsWritten(Split(markdown, BlockSeparator))
  }

  /** The loop of `markdown_to_blocks` with the emptiness test made after
      stripping, so that whitespace-only pieces are dropped as well. */
  function KeepBlocks(pieces: seq<string>): (blocks: seq<string>)
    ensures |blocks| <= |pieces|
    ensures forall i | 0 <= i < |blocks| :: Trimmed(blocks[i]) && blocks[i] != ""
  {
    if |pieces| == 0 then []
    else (if Strip(pieces[0]) == "" then [] else [Strip(pieces[0])]) + KeepBlocks(pieces[1..])
  }

  /** `markdown_to_blocks` with the emptiness test after stripping: the
      pieces between blank lines, each stripped, without the empty ones, in
      source order. */
  function MarkdownToBlocks(markdown: string): (blocks: seq<string>)
    ensures blocks == RemoveEmpty(MapStrip(Split(markdown, BlockSeparator)))
  {
    KeepBlocksIsNonEmptyOfStrip(Split(markdown, BlockSeparator));
    KeepBlocks(Split(markdown, BlockSeparator))
  }

  /** Every string stripped, position by position. */
  function MapStrip(strs: seq<string>): seq<string> {
    if |strs| == 0 then [] else [Strip(strs[0])] + MapStrip(strs[1..])
  }

  lemma MapStripCons(x: string, rest: seq<string>)
    ensures MapStrip([x] + rest) == [Strip(x)] + MapStrip(rest)
  {
    assert ([x] + rest)[1..] == rest;
  }

  lemma RemoveEmptyCons(x: string, rest: seq<string>)
    ensures RemoveEmpty([x] + rest) == (if x == "" then [] else [x]) + RemoveEmpty(rest)
  {
    assert ([x] + rest)[1..] == rest;
  }

  /** The loop as written is "drop the pieces that are exactly `""`, then
      strip the rest": order is kept and nothing else is dropped. */
  lemma {:induction false} KeepBlocksAsWrittenIsStripOfNonEmpty(pieces: seq<string>)
    ensures KeepBlocksAsWritten(pieces) == MapStrip(RemoveEmpty(pieces))
    decreases |pieces|
  {
    if |pieces| > 0 {
      var p, tail := pieces[0], pieces[1..];
      assert pieces == [p] + tail;
      KeepBlocksAsWrittenIsStripOfNonEmpty(tail);
      KeepBlocksAsWrittenCons(p, tail);
      RemoveEmptyCons(p, tail);
      if p == "" {
        assert RemoveEmpty(pieces) == RemoveEmpty(tail);
        assert KeepBlocksAsWritten(pieces) == KeepBlocksAsWritten(tail);
      } else {
        assert RemoveEmpty(pieces) == [p] + RemoveEmpty(tail);
        MapStripCons(p, RemoveEmpty(tail));
        assert KeepBlocksAsWritten(pieces) == [Strip(p)] + KeepBlocksAsWritten(tail);
      }
    }
  }

  /** The corrected loop is "strip every piece, then drop the empty
      results": order is kept and only pieces without text are dropped. */
  lemma {:induction false} KeepBlocksIsNonEmptyOfStrip(pieces: seq<string>)
    ensures KeepBlocks(pieces) == RemoveEmpty(MapStrip(pieces))
    decreases |pieces|
  {
    if |pieces| > 0 {
      var p, tail := pieces[0], pieces[1..];
      assert pieces == [p] + tail;
      KeepBlocksIsNonEmptyOfStrip(tail);
      KeepBlocksCons(p, tail);
      MapStripCons(p, tail);
      RemoveEmptyCons(Strip(p), MapStrip(tail));
    }
  }

  /** The corrected loop differs from the one as written only in dropping
      the empty blocks the latter produces. */
  lemma {:induction false} KeepBlocksDropsOnlyEmpty(pieces: seq<string>)
    ensures KeepBlocks(pieces) == RemoveEmpty(KeepBlocksAsWritten(pieces))
    decreases |pieces|
  {
    if |pieces| > 0 {
      var p, tail := pieces[0], pieces[1..];
      KeepBlocksDropsOnlyEmpty(tail);
      assert pieces == [p] + tail;
      KeepBlocksCons(p, tail);
      KeepBlocksAsWrittenCons(p, tail);
      var rest := KeepBlocksAsWritten(tail);
      if p == "" {
        assert Strip(p) == "";
        assert KeepBlocksAsWritten(pieces) == rest;
        assert KeepBlocks(pieces) == KeepBlocks(tail);
      } else {
        var asWritten := [Strip(p)] + rest;
        assert asWritten[1..] == rest;
        assert RemoveEmpty(asWritten) == (if Strip(p) == "" then [] else [Strip(p)]) + RemoveEmpty(rest);
      }
    }
  }

  /** One step of the corrected loop: a piece that strips to nothing is
      dropped, any other is kept stripped, before the blocks of the pieces
      after it. */
  lemma KeepBlocksCons(x: string, rest: seq<string>)
    ensures KeepBlocks([x] + rest) == (if Strip(x) == "" then [] else [Strip(x)]) + KeepBlocks(rest)
  {
    assert ([x] + rest)[1..] == rest;
  }

  /** One step of the loop as written: a `""` piece is skipped, any other
      piece is kept stripped, before the blocks of the pieces after it. */
  lemma KeepBlocksAsWrittenCons(x: string, rest: seq<string>)
    ensures KeepBlocksAsWritten([x] + rest) == (if x == "" then [] else [Strip(x)]) + KeepBlocksAsWritten(rest)
  {
    assert ([x] + rest)[1..] == rest;
  }

  /** A paragraph as the tests write them: text with no blank line in it
      and no whitespace at either end; single newlines inside are allowed. */
  predicate PlainParagraph(p: string) {
    p != "" && Trimmed(p) && !Contains(p, BlockSeparator)
  }

  /** Text without a newline character has no blank line in it. */
  lemma {:induction false} NoNewlineNoBlankLine(s: string)
    requires '\n' !in s
    ensures !Contains(s, BlockSeparator)
    decreases |s|
  {
    if |s| > 0 {
      assert !StartsWith(s, BlockSeparator) by {
        if |s| >= 2 {
          assert s[..2][0] == s[0];
        }
      }
      assert '\n' !in s[1..] by {
        forall i | 0 <= i < |s| - 1 ensures s[1..][i] != '\n' {
          assert s[1..][i] == s[i + 1];
        }
      }
      NoNewlineNoBlankLine(s[1..]);
    }
  }

  /** No separator starts inside `a` when `a` has none and does not end in
      a newline. */
  lemma NoSeparatorInside(a: string, b: string)
    requires !Contains(a, BlockSeparator) && (|a| == 0 || a[|a| - 1] != '\n')
    ensures forall k | 0 <= k < |a| :: !StartsWith((a + BlockSeparator + b)[k..], BlockSeparator)
  {
    var s := a + BlockSeparator + b;
    forall k | 0 <= k < |a| ensures !StartsWith(s[k..], BlockSeparator) {
      if k + 1 < |a| {
        if StartsWith(s[k..], BlockSeparator) {
          assert a[k..][..2] == s[k..][..2];
          ContainsAt(a, BlockSeparator, k);
        }
      } else {
        assert s[k..][0] == a[|a| - 1];
      }
    }
  }

  /** A paragraph followed by a blank line and more text splits after the
      paragraph. */
  lemma SplitAfterParagraph(p: string, rest: string)
    requires PlainParagraph(p)
    ensures Split(p + BlockSeparator + rest, BlockSeparator) == [p] + Split(rest, BlockSeparator)
  {
    assert IsSpace('\n');
    NoSeparatorInside(p, rest);
    SplitAtFirst(p, BlockSeparator, rest);
  }

  /** A newline before a paragraph adds no blank line and is stripped. */
  lemma NewlineBeforeParagraph(q: string)
    requires PlainParagraph(q)
    ensures !Contains("\n" + q, BlockSeparator)
    ensures Strip("\n" + q) == q
  {
    var s := "\n" + q;
    assert s[1..] == q;
    assert s[..2][1] == q[0];
    assert IsSpace('\n');
    assert LStripSpace(s) == LStripSpace(q);
    StripFacts(q);
  }

  /** What both loops make of a paragraph followed by a piece that strips
      to a second paragraph. */
  lemma KeepTwo(p: string, last: string, q: string)
    requires PlainParagraph(p) && PlainParagraph(q) && last != "" && Strip(last) == q
    ensures KeepBlocksAsWritten([p, last]) == [p, q]
    ensures KeepBlocks([p, last]) == [p, q]
  {
    StripFacts(p);
    assert [p, last] == [p] + [last] && [last] == [last] + [];
    KeepBlocksAsWrittenCons(p, [last]);
    KeepBlocksAsWrittenCons(last, []);
    KeepBlocksCons(p, [last]);
    KeepBlocksCons(last, []);
  }

  /** An empty piece in between changes neither loop's result. */
  lemma KeepSkipsEmpty(p: string, last: string)
    ensures KeepBlocksAsWritten([p, "", last]) == KeepBlocksAsWritten([p, last])
    ensures KeepBlocks([p, "", last]) == KeepBlocks([p, last])
  {
    assert [p, "", last] == [p] + ([""] + [last]);
    assert [p, last] == [p] + [last];
    KeepBlocksAsWrittenCons(p, [""] + [last]);
    KeepBlocksAsWrittenCons("", [last]);
    KeepBlocksAsWrittenCons(p, [last]);
    assert Strip("") == "";
    KeepBlocksCons(p, [""] + [last]);
    KeepBlocksCons("", [last]);
    KeepBlocksCons(p, [last]);
  }

  /** Two paragraphs separated by one blank line split into the two. */
  lemma SplitOneBlankLine(p: string, q: string)
    requires PlainParagraph(p) && PlainParagraph(q)
    ensures Split(p + "\n\n" + q, BlockSeparator) == [p, q]
  {
    SplitAfterParagraph(p, q);
    SplitAbsent(q, BlockSeparator);
    assert p + "\n\n" + q == p + BlockSeparator + q;
  }

  /** Two paragraphs separated by four blank lines split into the first,
      one empty piece, and the second behind a newline. */
  lemma SplitFourBlankLines(p: string, q: string)
    requires PlainParagraph(p) && PlainParagraph(q)
    ensures Split(p + "\n\n\n\n\n" + q, BlockSeparator) == [p, "", "\n" + q]
  {
    var nq := "\n" + q;
    NewlineBeforeParagraph(q);
    SplitAbsent(nq, BlockSeparator);
    var gap := BlockSeparator + nq;
    assert gap[0..] == gap;
    SplitAtFirst("", BlockSeparator, nq);
    assert "" + BlockSeparator + nq == gap;
    SplitAfterParagraph(p, gap);
    FiveNewlines(p, q);
  }

  /** Four blank lines are two separators and a newline. */
  lemma FiveNewlines(p: string, q: string)
    ensures p + "\n\n\n\n\n" + q == p + BlockSeparator + (BlockSeparator + ("\n" + q))
  {
    assert "\n\n\n\n\n" == BlockSeparator + BlockSeparator + "\n";
  }

  /** The blocks of two paragraphs separated by one blank line, or by four,
      are the two paragraphs, in both loops: extra blank lines change
      nothing and the newlines inside each paragraph are kept. */
  lemma BlankLinesCollapse(p: string, q: string)
    requires PlainParagraph(p) && PlainParagraph(q)
    ensures MarkdownToBlocksAsWritten(p + "\n\n" + q) == [p, q]
    ensures MarkdownToBlocksAsWritten(p + "\n\n\n\n\n" + q) == [p, q]
    ensures MarkdownToBlocks(p + "\n\n" + q) == [p, q]
    ensures MarkdownToBlocks(p + "\n\n\n\n\n" + q) == [p, q]
  {
    StripFacts(q);
    SplitOneBlankLine(p, q);
    KeepTwo(p, q, q);
    SplitFourBlankLines(p, q);
    NewlineBeforeParagraph(q);
    KeepSkipsEmpty(p, "\n" + q);
    KeepTwo(p, "\n" + q, q);
  }

  /** The source keeps a whitespace-only piece as an empty block: a
      paragraph followed by three newlines gets an empty last block, which
      the corrected loop drops. */
  lemma TrailingBlankLinesGiveEmptyBlock(p: string)
    requires PlainParagraph(p)
    ensures MarkdownToBlocksAsWritten(p + "\n\n\n") == [p, ""]
    ensures MarkdownToBlocks(p + "\n\n\n") == [p]
  {
    assert !Contains("", BlockSeparator);
    assert !Contains("\n", BlockSeparator);
    SplitAbsent("\n", BlockSeparator);
    SplitAfterParagraph(p, "\n");
    assert p + "\n\n\n" == p + BlockSeparator + "\n";
    StripFacts(p);
    assert Strip("\n") == "" by { StripFacts("\n"); }
    assert [p, "\n"] == [p] + ["\n"] && ["\n"] == ["\n"] + [];
    KeepBlocksAsWrittenCons(p, ["\n"]);
    KeepBlocksAsWrittenCons("\n", []);
    KeepBlocksCons(p, ["\n"]);
    KeepBlocksCons("\n", []);
  }

  /** The empty block on a concrete document. */
  lemma TrailingBlankLinesExample()
    ensures MarkdownToBlocksAsWritten("a\n\n\n") == ["a", ""]
  {
    assert !Contains("a", BlockSeparator);
    TrailingBlankLinesGiveEmptyBlock("a");
    assert "a" + "\n\n\n" == "a\n\n\n";
  }

  /** `"#" * level + " "` */
  function HeadingMarker(level: nat): (m: string)
    ensures |m| == level + 1 && m[level] == ' '
    ensures forall i | 0 <= i < level :: m[i] == '#'
  {
    seq(level, _ => '#') + " "
  }

  /** The block opens with one to six `#` and a space. */
  predicate HasHeadingMarker(block: string) {
    exists level | 1 <= level <= 6 :: StartsWith(block, HeadingMarker(level))
  }

  /** The block both starts and ends with three backticks (the two may
      overlap). */
  predicate IsFenced(block: string) {
    StartsWith(block, "```") && EndsWith(block, "```")
  }

  /** `block.split("\n")` */
  function Lines(block: string): (lines: seq<string>)
    ensures |lines| >= 1
  {
    Split(block, "\n")
  }

  predicate AllLinesStartWith(block: string, prefix: string) {
    forall i | 0 <= i < |Lines(block)| :: StartsWith(Lines(block)[i], prefix)
  }

  /** Line `i` (counting from 1) starts with `"<i>. "`. */
  predicate AscendinglyNumbered(block: string) {
    forall i | 0 <= i < |Lines(block)| :: StartsWith(Lines(block)[i], NatToString(i + 1) + ". ")
  }

  /** The loop of `starts_with_ascending_number` from counter `n` on: stop
      with false at the first line not starting with `"<n>. "`. */
  function AscendingFrom(lines: seq<string>, n: nat): bool {
    |lines| == 0 || (StartsWith(lines[0], NatToString(n) + ". ") && AscendingFrom(lines[1..], n + 1))
  }

  lemma {:induction false} AscendingFromIff(lines: seq<string>, n: nat)
    ensures AscendingFrom(lines, n) <==>
      forall i | 0 <= i < |lines| :: StartsWith(lines[i], NatToString(n + i) + ". ")
    decreases |lines|
  {
    if |lines| > 0 {
      AscendingFromIff(lines[1..], n + 1);
      if AscendingFrom(lines, n) {
        forall i | 0 <= i < |lines| ensures StartsWith(lines[i], NatToString(n + i) + ". ") {
          if i > 0 {
            assert lines[i] == lines[1..][i - 1];
          }
        }
      }
      if forall i | 0 <= i < |lines| :: StartsWith(lines[i], NatToString(n + i) + ". ") {
        forall i | 0 <= i < |lines[1..]| ensures StartsWith(lines[1..][i], NatToString(n + 1 + i) + ". ") {
          assert lines[1..][i] == lines[i + 1];
        }
      }
    }
  }

  /** `starts_with_ascending_number`: line `i` (from 1) starts with
      `"<i>. "`, for every line; a skipped or repeated number fails. */
  function StartsWithAscendingNumber(block: string): (r: bool)
    ensures r <==> AscendinglyNumbered(block)
  {
    AscendingFromIff(Lines(block), 1);
    AscendingFrom(Lines(block), 1)
  }

  /** A line without a newline character is one line. */
  lemma {:induction false} SingleLine(line: string)
    requires '\n' !in line
    ensures !Contains(line, "\n") && Lines(line) == [line]
    decreases |line|
  {
    if |line| > 0 {
      assert line[..1] == [line[0]];
      assert line[1..] <= line[1..] && forall c | c in line[1..] :: c in line;
      SingleLine(line[1..]);
    }
    SplitAbsent(line, "\n");
  }

  /** A first line without a newline is split off first. */
  lemma FirstLine(first: string, rest: string)
    requires '\n' !in first
    ensures Lines(first + "\n" + rest) == [first] + Lines(rest)
  {
    var s := first + "\n" + rest;
    forall k | 0 <= k < |first| ensures !StartsWith(s[k..], "\n") {
      assert s[k..][..1] == [first[k]];
    }
    SplitAtFirst(first, "\n", rest);
  }

  /** For two lines, the ordered-list test asks exactly for `"1. "` on the
      first and `"2. "` on the second: a skipped or repeated number fails. */
  lemma TwoLineNumbering(first: string, second: string)
    requires '\n' !in first && '\n' !in second
    ensures StartsWithAscendingNumber(first + "\n" + second) <==>
      StartsWith(first, "1. ") && StartsWith(second, "2. ")
  {
    var block := first + "\n" + second;
    FirstLine(first, second);
    SingleLine(second);
    var lines := Lines(block);
    assert lines == [first, second];
    assert NatToString(0 + 1) + ". " == "1. " && NatToString(1 + 1) + ". " == "2. ";
    if StartsWith(first, "1. ") && StartsWith(second, "2. ") {
      forall i | 0 <= i < |lines| ensures StartsWith(lines[i], NatToString(i + 1) + ". ") {
        if i == 1 {
          assert lines[i] == second;
        }
      }
    }
    if AscendinglyNumbered(block) {
      assert StartsWith(lines[0], NatToString(0 + 1) + ". ");
      assert StartsWith(lines[1], NatToString(1 + 1) + ". ");
    }
  }

  /** A two-line list numbered `1.` then `3.` matches no rule and is a
      paragraph. */
  lemma SkippedNumberIsParagraph(first: string, second: string)
    requires '\n' !in first && '\n' !in second
    requires StartsWith(first, "1. ") && StartsWith(second, "3. ")
    ensures BlockToBlockType(first + "\n" + second) == Paragraph
  {
    var block := first + "\n" + second;
    TwoLineNumbering(first, second);
    assert !StartsWith(second, "2. ") by { assert second[..3][0] == '3'; }
    assert block[0] == first[0] == '1' by { assert first[..3][0] == '1'; }
    FirstCharacterOfRules(block);
  }

  /** A line numbered other than its position (counting from 1) makes the
      ordered-list test fail: a skipped or repeated number anywhere is
      caught, not only in two-line blocks. */
  lemma WrongNumberFails(block: string, i: nat, j: nat)
    requires i < |Lines(block)| && j != i + 1
    requires StartsWith(Lines(block)[i], NatToString(j) + ". ")
    ensures !StartsWithAscendingNumber(block)
  {
    if AscendinglyNumbered(block) {
      NumberPrefixUnique(Lines(block)[i], j, i + 1);
    }
  }

  /** Each rule needs a particular first character, so no block meets two. */
  lemma FirstCharacterOfRules(block: string)
    ensures HasHeadingMarker(block) ==> |block| > 0 && block[0] == '#'
    ensures IsFenced(block) ==> |block| > 0 && block[0] == '`'
    ensures AllLinesStartWith(block, "> ") ==> |block| > 0 && block[0] == '>'
    ensures AllLinesStartWith(block, "- ") ==> |block| > 0 && block[0] == '-'
    ensures AscendinglyNumbered(block) ==> |block| > 0 && block[0] == '1'
  {
    var lines := Lines(block);
    SplitHeadIsPrefix(block, "\n");
    if HasHeadingMarker(block) {
      var level :| 1 <= level <= 6 && StartsWith(block, HeadingMarker(level));
      assert block[0] == HeadingMarker(level)[0];
    }
    if AscendinglyNumbered(block) {
      assert StartsWith(lines[0], NatToString(1) + ". ");
      assert NatToString(1) == "1";
      assert lines[0][0] == '1';
    }
    if AllLinesStartWith(block, "> ") {
      assert StartsWith(lines[0], "> ");
    }
    if AllLinesStartWith(block, "- ") {
      assert StartsWith(lines[0], "- ");
    }
  }

  /** The six literal prefixes the source tests are the markers of levels
      one to six. */
  lemma HeadingPrefixes(block: string)
    ensures HasHeadingMarker(block) <==>
      StartsWith(block, "# ") || StartsWith(block, "## ") || StartsWith(block, "### ")
      || StartsWith(block, "#### ") || StartsWith(block, "##### ") || StartsWith(block, "###### ")
  {
    assert HeadingMarker(1) == "# ";
    assert HeadingMarker(2) == "## ";
    assert HeadingMarker(3) == "### ";
    assert HeadingMarker(4) == "#### ";
    assert HeadingMarker(5) == "##### ";
    assert HeadingMarker(6) == "###### ";
  }

  /** `block_to_block_type`. Because every rule demands its own first
      character, at most one holds, the precedence order never decides
      anything, and each kind is characterised by its rule alone;
      PARAGRAPH is what is left. */
  function BlockToBlockType(block: string): (r: BlockType)
    ensures r == Heading <==> HasHeadingMarker(block)
    ensures r == Code <==> IsFenced(block)
    ensures r == Quote <==> AllLinesStartWith(block, "> ")
    ensures r == UList <==> AllLinesStartWith(block, "- ")
    ensures r == OList <==> AscendinglyNumbered(block)
    ensures r == Paragraph <==>
      !HasHeadingMarker(block) && !IsFenced(block) && !AllLinesStartWith(block, "> ")
      && !AllLinesStartWith(block, "- ") && !AscendinglyNumbered(block)
  {
    HeadingPrefixes(block);
    FirstCharacterOfRules(block);
    var lines := Lines(block);
    if StartsWith(block, "# ") || StartsWith(block, "## ") || StartsWith(block, "### ")
      || StartsWith(block, "#### ") || StartsWith(block, "##### ") || StartsWith(block, "###### ")
    then Heading
    else if StartsWith(block, "```") && EndsWith(block, "```") then Code
    else if forall line | line in lines :: StartsWith(line, "> ") then Quote
    else if forall line | line in lines :: StartsWith(line, "- ") then UList
    else if StartsWithAscendingNumber(block) then OList
    else Paragraph
  }
}
