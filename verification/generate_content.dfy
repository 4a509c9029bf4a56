/** Title extraction for a page (`extract_title` in
    `src/generate_content.py`): the first block starting with `"# "`, with
    the marker removed. */
module GenerateContent {
  import opened Wrappers
  import opened PyStrings
  import opened MarkdownBlocks

  /** The characters `lstrip("# ")` removes: the argument is a set of
      characters, not a prefix. */
  const TitleMarkerChars: set<char> := {'#', ' '}

  const NoTitleError: string := "No h1 header, invalid markdown file"

  /** A block that qualifies as the page title. */
  predicate IsTitleBlock(block: string) {
    StartsWith(block, "# ")
  }

  /** `block.lstrip("# ").strip()`: everything after the leading run of `#`
      and spaces, without surrounding whitespace. */
  function TitleText(block: string): (title: string)
    ensures Trimmed(title)
    ensures |title| <= |block|
  {
    Strip(LStripChars(block, TitleMarkerChars))
  }

  /** The guard of `extract_title`: a HEADING block that starts with `"# "`. */
  predicate QualifiesAsTitle(block: string) {
    BlockToBlockType(block) == Heading && StartsWith(block, "# ")
  }

  /** The guard's HEADING test is redundant: a block starting with `"# "`
      always classifies as a heading. */
  lemma HeadingCheckRedundant(block: string)
    ensures QualifiesAsTitle(block) <==> IsTitleBlock(block)
  {
    assert HeadingMarker(1) == "# ";
  }

  /** The loop of `extract_title` over the blocks: the title of the first
      qualifying block, or the failure when there is none. The source's
      guard also asks for a HEADING block; `HeadingCheckRedundant` shows that
      adds nothing, and `ExtractMarkdown.ExtractTitle` keeps the full guard
      and is proved to agree with this function. */
  function FirstTitle(blocks: seq<string>): (r: Result<string>)
    ensures r.Failure? ==> r.error == NoTitleError
    ensures r.Success? ==> Trimmed(r.value)
  {
    if |blocks| == 0 then Failure(NoTitleError)
    else if IsTitleBlock(blocks[0]) then Success(TitleText(blocks[0]))
    else FirstTitle(blocks[1..])
  }

  /** One step of the loop: a qualifying block ends it, any other block is
      passed over. */
  lemma FirstTitleCons(block: string, rest: seq<string>)
    ensures FirstTitle([block] + rest)
         == if IsTitleBlock(block) then Success(TitleText(block)) else FirstTitle(rest)
  {
    assert ([block] + rest)[1..] == rest;
  }

  /** `extract_title`, over the blocks of `markdown_to_blocks` as written. */
  function ExtractTitle(markdown: string): Result<string> {
    FirstTitle(MarkdownToBlocksAsWritten(markdown))
  }

  /** The title comes from the first qualifying block: every block before it
      is passed over. */
  lemma {:induction false} FirstTitleIsFirst(blocks: seq<string>, i: nat)
    requires i < |blocks| && IsTitleBlock(blocks[i])
    requires forall j | 0 <= j < i :: !IsTitleBlock(blocks[j])
    ensures FirstTitle(blocks) == Success(TitleText(blocks[i]))
    decreases i
  {
    var b, rest := blocks[0], blocks[1..];
    assert blocks == [b] + rest;
    FirstTitleCons(b, rest);
    if i > 0 {
      assert !IsTitleBlock(b);
      forall j | 0 <= j < i - 1 ensures !IsTitleBlock(rest[j]) {
        assert rest[j] == blocks[j + 1];
      }
      FirstTitleIsFirst(rest, i - 1);
    }
  }

  /** What the search returns, stated without the recursion: the title of
      the first qualifying block, or the error when no block qualifies. */
  lemma {:induction false} FirstTitleFacts(blocks: seq<string>)
    ensures FirstTitle(blocks).Success? <==> exists i | 0 <= i < |blocks| :: IsTitleBlock(blocks[i])
    ensures var r := FirstTitle(blocks);
      r.Success? ==> exists i | 0 <= i < |blocks| ::
        && IsTitleBlock(blocks[i])
        && (forall j | 0 <= j < i :: !IsTitleBlock(blocks[j]))
        && r.value == TitleText(blocks[i])
    ensures var r := FirstTitle(blocks);
      r.Failure? ==>
        && r.error == NoTitleError
        && forall i | 0 <= i < |blocks| :: !IsTitleBlock(blocks[i])
    decreases |blocks|
  {
    if |blocks| > 0 {
      var b, rest := blocks[0], blocks[1..];
      assert blocks == [b] + rest;
      FirstTitleCons(b, rest);
      if IsTitleBlock(b) {
        assert IsTitleBlock(blocks[0]);
      } else {
        FirstTitleFacts(rest);
        if FirstTitle(rest).Success? {
          var i :| 0 <= i < |rest| && IsTitleBlock(rest[i])
                   && (forall j | 0 <= j < i :: !IsTitleBlock(rest[j]))
                   && FirstTitle(rest).value == TitleText(rest[i]);
          assert blocks[i + 1] == rest[i];
          forall j | 0 <= j < i + 1 ensures !IsTitleBlock(blocks[j]) {
            if j > 0 { assert blocks[j] == rest[j - 1]; }
          }
        } else {
          forall i | 0 <= i < |blocks| ensures !IsTitleBlock(blocks[i]) {
            if i > 0 { assert blocks[i] == rest[i - 1]; }
          }
        }
      }
    }
  }

  /** A block opening with `"##"`, a subheading of any level, is never the
      title: the search moves on past it. */
  lemma SubheadingNeverTitle(block: string, rest: seq<string>)
    requires StartsWith(block, "##")
    ensures FirstTitle([block] + rest) == FirstTitle(rest)
  {
    assert block[..2][1] == '#';
    assert !StartsWith(block, "# ") by { assert block[1] == '#'; }
    assert ([block] + rest)[1..] == rest;
  }

  /** Round trip: the title of `"# " + text` is `text` itself, for a text
      without surrounding whitespace that does not start with `#`. */
  lemma TitleOfHeading(text: string)
    requires Trimmed(text) && (|text| == 0 || text[0] != '#')
    ensures TitleText("# " + text) == text
  {
    var block := "# " + text;
    assert block[1..] == " " + text && (" " + text)[1..] == text;
    assert LStripChars(block, TitleMarkerChars) == LStripChars(" " + text, TitleMarkerChars);
    StripFacts(text);
  }

  /** Because the marker is stripped as a set of characters, a title text
      that itself starts with `#` after a tab loses nothing but the tab: the
      result may start with `#`. */
  lemma TitleCanStartWithHash()
    ensures TitleText("# \t#x") == "#x"
  {
    var block := "# \t#x";
    assert block[1..] == " \t#x" && block[1..][1..] == "\t#x";
    assert LStripChars(block, TitleMarkerChars) == "\t#x";
    assert "\t#x"[1..] == "#x";
    assert LStripSpace("\t#x") == "#x";
    StripFacts("#x");
  }

  /** Empty blocks never qualify, so dropping them changes nothing. */
  lemma {:induction false} FirstTitleRemoveEmpty(blocks: seq<string>)
    ensures FirstTitle(RemoveEmpty(blocks)) == FirstTitle(blocks)
    decreases |blocks|
  {
    if |blocks| > 0 {
      var b, rest := blocks[0], blocks[1..];
      FirstTitleRemoveEmpty(rest);
      assert blocks == [b] + rest;
      FirstTitleCons(b, rest);
      if b == "" {
        assert RemoveEmpty(blocks) == RemoveEmpty(rest);
        assert !IsTitleBlock(b);
      } else {
        assert RemoveEmpty(blocks) == [b] + RemoveEmpty(rest);
        FirstTitleCons(b, RemoveEmpty(rest));
      }
    }
  }

  /** The empty blocks of the splitter as written never matter to the
      title: the corrected splitter leads to the same one. */
  lemma ExtractTitleIgnoresEmptyBlocks(markdown: string)
    ensures ExtractTitle(markdown) == FirstTitle(MarkdownToBlocks(markdown))
  {
    var pieces := Split(markdown, BlockSeparator);
    KeepBlocksDropsOnlyEmpty(pieces);
    FirstTitleRemoveEmpty(KeepBlocksAsWritten(pieces));
  }

  /** A one-paragraph document `"# " + text` has title `text`. */
  lemma SingleHeadingTitle(text: string)
    requires PlainParagraph(text) && text[0] != '#'
    ensures ExtractTitle("# " + text) == Success(text)
  {
    var md := "# " + text;
    assert md[1..] == " " + text && (" " + text)[1..] == text;
    assert md[..2][0] == '#' && (" " + text)[..2][0] == ' ';
    assert !Contains(" " + text, BlockSeparator);
    assert !Contains(md, BlockSeparator);
    SplitAbsent(md, BlockSeparator);
    assert Trimmed(md);
    StripFacts(md);
    KeepBlocksCons(md, []);
    assert [md] + [] == [md];
    TitleOfHeading(text);
    FirstTitleIsFirst([md], 0);
    ExtractTitleIgnoresEmptyBlocks(md);
  }

  /** `"# Hello"` has title `"Hello"`. */
  lemma HelloTitle()
    ensures ExtractTitle("# Hello") == Success("Hello")
  {
    NoNewlineNoBlankLine("Hello");
    SingleHeadingTitle("Hello");
    assert "# " + "Hello" == "# Hello";
  }
}
