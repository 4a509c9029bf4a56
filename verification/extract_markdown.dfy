/** The second copy of title extraction (`extract_title` in
    `src/extract_markdown.py`), written as the loop it is. It raises a
    different exception class from the first copy; failures carry only
    their message here, so the two agree on every input. */
module ExtractMarkdown {
  import opened Wrappers
  import opened MarkdownBlocks
  import GenerateContent

  /** `extract_title`: split the document into blocks and search them. */
  method ExtractTitle(markdown: string) returns (r: Result<string>)
    ensures r == GenerateContent.ExtractTitle(markdown)
    ensures var blocks := MarkdownToBlocksAsWritten(markdown);
      r.Success? ==> exists i | 0 <= i < |blocks| ::
        && GenerateContent.IsTitleBlock(blocks[i])
        && (forall j | 0 <= j < i :: !GenerateContent.IsTitleBlock(blocks[j]))
        && r.value == GenerateContent.TitleText(blocks[i])
    ensures var blocks := MarkdownToBlocksAsWritten(markdown);
      r.Failure? ==>
        && r.error == GenerateContent.NoTitleError
        && forall i | 0 <= i < |blocks| :: !GenerateContent.IsTitleBlock(blocks[i])
  {
    var blocks := MarkdownToBlocksAsWritten(markdown);
    r := TitleSearch(blocks);
    GenerateContent.FirstTitleFacts(blocks);
  }

  /** The loop of `extract_title`: scan the blocks in order and return the
      title of the first one that is a HEADING starting with `"# "`. */
  method TitleSearch(blocks: seq<string>) returns (r: Result<string>)
    ensures r == GenerateContent.FirstTitle(blocks)
  {
    for i := 0 to |blocks|
      invariant forall j | 0 <= j < i :: !GenerateContent.IsTitleBlock(blocks[j])
    {
      GenerateContent.HeadingCheckRedundant(blocks[i]);
      if GenerateContent.QualifiesAsTitle(blocks[i]) {
        GenerateContent.FirstTitleIsFirst(blocks, i);
        return Success(GenerateContent.TitleText(blocks[i]));
      }
    }
    GenerateContent.FirstTitleFacts(blocks);
    return Failure(GenerateContent.NoTitleError);
  }
}
