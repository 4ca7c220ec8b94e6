/** The TypeScript revision of the extension (src/extension.ts): `git blame
    --porcelain` output parsed into a number-keyed object inside
    `showBlameResults`, which then renders the report from it. The command
    handler skips the report when git printed nothing. */
module BlameTs {
  import opened Wrappers
  import opened JsStrings
  import opened BlameSpec

  /** `showBlameResults`: fill `blameInfo` with the authors under keys
      0, 1, 2, ... in output order, then build the report content from it.
      The content is the report over the parsed authors, exactly what the
      JavaScript revision renders from its array. */
  method ShowBlameResults(blameOutput: String, document: Document) returns (content: String)
    ensures content == ReportByKey(IndexMap(ParsedAuthors(blameOutput)), document)
    ensures content == Report(ParsedAuthors(blameOutput), document)
  {
    var blameLines := AuthorLines(Split(blameOutput));
    var blameInfo: map<nat, String> := map[];
    var lineNumber := 0;
    ghost var parsed: seq<String> := [];
    for i := 0 to |blameLines|
      invariant parsed == StripAll(blameLines[..i])
      invariant lineNumber == |parsed|
      invariant blameInfo == IndexMap(parsed)
    {
      StripAllSnoc(blameLines, i);
      if StartsWith(blameLines[i], AuthorPrefix) {
        var author := ReplaceFirst(blameLines[i], AuthorPrefix, "");
        IndexMapSnoc(parsed, author);
        blameInfo := blameInfo[lineNumber := author];
        parsed := parsed + [author];
        lineNumber := lineNumber + 1;
      }
    }
    assert blameLines[..|blameLines|] == blameLines;
    assert blameInfo == IndexMap(ParsedAuthors(blameOutput));

    ghost var rows := ReportRowsByKey(blameInfo, document);
    content := "";
    for i := 0 to |document|
      invariant content == Terminated(rows[..i])
    {
      var lineContent := document[i];
      var author := if i in blameInfo && blameInfo[i] != "" then blameInfo[i] else UnknownAuthor;
      assert author == FieldAtKey(blameInfo, i);
      AppendRow(content, rows, i, author, lineContent);
      content := content + PadEnd(author, AuthorWidth) + Separator + lineContent + "\n";
    }
    assert rows[..|document|] == rows;
    ReportByKeyAgrees(ParsedAuthors(blameOutput), document);
  }

  /** The `showGitBlame` command. The active editor's document and the
      settled outcome of `gitBlame` (stdout, or the message of the `exec`
      error) are parameters. Empty stdout is falsy, so then nothing is
      shown at all. */
  method ShowGitBlame(editor: Option<Document>, blame: Result<String, String>) returns (shown: CommandResult)
    ensures editor.None? ==> shown == ErrorShown(NoEditorMessage)
    ensures editor.Some? && blame.Failure? ==> shown == ErrorShown(FailurePrefix + blame.error)
    ensures editor.Some? && blame.Success? && blame.value != "" ==>
              shown == ReportOpened(Report(ParsedAuthors(blame.value), editor.value))
    ensures shown == NothingShown <==> editor.Some? && blame == Success("")
  {
    if editor.None? {
      return ErrorShown(NoEditorMessage);
    }
    match blame
    case Failure(message) =>
      shown := ErrorShown(FailurePrefix + message);
    case Success(blameOutput) =>
      if blameOutput != "" {
        var content := ShowBlameResults(blameOutput, editor.value);
        shown := ReportOpened(content);
      } else {
        shown := NothingShown;
      }
  }
}
