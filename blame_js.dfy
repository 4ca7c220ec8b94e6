/** The compiled revision of the extension (out/extension.js): `git blame
    --line-porcelain` output parsed into an array of authors, then rendered
    line by line beside the document's text. */
module BlameJs {
  import opened Wrappers
  import opened JsStrings
  import opened BlameSpec

  /** `parseBlameOutput`: keep the `author ` lines, strip the prefix and store
      each name at the next index of the result array. */
  method ParseBlameOutput(blameOutput: String) returns (parsedAuthors: seq<String>)
    ensures parsedAuthors == ParsedAuthors(blameOutput)
  {
    var blameLines := AuthorLines(Split(blameOutput));
    parsedAuthors := [];
    var lineNumber := 0;
    for i := 0 to |blameLines|
      invariant lineNumber == |parsedAuthors|
      invariant parsedAuthors == StripAll(blameLines[..i])
    {
      StripAllSnoc(blameLines, i);
      if StartsWith(blameLines[i], AuthorPrefix) {
        var author := ReplaceFirst(blameLines[i], AuthorPrefix, "");
        // `parsedAuthors[lineNumber] = author` with lineNumber == length appends
        parsedAuthors := parsedAuthors + [author];
        lineNumber := lineNumber + 1;
      }
    }
    assert blameLines[..|blameLines|] == blameLines;
  }

  /** The content `showBlameResults` opens in a new document: for each
      document line, the author at that index (or "Unknown") padded to 20,
      the separator and the line's text, followed by a newline. */
  method ShowBlameResults(blameOutput: seq<String>, document: Document) returns (content: String)
    ensures content == Report(blameOutput, document)
  {
    ghost var rows := ReportRows(blameOutput, document);
    content := "";
    for i := 0 to |document|
      invariant content == Terminated(rows[..i])
    {
      var lineContent := document[i];
      var author := if i < |blameOutput| && blameOutput[i] != "" then blameOutput[i] else UnknownAuthor;
      assert author == FieldAt(blameOutput, i);
      AppendRow(content, rows, i, author, lineContent);
      content := content + PadEnd(author, AuthorWidth) + Separator + lineContent + "\n";
    }
    assert rows[..|document|] == rows;
  }

  /** Why `getBlameForFile` rejects: data on git's error stream, or a close
      code other than 0 (`None` is the `null` code of a process ended by a
      signal). */
  datatype BlameError = StderrData(text: String) | ExitCode(code: Option<int>)

  /** The number a string of decimal digits spells, most significant first. */
  function DecimalValue(s: String): nat
    decreases |s|
  {
    if s == [] then 0
    else
      var c := s[|s| - 1];
      var d := if '0' <= c <= '9' then c as int - '0' as int else 0;
      10 * DecimalValue(s[..|s| - 1]) + d
  }

  /** `t` is the decimal text JavaScript writes for `n`: one or more digits
      spelling `n`, with no leading zero unless `t` is "0" itself. */
  predicate IsDecimal(t: String, n: nat) {
    |t| >= 1 &&
    (forall k :: 0 <= k < |t| ==> '0' <= t[k] <= '9') &&
    DecimalValue(t) == n &&
    (|t| > 1 ==> t[0] != '0')
  }

  /** Digits with a non-zero leading digit spell a positive number. */
  lemma {:induction false} LeadingDigitPositive(t: String)
    requires |t| >= 1 && (forall k :: 0 <= k < |t| ==> '0' <= t[k] <= '9') && t[0] != '0'
    ensures DecimalValue(t) > 0
    decreases |t|
  {
    if |t| > 1 {
      var front := t[..|t| - 1];
      assert front[0] == t[0];
      LeadingDigitPositive(front);
    }
  }

  /** Each number has exactly one decimal text. */
  lemma {:induction false} DecimalUnique(t: String, u: String, n: nat)
    requires IsDecimal(t, n) && IsDecimal(u, n)
    ensures t == u
    decreases |t| + |u|
  {
    var ft, fu := t[..|t| - 1], u[..|u| - 1];
    var ct, cu := t[|t| - 1], u[|u| - 1];
    assert n == 10 * DecimalValue(ft) + (ct as int - '0' as int);
    assert n == 10 * DecimalValue(fu) + (cu as int - '0' as int);
    assert ct == cu && DecimalValue(ft) == DecimalValue(fu);
    if |t| > 1 && |u| > 1 {
      assert ft[0] == t[0] && fu[0] == u[0];
      DecimalUnique(ft, fu, n / 10);
      assert t == ft + [ct] && u == fu + [cu];
    } else if |t| > 1 {
      assert ft[0] == t[0];
      LeadingDigitPositive(ft);
    } else if |u| > 1 {
      assert fu[0] == u[0];
      LeadingDigitPositive(fu);
    }
  }

  /** The decimal digits of `n`, as `${n}` writes a non-negative number. By
      `DecimalUnique` they are the only such text. */
  function Digits(n: nat): (r: String)
    ensures IsDecimal(r, n)
    decreases n
  {
    var d := [('0' as int + n % 10) as char];
    if n < 10 then d
    else
      var front := Digits(n / 10);
      assert (front + d)[..|front + d| - 1] == front;
      front + d
  }

  /** `${code}` in a template literal: `null`, or the decimal text of the
      code with a minus sign in front of a negative one. */
  function CodeText(code: Option<int>): (r: String)
    ensures code.None? ==> r == "null"
    ensures code.Some? && code.value >= 0 ==> IsDecimal(r, code.value)
    ensures code.Some? && code.value < 0 ==> |r| >= 2 && r[0] == '-' && IsDecimal(r[1..], -code.value)
  {
    match code
    case None => "null"
    case Some(n) => if n < 0 then "-" + Digits(-n) else Digits(n)
  }

  const ExitMessagePrefix: String := "git blame process exited with code "

  /** The `message` of the `Error` the promise rejects with: the error stream's
      text, or the exit-code sentence, which is never empty. */
  function ErrorMessage(e: BlameError): (r: String)
    ensures e.StderrData? ==> r == e.text
    ensures e.ExitCode? ==> |r| > |ExitMessagePrefix| && r[..|ExitMessagePrefix|] == ExitMessagePrefix &&
                            r[|ExitMessagePrefix|..] == CodeText(e.code)
  {
    match e
    case StderrData(text) => text
    case ExitCode(code) => ExitMessagePrefix + CodeText(code)
  }

  /** The `close` handler of `getBlameForFile`: only close code 0 parses the
      collected output; any other code rejects with that code. */
  method OnClose(code: Option<int>, output: String) returns (r: Result<seq<String>, BlameError>)
    ensures r.Success? <==> code == Some(0)
    ensures r.Success? ==> r.value == ParsedAuthors(output)
    ensures r.Failure? ==> r.error == ExitCode(code)
  {
    if code == Some(0) {
      var blameLines := ParseBlameOutput(output);
      r := Success(blameLines);
    } else {
      r := Failure(ExitCode(code));
    }
  }

  /** The `showGitBlame` command. The active editor's document and the
      settled outcome of `getBlameForFile` are parameters. The parsed array
      is always truthy, so every successful run opens a report, even for an
      empty array. */
  method ShowGitBlame(editor: Option<Document>, blame: Result<seq<String>, BlameError>) returns (shown: CommandResult)
    ensures editor.None? ==> shown == ErrorShown(NoEditorMessage)
    ensures editor.Some? && blame.Failure? ==>
              shown == ErrorShown(FailurePrefix +
                         (if ErrorMessage(blame.error) != "" then ErrorMessage(blame.error) else "Unknown error occurred"))
    ensures editor.Some? && blame.Success? ==> shown == ReportOpened(Report(blame.value, editor.value))
    ensures shown != NothingShown
  {
    if editor.None? {
      return ErrorShown(NoEditorMessage);
    }
    match blame
    case Failure(err) =>
      var errorMessage := if ErrorMessage(err) != "" then ErrorMessage(err) else "Unknown error occurred";
      shown := ErrorShown(FailurePrefix + errorMessage);
    case Success(blameOutput) =>
      var content := ShowBlameResults(blameOutput, editor.value);
      shown := ReportOpened(content);
  }
}
