/** What both revisions of the extension compute from `git blame` output:
    the list of authors taken from the `author ` header lines, and the
    side-by-side report of author and line text. The imperative code of each
    revision is proved equal to these functions. */
module BlameSpec {
  import opened JsStrings

  /** The header git writes in porcelain output before an author name. A space
      follows `author`, so `author-mail`, `author-time` and `author-tz` headers
      do not match. */
  const AuthorPrefix: String := "author "

  /** `padEnd` width of the author column. */
  const AuthorWidth: nat := 20
  const Separator: String := " | "
  /** Shown when a line has no author entry, or an empty one. */
  const UnknownAuthor: String := "Unknown"

  /** The lines of a document, `lineAt(i).text` for `i < lineCount`. */
  type Document = seq<String>

  predicate IsAuthorLine(line: String) {
    StartsWith(line, AuthorPrefix)
  }

  /** `lines.filter(line => line.startsWith('author '))` */
  function AuthorLines(lines: seq<String>): (r: seq<String>)
    ensures |r| <= |lines|
    ensures forall k :: 0 <= k < |r| ==> IsAuthorLine(r[k])
    decreases |lines|
  {
    if lines == [] then []
    else
      var last := lines[|lines| - 1];
      AuthorLines(lines[..|lines| - 1]) + (if IsAuthorLine(last) then [last] else [])
  }

  /** The positions of the author lines, in increasing order: exactly the
      indices of lines that start with `author `. */
  function MatchIndices(lines: seq<String>): (idx: seq<nat>)
    ensures forall k :: 0 <= k < |idx| ==> idx[k] < |lines|
    ensures forall k, m :: 0 <= k < m < |idx| ==> idx[k] < idx[m]
    ensures forall j :: 0 <= j < |lines| ==> (j in idx <==> IsAuthorLine(lines[j]))
    decreases |lines|
  {
    if lines == [] then []
    else
      var n := |lines| - 1;
      var front := MatchIndices(lines[..n]);
      assert forall j :: 0 <= j < n ==> lines[..n][j] == lines[j];
      front + (if IsAuthorLine(lines[n]) then [n] else [])
  }

  /** The filtered lines are the input lines at `MatchIndices`, in that order. */
  lemma {:induction false} AuthorLinesAtMatches(lines: seq<String>)
    ensures |AuthorLines(lines)| == |MatchIndices(lines)|
    ensures forall k :: 0 <= k < |MatchIndices(lines)| ==>
              AuthorLines(lines)[k] == lines[MatchIndices(lines)[k]]
    decreases |lines|
  {
    if lines != [] {
      var n := |lines| - 1;
      var front := lines[..n];
      AuthorLinesAtMatches(front);
      var kept, idx := AuthorLines(front), MatchIndices(front);
      assert AuthorLines(lines) == kept + (if IsAuthorLine(lines[n]) then [lines[n]] else []);
      assert MatchIndices(lines) == idx + (if IsAuthorLine(lines[n]) then [n] else []);
      forall k | 0 <= k < |idx| ensures AuthorLines(lines)[k] == lines[MatchIndices(lines)[k]] {
        assert front[idx[k]] == lines[idx[k]];
      }
    }
  }

  /** `line.replace('author ', '')`: never longer than the line, and exactly
      the text after the prefix on an author line (`StripAuthorLine`). */
  function StripAuthor(line: String): (r: String)
    ensures |r| <= |line|
  {
    ReplaceFirst(line, AuthorPrefix, "")
  }

  function StripAll(lines: seq<String>): seq<String> {
    seq(|lines|, k requires 0 <= k < |lines| => StripAuthor(lines[k]))
  }

  /** One more line through the strip step of the parsing loop. */
  lemma StripAllSnoc(lines: seq<String>, i: nat)
    requires i < |lines|
    ensures StripAll(lines[..i + 1]) == StripAll(lines[..i]) + [StripAuthor(lines[i])]
  {
    var longer, shorter := StripAll(lines[..i + 1]), StripAll(lines[..i]) + [StripAuthor(lines[i])];
    forall k | 0 <= k < |longer| ensures longer[k] == shorter[k] {
      assert lines[..i + 1][k] == lines[k];
    }
  }

  /** The authors, one per `author ` line of the output, in output order. */
  function ParsedAuthors(output: String): (authors: seq<String>)
    ensures |authors| <= |Split(output)|
  {
    StripAll(AuthorLines(Split(output)))
  }

  /** The parser's result, element by element: entry k is the k-th author
      line of the output (see `MatchIndices`) without its 7-character
      `author ` prefix; nothing is trimmed. */
  lemma ParsedAuthorsAt(output: String)
    ensures |ParsedAuthors(output)| == |MatchIndices(Split(output))|
    ensures forall k :: 0 <= k < |ParsedAuthors(output)| ==>
              ParsedAuthors(output)[k] == Split(output)[MatchIndices(Split(output))[k]][|AuthorPrefix|..]
  {
    var lines := Split(output);
    var filtered := AuthorLines(lines);
    AuthorLinesAtMatches(lines);
    forall k | 0 <= k < |filtered|
      ensures StripAuthor(filtered[k]) == filtered[k][|AuthorPrefix|..]
    {
      ReplaceFirstAtStart(filtered[k], AuthorPrefix, "");
    }
  }

  /** For output given line by line: the parser strips the `author ` lines
      among them. */
  lemma ParsedAuthorsOfLines(lines: seq<String>)
    requires |lines| >= 1 && NewlineFree(lines)
    ensures ParsedAuthors(Join(lines)) == StripAll(AuthorLines(lines))
  {
    SplitJoin(lines);
  }

  /** Stripping an `author ` line leaves what follows the prefix. */
  lemma StripAuthorLine(line: String)
    requires IsAuthorLine(line)
    ensures StripAuthor(line) == line[|AuthorPrefix|..]
  {
    ReplaceFirstAtStart(line, AuthorPrefix, "");
  }

  /** The parser yields nothing exactly when no line starts with `author `. */
  lemma ParsedAuthorsEmpty(output: String)
    ensures ParsedAuthors(output) == [] <==>
              forall j :: 0 <= j < |Split(output)| ==> !IsAuthorLine(Split(output)[j])
  {
    var lines := Split(output);
    ParsedAuthorsAt(output);
    if ParsedAuthors(output) == [] {
      forall j | 0 <= j < |lines| ensures !IsAuthorLine(lines[j]) {
        assert j !in MatchIndices(lines);
      }
    } else {
      var idx := MatchIndices(lines);
      assert idx[0] in idx;
    }
  }

  /** No author name holds a newline. */
  lemma ParsedAuthorsNewlineFree(output: String)
    ensures NewlineFree(ParsedAuthors(output))
  {
    var lines := Split(output);
    ParsedAuthorsAt(output);
    forall k | 0 <= k < |ParsedAuthors(output)| ensures '\n' !in ParsedAuthors(output)[k] {
      var line := lines[MatchIndices(lines)[k]];
      assert '\n' !in line;
    }
  }

  // ---------------------------------------------------------------------
  // The report

  /** One report line without its terminating newline:
      `${author.padEnd(20)} | ${lineContent}` */
  function Row(author: String, text: String): (r: String)
    ensures |r| == Max(AuthorWidth, |author|) + |Separator| + |text|
  {
    PadEnd(author, AuthorWidth) + Separator + text
  }

  /** The layout of a row: the author, spaces up to column max(20, |author|),
      the separator there, and then the line text verbatim. */
  lemma RowLayout(author: String, text: String)
    ensures var w := Max(AuthorWidth, |author|);
            |Row(author, text)| == w + |Separator| + |text| &&
            Row(author, text)[..|author|] == author &&
            (forall i :: |author| <= i < w ==> Row(author, text)[i] == ' ') &&
            Row(author, text)[w..w + |Separator|] == Separator &&
            Row(author, text)[w + |Separator|..] == text
  {
    var p := PadEnd(author, AuthorWidth);
    assert Row(author, text)[..|author|] == p[..|author|];
  }

  /** One step of a rendering loop: appending row i, as the template
      literal writes it, to the content of rows 0..i-1. */
  lemma AppendRow(content: String, rows: seq<String>, i: nat, author: String, text: String)
    requires i < |rows| && rows[i] == Row(author, text)
    requires content == Terminated(rows[..i])
    ensures content + PadEnd(author, AuthorWidth) + Separator + text + "\n" == Terminated(rows[..i + 1])
  {
    TerminatedExtend(rows, i);
  }

  /** `blameOutput[i] || 'Unknown'` for the array of the JavaScript revision:
      an index past the end is `undefined` and the empty string is falsy. */
  function FieldAt(authors: seq<String>, i: nat): (r: String)
    ensures r != ""
    ensures i < |authors| && authors[i] != "" ==> r == authors[i]
    ensures i >= |authors| || authors[i] == "" ==> r == UnknownAuthor
  {
    if i < |authors| && authors[i] != "" then authors[i] else UnknownAuthor
  }

  /** `blameInfo[i] || 'Unknown'` for the number-keyed object of the
      TypeScript revision: a missing key is `undefined`. */
  function FieldAtKey(info: map<nat, String>, i: nat): (r: String)
    ensures r != ""
    ensures i in info && info[i] != "" ==> r == info[i]
    ensures i !in info || info[i] == "" ==> r == UnknownAuthor
  {
    if i in info && info[i] != "" then info[i] else UnknownAuthor
  }

  /** The object `blameInfo` holds once every author is stored under its
      position. */
  function IndexMap(authors: seq<String>): (m: map<nat, String>)
    ensures forall i: nat :: i in m <==> i < |authors|
    ensures forall i: nat :: i < |authors| ==> m[i] == authors[i]
  {
    map i: nat | i < |authors| :: authors[i]
  }

  /** Storing one more author under the next free key, the number of
      authors stored so far, gives the object of the longer list. */
  lemma IndexMapSnoc(authors: seq<String>, author: String)
    ensures IndexMap(authors + [author]) == IndexMap(authors)[|authors| := author]
  {
  }

  function ReportRows(authors: seq<String>, doc: Document): seq<String> {
    seq(|doc|, i requires 0 <= i < |doc| => Row(FieldAt(authors, i), doc[i]))
  }

  function ReportRowsByKey(info: map<nat, String>, doc: Document): seq<String> {
    seq(|doc|, i requires 0 <= i < |doc| => Row(FieldAtKey(info, i), doc[i]))
  }

  /** The report text: one newline-terminated row per document line, so it
      is empty exactly for an empty document (`ReportLines` gives the rows). */
  function Report(authors: seq<String>, doc: Document): (r: String)
    ensures r == "" <==> doc == []
  {
    Terminated(ReportRows(authors, doc))
  }

  /** The same report built from a number-keyed author object. */
  function ReportByKey(info: map<nat, String>, doc: Document): (r: String)
    ensures r == "" <==> doc == []
  {
    Terminated(ReportRowsByKey(info, doc))
  }

  /** Looking authors up by key in the object built from the array gives the
      same report as indexing the array: the two revisions render alike. */
  lemma ReportByKeyAgrees(authors: seq<String>, doc: Document)
    ensures ReportByKey(IndexMap(authors), doc) == Report(authors, doc)
  {
    assert ReportRowsByKey(IndexMap(authors), doc) == ReportRows(authors, doc);
  }

  /** The report has exactly one line per document line, each terminated by a
      newline: line i is the author at index i (or "Unknown" when the entry
      is missing or empty), padded to 20, the separator and line i's text. */
  lemma ReportLines(authors: seq<String>, doc: Document)
    requires NewlineFree(authors) && NewlineFree(doc)
    ensures |Split(Report(authors, doc))| == |doc| + 1
    ensures Split(Report(authors, doc))[|doc|] == ""
    ensures forall i :: 0 <= i < |doc| ==>
              Split(Report(authors, doc))[i] ==
                Row(FieldAt(authors, i), doc[i])
  {
    var rows := ReportRows(authors, doc);
    forall i | 0 <= i < |rows| ensures '\n' !in rows[i] {
      var f := FieldAt(authors, i);
      assert '\n' !in f;
      var p := PadEnd(f, AuthorWidth);
      assert '\n' !in p by {
        forall c | 0 <= c < |p| ensures p[c] != '\n' {
          if c < |f| { assert p[c] == p[..|f|][c] == f[c]; }
        }
      }
      assert rows[i] == p + Separator + doc[i];
    }
    SplitTerminated(rows);
  }

  /** Author entries at indices at or past the document's line count never
      show in the report. */
  lemma ReportIgnoresExtraEntries(authors: seq<String>, doc: Document)
    requires |authors| >= |doc|
    ensures Report(authors, doc) == Report(authors[..|doc|], doc)
  {
    assert ReportRows(authors, doc) == ReportRows(authors[..|doc|], doc);
  }

  // ---------------------------------------------------------------------
  // The command handler's visible outcome

  const NoEditorMessage: String := "No active editor. Open a file to use this command."
  const FailurePrefix: String := "Failed to run git blame: "

  /** What the `showGitBlame` command leaves on screen: an error
      notification, a new plain-text document holding the report, or
      nothing. */
  datatype CommandResult = ErrorShown(message: String) | ReportOpened(content: String) | NothingShown
}
