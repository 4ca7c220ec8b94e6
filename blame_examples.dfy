/** Concrete inputs for the parser and the renderer: the header lines git
    writes, the lines that must be dropped, and the rows that fall back to
    "Unknown". Outputs are written as the list of their lines. */
module BlameExamples {
  import opened JsStrings
  import opened BlameSpec

  /** `--line-porcelain` output for two lines by different authors. */
  const TwoBlockLines: seq<String> := ["author Alice", "author-mail <a@x>", "\tone", "author Bob", "author-time 7", "\ttwo", ""]

  /** `--porcelain` output for two lines of one commit. */
  const RepeatedCommitLines: seq<String> := ["c1 1 1 2", "author Ann", "filename f", "\tx", "c1 2 2", "\ty", ""]

  /** Author lines with a CRLF ending and with `author ` inside the name. */
  const UntrimmedLines: seq<String> := ["author Ann\r", "author author Bo"]

  /** Two `--line-porcelain` blocks: the filter keeps only the `author `
      headers; `author-mail`, `author-time` and the tab-prefixed content lines
      are dropped. */
  lemma TwoBlocksFilter()
    ensures AuthorLines(TwoBlockLines) == ["author Alice", "author Bob"]
  {
    var lines := TwoBlockLines;
    assert IsAuthorLine(lines[0]) && IsAuthorLine(lines[3]);
    DiffersAt(lines[1], 6);
    DiffersAt(lines[2], 0);
    DiffersAt(lines[4], 6);
    DiffersAt(lines[5], 0);
    assert AuthorLines(lines[..1]) == ["author Alice"] by { assert lines[..1][..0] == []; }
    assert AuthorLines(lines[..2]) == ["author Alice"] by { assert lines[..2][..1] == lines[..1]; }
    assert AuthorLines(lines[..3]) == ["author Alice"] by { assert lines[..3][..2] == lines[..2]; }
    assert AuthorLines(lines[..4]) == ["author Alice", "author Bob"] by { assert lines[..4][..3] == lines[..3]; }
    assert AuthorLines(lines[..5]) == ["author Alice", "author Bob"] by { assert lines[..5][..4] == lines[..4]; }
    assert AuthorLines(lines[..6]) == ["author Alice", "author Bob"] by { assert lines[..6][..5] == lines[..5]; }
    assert lines[..6] == lines[..|lines| - 1];
  }

  /** The parser returns the two names of those blocks. */
  lemma TwoBlocks()
    ensures ParsedAuthors(Join(TwoBlockLines)) == ["Alice", "Bob"]
  {
    var lines := TwoBlockLines;
    assert NewlineFree(lines);
    ParsedAuthorsOfLines(lines);
    TwoBlocksFilter();
    StripNames(["author Alice", "author Bob"], ["Alice", "Bob"]);
  }

  /** Author lines made of the prefix and a name strip to those names. */
  lemma StripNames(kept: seq<String>, names: seq<String>)
    requires |kept| == |names|
    requires forall k :: 0 <= k < |kept| ==> kept[k] == AuthorPrefix + names[k]
    ensures StripAll(kept) == names
  {
    forall k | 0 <= k < |kept| ensures StripAuthor(kept[k]) == names[k] {
      StripAuthorLine(kept[k]);
      assert kept[k][|AuthorPrefix|..] == names[k];
    }
  }

  /** A line that differs from `author ` at position k is not an author line. */
  lemma DiffersAt(line: String, k: nat)
    requires k < |AuthorPrefix| && k < |line| && line[k] != AuthorPrefix[k]
    ensures !IsAuthorLine(line)
  {
  }

  /** Empty output parses to no authors. */
  lemma EmptyOutput()
    ensures ParsedAuthors("") == []
  {
    ParsedAuthorsEmpty("");
  }

  /** Both of those lines are author lines, so the filter keeps them. */
  lemma UntrimmedFilter()
    ensures AuthorLines(UntrimmedLines) == UntrimmedLines
  {
    var lines := UntrimmedLines;
    assert IsAuthorLine(lines[0]) && IsAuthorLine(lines[1]);
    assert AuthorLines(lines[..1]) == lines[..1] by { assert lines[..1][..0] == []; }
    assert lines[..1] == lines[..|lines| - 1];
  }

  /** With CRLF line ends the carriage return stays part of the name, and a
      name that itself holds `author ` keeps it. */
  lemma NoTrimming()
    ensures ParsedAuthors(Join(UntrimmedLines)) == ["Ann\r", "author Bo"]
  {
    var lines := UntrimmedLines;
    assert NewlineFree(lines);
    ParsedAuthorsOfLines(lines);
    UntrimmedFilter();
    StripNames(lines, ["Ann\r", "author Bo"]);
  }

  /** A document longer than the author list, or with an empty author entry,
      shows "Unknown" in those rows. */
  lemma ShortSnapshot(authors: seq<String>, doc: Document, i: nat)
    requires NewlineFree(authors) && NewlineFree(doc)
    requires i < |doc| && (i >= |authors| || authors[i] == "")
    ensures i < |Split(Report(authors, doc))|
    ensures Split(Report(authors, doc))[i] == Row(UnknownAuthor, doc[i])
    ensures Split(Report(authors, doc))[i][..|UnknownAuthor|] == UnknownAuthor
  {
    ReportLines(authors, doc);
    RowLayout(UnknownAuthor, doc[i]);
  }

  /** `--porcelain` writes a commit's headers only the first time the commit
      appears. For a two-line file whose lines come from one commit there is
      a single `author ` header line. */
  lemma PorcelainRepeatedCommitFilter()
    ensures AuthorLines(RepeatedCommitLines) == ["author Ann"]
  {
    var lines := RepeatedCommitLines;
    assert IsAuthorLine(lines[1]);
    DiffersAt(lines[0], 0);
    DiffersAt(lines[2], 0);
    DiffersAt(lines[3], 0);
    DiffersAt(lines[4], 0);
    DiffersAt(lines[5], 0);
    assert AuthorLines(lines[..1]) == [] by { assert lines[..1][..0] == []; }
    assert AuthorLines(lines[..2]) == ["author Ann"] by { assert lines[..2][..1] == lines[..1]; }
    assert AuthorLines(lines[..3]) == ["author Ann"] by { assert lines[..3][..2] == lines[..2]; }
    assert AuthorLines(lines[..4]) == ["author Ann"] by { assert lines[..4][..3] == lines[..3]; }
    assert AuthorLines(lines[..5]) == ["author Ann"] by { assert lines[..5][..4] == lines[..4]; }
    assert AuthorLines(lines[..6]) == ["author Ann"] by { assert lines[..6][..5] == lines[..5]; }
    assert lines[..6] == lines[..|lines| - 1];
  }

  /** So only one author is parsed from that output. */
  lemma PorcelainRepeatedCommit()
    ensures ParsedAuthors(Join(RepeatedCommitLines)) == ["Ann"]
  {
    var lines := RepeatedCommitLines;
    assert NewlineFree(lines);
    ParsedAuthorsOfLines(lines);
    PorcelainRepeatedCommitFilter();
    StripNames(["author Ann"], ["Ann"]);
  }

  /** The report of that two-line file: the second row reads "Unknown"
      although the line has an author. */
  lemma PorcelainRepeatedCommitReport()
    ensures |Split(Report(ParsedAuthors(Join(RepeatedCommitLines)), ["x", "y"]))| == 3
    ensures Split(Report(ParsedAuthors(Join(RepeatedCommitLines)), ["x", "y"]))[0] == Row("Ann", "x")
    ensures Split(Report(ParsedAuthors(Join(RepeatedCommitLines)), ["x", "y"]))[1] == Row(UnknownAuthor, "y")
  {
    var lines, doc := RepeatedCommitLines, ["x", "y"];
    PorcelainRepeatedCommit();
    var authors := ParsedAuthors(Join(lines));
    assert NewlineFree(authors);
    assert NewlineFree(doc);
    ReportLines(authors, doc);
  }
}
