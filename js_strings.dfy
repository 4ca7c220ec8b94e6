/** The JavaScript string operations the blame parser and the report renderer
    rely on, with strings as sequences of characters (one char per UTF-16
    code unit, for text without surrogate pairs). */
module JsStrings {

  type String = seq<char>

  function Max(a: int, b: int): int { if a < b then b else a }

  /** `s.startsWith(prefix)`: the prefix occurs at index 0 (see `OccursAt`). */
  predicate StartsWith(s: String, prefix: String): (r: bool)
    ensures r <==> OccursAt(s, prefix, 0)
    ensures r ==> s == prefix + s[|prefix|..]
  {
    |prefix| <= |s| && s[..|prefix|] == prefix
  }

  /** `s.split('\n')`: the pieces between newlines. The empty string splits
      into one empty piece and a trailing newline leaves an empty last piece. */
  function Split(s: String): (lines: seq<String>)
    ensures |lines| >= 1
    ensures forall k :: 0 <= k < |lines| ==> '\n' !in lines[k]
    decreases |s|
  {
    if s == [] then [[]]
    else if s[0] == '\n' then [[]] + Split(s[1..])
    else
      var rest := Split(s[1..]);
      [[s[0]] + rest[0]] + rest[1..]
  }

  /** `lines.join('\n')`, the inverse of `Split`. */
  function Join(lines: seq<String>): String
    requires |lines| >= 1
    decreases |lines|
  {
    if |lines| == 1 then lines[0] else lines[0] + "\n" + Join(lines[1..])
  }

  predicate NewlineFree(lines: seq<String>) {
    forall k :: 0 <= k < |lines| ==> '\n' !in lines[k]
  }

  /** Joining the pieces of a split gives the original text back. */
  lemma {:induction false} JoinSplit(s: String)
    ensures Join(Split(s)) == s
    decreases |s|
  {
    if s == [] {
    } else if s[0] == '\n' {
      JoinSplit(s[1..]);
      assert Split(s)[1..] == Split(s[1..]);
    } else {
      JoinSplit(s[1..]);
      var rest := Split(s[1..]);
      if |rest| == 1 {
        assert Join(Split(s)) == [s[0]] + rest[0];
      } else {
        assert Split(s)[1..] == rest[1..];
        assert Join(rest) == rest[0] + "\n" + Join(rest[1..]);
        assert Join(Split(s)) == ([s[0]] + rest[0]) + "\n" + Join(rest[1..]);
      }
    }
  }

  /** Text without a newline splits into itself. */
  lemma {:induction false} SplitNoNewline(s: String)
    requires '\n' !in s
    ensures Split(s) == [s]
    decreases |s|
  {
    if s != [] {
      assert '\n' !in s[1..] by {
        forall k | 0 <= k < |s[1..]| ensures s[1..][k] != '\n' {
          assert s[1..][k] == s[k + 1];
        }
      }
      SplitNoNewline(s[1..]);
      assert [s[0]] + s[1..] == s;
    }
  }

  /** Splitting around a newline splits each side separately. */
  lemma {:induction false} SplitAround(x: String, y: String)
    ensures Split(x + "\n" + y) == Split(x) + Split(y)
    decreases |x|
  {
    var s := x + "\n" + y;
    if x == [] {
      assert s[1..] == y;
    } else {
      assert s[1..] == x[1..] + "\n" + y;
      SplitAround(x[1..], y);
      if x[0] == '\n' {
      } else {
        var rest := Split(x[1..]);
        assert Split(s[1..]) == rest + Split(y);
        assert Split(s) == [[x[0]] + rest[0]] + (rest + Split(y))[1..];
        assert (rest + Split(y))[1..] == rest[1..] + Split(y);
      }
    }
  }

  /** Splitting newline-free pieces joined with newlines gives them back. */
  lemma {:induction false} SplitJoin(lines: seq<String>)
    requires |lines| >= 1 && NewlineFree(lines)
    ensures Split(Join(lines)) == lines
    decreases |lines|
  {
    SplitNoNewline(lines[0]);
    if |lines| > 1 {
      SplitJoin(lines[1..]);
      SplitAround(lines[0], Join(lines[1..]));
      assert [lines[0]] + lines[1..] == lines;
    }
  }

  /** Each row followed by `"\n"`, one after the other: what a loop of
      `content += row + "\n"` builds. */
  function Terminated(rows: seq<String>): String
    decreases |rows|
  {
    if rows == [] then [] else rows[0] + "\n" + Terminated(rows[1..])
  }

  lemma {:induction false} TerminatedSnoc(rows: seq<String>, row: String)
    ensures Terminated(rows + [row]) == Terminated(rows) + row + "\n"
    decreases |rows|
  {
    if rows == [] {
      assert [row][1..] == [];
    } else {
      assert (rows + [row])[1..] == rows[1..] + [row];
      TerminatedSnoc(rows[1..], row);
    }
  }

  /** One more row of a loop that appends `row + "\n"` to the text so far. */
  lemma TerminatedExtend(rows: seq<String>, i: nat)
    requires i < |rows|
    ensures Terminated(rows[..i + 1]) == Terminated(rows[..i]) + rows[i] + "\n"
  {
    TerminatedSnoc(rows[..i], rows[i]);
    assert rows[..i + 1] == rows[..i] + [rows[i]];
  }

  /** Newline-terminated rows split into exactly those rows and one empty
      piece after the last newline. */
  lemma {:induction false} SplitTerminated(rows: seq<String>)
    requires NewlineFree(rows)
    ensures Split(Terminated(rows)) == rows + [""]
    decreases |rows|
  {
    if rows != [] {
      SplitTerminated(rows[1..]);
      SplitAround(rows[0], Terminated(rows[1..]));
      SplitNoNewline(rows[0]);
      assert [rows[0]] + (rows[1..] + [""]) == rows + [""];
    }
  }

  function Spaces(n: nat): (r: String)
    ensures |r| == n && forall i :: 0 <= i < n ==> r[i] == ' '
  {
    if n == 0 then [] else [' '] + Spaces(n - 1)
  }

  /** `s.padEnd(width)`: `s` followed by spaces up to `width`; a longer `s`
      is returned whole, never truncated. */
  function PadEnd(s: String, width: nat): (r: String)
    ensures |r| == Max(width, |s|)
    ensures r[..|s|] == s
    ensures forall i :: |s| <= i < |r| ==> r[i] == ' '
  {
    if |s| >= width then s else s + Spaces(width - |s|)
  }

  /** `pat` occurs in `s` starting at index `j`. */
  predicate OccursAt(s: String, pat: String, j: nat) {
    j + |pat| <= |s| && s[j..j + |pat|] == pat
  }

  /** `s.indexOf(pat, from)` for `from <= |s|`: the first index at or after
      `from` where `pat` occurs, or -1. */
  function IndexOf(s: String, pat: String, from: nat): (r: int)
    requires from <= |s|
    ensures r == -1 || (from <= r && OccursAt(s, pat, r))
    ensures r == -1 ==> forall j :: from <= j <= |s| ==> !OccursAt(s, pat, j)
    ensures r != -1 ==> forall j :: from <= j < r ==> !OccursAt(s, pat, j)
    decreases |s| - from
  {
    if from + |pat| > |s| then -1
    else if OccursAt(s, pat, from) then from
    else if from == |s| then -1
    else IndexOf(s, pat, from + 1)
  }

  /** `s.replace(pat, rep)` with a string pattern and a replacement without
      `$` patterns (JavaScript would expand `$&`, `$$`, `` $` `` and `$'`):
      only the first occurrence is replaced. Without any occurrence the text
      comes back unchanged; otherwise the length changes by |rep| - |pat|. */
  function ReplaceFirst(s: String, pat: String, rep: String): (r: String)
    ensures (forall j :: 0 <= j <= |s| ==> !OccursAt(s, pat, j)) ==> r == s
    ensures (exists j :: 0 <= j <= |s| && OccursAt(s, pat, j)) ==> |r| == |s| - |pat| + |rep|
  {
    var i := IndexOf(s, pat, 0);
    if i == -1 then s else s[..i] + rep + s[i + |pat|..]
  }

  /** `replace` swaps the first occurrence of `pat`, wherever it is, and
      keeps the text before and after it. */
  lemma ReplaceFirstAtOccurrence(s: String, pat: String, rep: String, i: nat)
    requires i <= |s| && OccursAt(s, pat, i)
    requires forall j :: 0 <= j < i ==> !OccursAt(s, pat, j)
    ensures ReplaceFirst(s, pat, rep) == s[..i] + rep + s[i + |pat|..]
  {
    assert IndexOf(s, pat, 0) == i;
  }

  /** When `s` starts with `pat`, `replace` swaps exactly that prefix, leaving
      any later occurrence of `pat` in place. */
  lemma ReplaceFirstAtStart(s: String, pat: String, rep: String)
    requires StartsWith(s, pat)
    ensures ReplaceFirst(s, pat, rep) == rep + s[|pat|..]
  {
    var i := IndexOf(s, pat, 0);
    assert OccursAt(s, pat, 0);
    assert i == 0;
    assert s[..0] + rep + s[|pat|..] == rep + s[|pat|..];
  }
}
