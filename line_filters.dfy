/**
 * The line filters the data providers apply before parsing: `FilterCommentLines` for race-list
 * files and `FilterBlankLines` for export files. Both are order-preserving `Where` filters.
 */
module LineFilters {
  import opened Text

  /** `lines.Where(keep)`: the lines satisfying `keep`, unchanged and in their order. */
  function Where(lines: seq<string>, keep: string -> bool): (r: seq<string>)
    ensures |r| <= |lines|
    ensures forall x :: x in r <==> x in lines && keep(x)
  {
    if lines == [] then []
    else (if keep(lines[0]) then [lines[0]] else []) + Where(lines[1..], keep)
  }

  /** Filtering a concatenation filters each part: kept lines keep their relative order. */
  lemma {:induction false} WhereAppend(a: seq<string>, b: seq<string>, keep: string -> bool)
    ensures Where(a + b, keep) == Where(a, keep) + Where(b, keep)
  {
    if a != [] {
      assert (a + b)[1..] == a[1..] + b;
      WhereAppend(a[1..], b, keep);
    } else {
      assert a + b == b;
    }
  }

  /** Lines that all pass are returned as they are. */
  lemma {:induction false} WhereAllKept(lines: seq<string>, keep: string -> bool)
    requires forall x :: x in lines ==> keep(x)
    ensures Where(lines, keep) == lines
  {
    if lines != [] {
      assert forall x :: x in lines[1..] ==> x in lines;
      WhereAllKept(lines[1..], keep);
    }
  }

  /** Filtering twice is filtering once. */
  lemma WhereIdempotent(lines: seq<string>, keep: string -> bool)
    ensures Where(Where(lines, keep), keep) == Where(lines, keep)
  {
    WhereAllKept(Where(lines, keep), keep);
  }

  /** A race-list line that is neither blank nor a comment starting with ';' or '#' after leading white space. */
  predicate IsEventLine(line: string) {
    !IsBlank(line) && !StartsWith(TrimStart(line), ";") && !StartsWith(TrimStart(line), "#")
  }

  /** `BaseEventDataProvider.FilterCommentLines`. */
  function FilterCommentLines(lines: seq<string>): (r: seq<string>)
    ensures |r| <= |lines|
    ensures forall x :: x in r <==> x in lines && IsEventLine(x)
  {
    Where(lines, IsEventLine)
  }

  /** `i` is the index of the first character of `line` that is not white space. */
  predicate FirstNonWhiteAt(line: string, i: int) {
    0 <= i < |line| && !IsWhiteSpace(line[i]) && forall j :: 0 <= j < i ==> IsWhiteSpace(line[j])
  }

  lemma TrimStartAtFirstNonWhite(line: string, i: int)
    requires FirstNonWhiteAt(line, i)
    ensures TrimStart(line) == line[i..]
  {
  }

  /** The trimmed line starts at the first character that is not white space. */
  lemma TrimStartFirstNonWhite(line: string)
    requires TrimStart(line) != []
    ensures var k := |line| - |TrimStart(line)|; FirstNonWhiteAt(line, k) && line[k] == TrimStart(line)[0]
  {
  }

  lemma BlankIffTrimStartEmpty(line: string)
    ensures IsBlank(line) <==> TrimStart(line) == []
  {
    if TrimStart(line) != [] {
      TrimStartFirstNonWhite(line);
    }
  }

  lemma StartsWithChar(s: string, c: char)
    ensures StartsWith(s, [c]) <==> |s| > 0 && s[0] == c
  {
  }

  /** The comment test looks at the first character that is not white space, and only at it. */
  lemma IsEventLineFirstCharacter(line: string)
    ensures IsEventLine(line) <==>
      exists i :: FirstNonWhiteAt(line, i) && line[i] != ';' && line[i] != '#'
  {
    var t := TrimStart(line);
    var k := |line| - |t|;
    assert ";" == [';'] && "#" == ['#'];
    StartsWithChar(t, ';');
    StartsWithChar(t, '#');
    BlankIffTrimStartEmpty(line);
    if t != [] {
      TrimStartFirstNonWhite(line);
      forall i | FirstNonWhiteAt(line, i) ensures i == k {
        TrimStartAtFirstNonWhite(line, i);
      }
    }
  }

  /** Filtering race-list lines twice is filtering once. */
  lemma FilterCommentLinesIdempotent(lines: seq<string>)
    ensures FilterCommentLines(FilterCommentLines(lines)) == FilterCommentLines(lines)
  {
    WhereIdempotent(lines, IsEventLine);
  }

  /** `BaseGcpvExportDataProvider.FilterBlankLines`: comment-looking lines are kept. */
  function FilterBlankLines(lines: seq<string>): (r: seq<string>)
    ensures |r| <= |lines|
    ensures forall x :: x in r <==> x in lines && !IsBlank(x)
  {
    Where(lines, (x: string) => !IsBlank(x))
  }

  /** Filtering export lines twice is filtering once. */
  lemma FilterBlankLinesIdempotent(lines: seq<string>)
    ensures FilterBlankLines(FilterBlankLines(lines)) == FilterBlankLines(lines)
  {
    WhereIdempotent(lines, (x: string) => !IsBlank(x));
  }

  /** A line beginning with ';' or '#' is dropped from a race list but kept in an export. */
  lemma CommentLinesOnlyDroppedFromRaceLists(line: string)
    requires |line| >= 1 && (line[0] == ';' || line[0] == '#')
    ensures FilterCommentLines([line]) == []
    ensures FilterBlankLines([line]) == [line]
  {
    assert !IsWhiteSpace(line[0]);
    assert !IsBlank(line);
    assert TrimStart(line) == line;
    assert !IsEventLine(line);
    assert FilterCommentLines([line]) == Where([line][1..], IsEventLine);
  }
}
