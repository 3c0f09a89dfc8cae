/**
 * The Qt importer of main.cpp: every non-empty line of every page that
 * mentions Lunch or Tea and has at least five tokens becomes one 6-column
 * CSV row `Name, Lunch Start, Lunch End, Tea Start, Tea End, Date`; the
 * manual form writes a row of the same layout once all five fields hold
 * something.
 *
 * The tokenizer of line 56 is a parameter: the model holds for whatever the
 * regular expression there splits on. The rows are collected in the order
 * they are appended to the CSV file.
 */
module QtImport {
  import opened Wrappers
  import opened Text
  import opened Seqs

  type Row = seq<string>

  /** A row has six fields and leaves either the lunch pair or the tea pair empty. */
  predicate WellShaped(r: Row) {
    |r| == 6 && ((r[3] == "" && r[4] == "") || (r[1] == "" && r[2] == ""))
  }

  /** The line filter of line 55. */
  predicate MentionsBreak(line: string) {
    ContainsIgnoreCase(line, "Lunch") || ContainsIgnoreCase(line, "Tea")
  }

  /**
   * The row built from the tokens of a selected line (lines 57-69): nothing
   * with fewer than five tokens; otherwise the name first and the date
   * last, with start and end in the lunch columns when the second token
   * mentions lunch and in the tea columns when it does not.
   */
  function RowOf(parts: seq<string>): (r: Option<Row>)
    ensures r.None? <==> |parts| < 5
    ensures r.Some? ==> WellShaped(r.value) && r.value[0] == parts[0] && r.value[5] == parts[4]
    ensures r.Some? && ContainsIgnoreCase(parts[1], "lunch") ==>
      r.value[1..5] == [parts[2], parts[3], "", ""]
    ensures r.Some? && !ContainsIgnoreCase(parts[1], "lunch") ==>
      r.value[1..5] == ["", "", parts[2], parts[3]]
  {
    if |parts| < 5 then None
    else if ContainsIgnoreCase(parts[1], "lunch") then
      Some([parts[0], parts[2], parts[3], "", "", parts[4]])
    else
      Some([parts[0], "", "", parts[2], parts[3], parts[4]])
  }

  /** Tokens after the fifth play no part in the row. */
  lemma ExtraTokensIgnored(parts: seq<string>)
    requires |parts| >= 5
    ensures RowOf(parts) == RowOf(parts[..5])
  {
  }

  /**
   * A line picked only for a "Lunch" in some other token still gets the tea
   * layout, since the layout looks at the second token alone.
   */
  lemma LunchElsewhereGetsTeaLayout()
    ensures RowOf(["Bob", "Break", "12:00", "12:30", "2024-05-01", "Lunch"]) ==
      Some(["Bob", "", "", "12:00", "12:30", "2024-05-01"])
  {
    assert Lower("Break") == "break";
    assert Lower("lunch") == "lunch";
    assert 'l' !in "break";
    FirstCharAbsent("break", "lunch");
  }

  /** The row a line gives, if any (lines 55-69). */
  function LineRow(line: string, tokenize: string -> seq<string>): (r: Option<Row>)
    ensures r.Some? <==> MentionsBreak(line) && |tokenize(line)| >= 5
    ensures r.Some? ==> r == RowOf(tokenize(line))
  {
    if MentionsBreak(line) then RowOf(tokenize(line)) else None
  }

  /** What one line appends: its row, or nothing. */
  function Emitted(line: string, tokenize: string -> seq<string>): seq<Row> {
    match LineRow(line, tokenize)
    case None => []
    case Some(r) => [r]
  }

  /** The rows of the lines of one page, in line order. */
  function RowsOfLines(lines: seq<string>, tokenize: string -> seq<string>): (rs: seq<Row>)
    ensures |rs| <= |lines|
    ensures forall k :: 0 <= k < |rs| ==> WellShaped(rs[k])
  {
    if lines == [] then []
    else RowsOfLines(lines[..|lines| - 1], tokenize) + Emitted(lines[|lines| - 1], tokenize)
  }

  /** The lines of a page: its text split at line breaks, empty lines dropped (line 53). */
  function PageLines(text: string): (lines: seq<string>)
    ensures forall k :: 0 <= k < |lines| ==> lines[k] != [] && '\n' !in lines[k]
  {
    SplitSkipEmpty(text, '\n')
  }

  /**
   * A page that is not empty, has no line break at either end and no two
   * line breaks in a row: its lines joined with line breaks are its text,
   * so every line is taken, in order.
   */
  lemma PageLinesRoundTrip(text: string)
    requires Tidy(text, '\n')
    ensures Join(PageLines(text), '\n') == text
  {
    SplitSkipEmptyRoundTrip(text, '\n');
  }

  /** The rows of one page; a page that fails to load gives none (line 48). */
  function PageRows(page: Option<string>, tokenize: string -> seq<string>): (rs: seq<Row>)
    ensures page.None? ==> rs == []
    ensures page.Some? ==> |rs| <= |PageLines(page.value)|
    ensures forall k :: 0 <= k < |rs| ==> WellShaped(rs[k])
  {
    match page
    case None => []
    case Some(text) => RowsOfLines(PageLines(text), tokenize)
  }

  /** The rows of all pages, in page order. */
  function RowsOfPages(pages: seq<Option<string>>, tokenize: string -> seq<string>): (rs: seq<Row>)
    ensures forall k :: 0 <= k < |rs| ==> WellShaped(rs[k])
  {
    if pages == [] then []
    else RowsOfPages(pages[..|pages| - 1], tokenize) + PageRows(pages[|pages| - 1], tokenize)
  }

  /** Rows come out line after line: the rows of two runs of lines are the rows of the first, then those of the second. */
  lemma {:induction false} RowsOfLinesAppend(a: seq<string>, b: seq<string>, tokenize: string -> seq<string>)
    ensures RowsOfLines(a + b, tokenize) == RowsOfLines(a, tokenize) + RowsOfLines(b, tokenize)
    decreases |b|
  {
    if b == [] {
      assert a + b == a;
    } else {
      var b' := b[..|b| - 1];
      assert (a + b)[..|a + b| - 1] == a + b';
      RowsOfLinesAppend(a, b', tokenize);
    }
  }

  lemma RowsOfPagesSnoc(pages: seq<Option<string>>, last: Option<string>, tokenize: string -> seq<string>)
    ensures RowsOfPages(pages + [last], tokenize) == RowsOfPages(pages, tokenize) + PageRows(last, tokenize)
  {
    assert (pages + [last])[..|pages|] == pages;
  }

  /** Rows come out page after page. */
  lemma {:induction false} RowsOfPagesAppend(a: seq<Option<string>>, b: seq<Option<string>>, tokenize: string -> seq<string>)
    ensures RowsOfPages(a + b, tokenize) == RowsOfPages(a, tokenize) + RowsOfPages(b, tokenize)
    decreases |b|
  {
    if b == [] {
      assert a + b == a;
    } else {
      var b' := b[..|b| - 1];
      RowsOfPagesAppend(a, b', tokenize);
      SplitLast(a, b);
      AppendOnePage(a, b', b[|b| - 1], tokenize);
    }
  }

  /** The step of `RowsOfPagesAppend`: one more page at the end. */
  lemma AppendOnePage(a: seq<Option<string>>, b: seq<Option<string>>, last: Option<string>, tokenize: string -> seq<string>)
    requires RowsOfPages(a + b, tokenize) == RowsOfPages(a, tokenize) + RowsOfPages(b, tokenize)
    ensures RowsOfPages((a + b) + [last], tokenize) == RowsOfPages(a, tokenize) + RowsOfPages(b + [last], tokenize)
  {
    RowsOfPagesSnoc(a + b, last, tokenize);
    RowsOfPagesSnoc(b, last, tokenize);
    ConcatAssoc(RowsOfPages(a, tokenize), RowsOfPages(b, tokenize), PageRows(last, tokenize));
  }

  /**
   * Every row comes from a line that mentions Lunch or Tea and has at least
   * five tokens, and is the row of that line's tokens.
   */
  lemma {:induction false} RowsFromSelectedLines(lines: seq<string>, tokenize: string -> seq<string>)
    ensures forall r :: r in RowsOfLines(lines, tokenize) ==>
      exists i :: 0 <= i < |lines| && MentionsBreak(lines[i]) && |tokenize(lines[i])| >= 5 &&
                  Some(r) == RowOf(tokenize(lines[i]))
  {
    if lines != [] {
      var init, j := lines[..|lines| - 1], |lines| - 1;
      RowsFromSelectedLines(init, tokenize);
      assert RowsOfLines(lines, tokenize) == RowsOfLines(init, tokenize) + Emitted(lines[j], tokenize);
      forall r | r in RowsOfLines(lines, tokenize)
        ensures exists i :: 0 <= i < |lines| && MentionsBreak(lines[i]) && |tokenize(lines[i])| >= 5 &&
                            Some(r) == RowOf(tokenize(lines[i]))
      {
        if r in RowsOfLines(init, tokenize) {
          var i :| 0 <= i < |init| && MentionsBreak(init[i]) && |tokenize(init[i])| >= 5 &&
            Some(r) == RowOf(tokenize(init[i]));
          assert lines[i] == init[i];
        } else {
          assert r in Emitted(lines[j], tokenize);
          assert MentionsBreak(lines[j]) && |tokenize(lines[j])| >= 5 && Some(r) == RowOf(tokenize(lines[j]));
        }
      }
    }
  }

  /** A line that mentions neither Lunch nor Tea, or has too few tokens, adds no row. */
  lemma SkippedLineAddsNothing(lines: seq<string>, line: string, tokenize: string -> seq<string>)
    requires !MentionsBreak(line) || |tokenize(line)| < 5
    ensures RowsOfLines(lines + [line], tokenize) == RowsOfLines(lines, tokenize)
  {
    assert (lines + [line])[..|lines|] == lines;
  }

  /**
   * `importPDF` (lines 46-75) on the text of the pages, `None` for a page
   * Poppler could not load; `rows` are the rows appended to the CSV file,
   * in order.
   */
  method ImportPdf(pages: seq<Option<string>>, tokenize: string -> seq<string>) returns (rows: seq<Row>)
    ensures rows == RowsOfPages(pages, tokenize)
  {
    rows := [];
    for p := 0 to |pages|
      invariant rows == RowsOfPages(pages[..p], tokenize)
    {
      assert pages[..p + 1] == pages[..p] + [pages[p]];
      RowsOfPagesSnoc(pages[..p], pages[p], tokenize);
      if pages[p].Some? {
        var pageRows := ImportLines(PageLines(pages[p].value), tokenize);
        rows := rows + pageRows;
      }
    }
    assert pages[..|pages|] == pages;
  }

  /** The loop over the lines of one page (lines 54-74). */
  method ImportLines(lines: seq<string>, tokenize: string -> seq<string>) returns (rows: seq<Row>)
    ensures rows == RowsOfLines(lines, tokenize)
  {
    rows := [];
    for j := 0 to |lines|
      invariant rows == RowsOfLines(lines[..j], tokenize)
    {
      FrontOfSnoc(lines[..j], lines[j]);
      assert lines[..j + 1] == lines[..j] + [lines[j]];
      assert RowsOfLines(lines[..j + 1], tokenize) == RowsOfLines(lines[..j], tokenize) + Emitted(lines[j], tokenize);
      var r := LineRow(lines[j], tokenize);
      if r.Some? {
        rows := rows + [r.value];
      }
    }
    assert lines[..|lines|] == lines;
  }

  /**
   * The manual entry of lines 102-117: nothing is written while a field is
   * empty; otherwise the five fields and today's date, in column order.
   */
  function SubmitRow(name: string, lunchStart: string, lunchEnd: string, teaStart: string, teaEnd: string, today: string): (r: Option<Row>)
    ensures r.None? <==> name == [] || lunchStart == [] || lunchEnd == [] || teaStart == [] || teaEnd == []
    ensures r.Some? ==> |r.value| == 6 && r.value[0] == name && r.value[5] == today
    ensures r.Some? ==> forall k :: 0 <= k < 5 ==> r.value[k] != []
    ensures r.Some? ==> r.value[1..5] == [lunchStart, lunchEnd, teaStart, teaEnd]
  {
    if name == [] || lunchStart == [] || lunchEnd == [] || teaStart == [] || teaEnd == [] then None
    else Some([name, lunchStart, lunchEnd, teaStart, teaEnd, today])
  }

  /** Unlike the Python form, the Qt form does not strip: a name of one blank is accepted. */
  lemma SubmitKeepsBlanks(today: string)
    ensures SubmitRow(" ", "12:00", "12:30", "15:00", "15:15", today).Some?
  {
  }
}
