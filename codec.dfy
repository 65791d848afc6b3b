/**
 * The file format of FileServiceImpl: text to table (parseFileToTable,
 * parseLineToRow) and table to text (tableToString). The cell pattern
 * `\([^,]*,[^)]*\)` is written out as a scan: a match begins at a '(' and
 * runs to the first ',' after it and then to the first ')' after that comma;
 * the next search resumes after the match.
 */
module FileCodec {
  import opened Text
  import opened Cells
  import opened TableModel

  // ---------------------------------------------------------------------------
  // Matching the cell pattern within one line

  /** The length of the match of the cell pattern that begins at s[0], if one does. */
  function MatchLength(s: string): (r: Option<nat>)
    ensures r.Some? ==> 3 <= r.value <= |s|
  {
    if |s| == 0 || s[0] != '(' then None
    else match FirstIndex(s, ',', 1)
      case None => None
      case Some(k) =>
        match FirstIndex(s, ')', k + 1)
        case None => None
        case Some(e) => Some(e + 1)
  }

  /** What the scan matches is one well-formed cell. */
  lemma {:induction false} MatchLengthWellFormed(s: string)
    requires MatchLength(s).Some?
    ensures WellFormedCell(s[..MatchLength(s).value])
  {
    var k := FirstIndex(s, ',', 1).value;
    var e := FirstIndex(s, ')', k + 1).value;
    var c := s[..e + 1];
    assert c[1..k] == s[1..k] && c[k + 1..|c| - 1] == s[k + 1..e];
  }

  /** A well-formed cell is matched in full, whatever follows it. */
  lemma {:induction false} MatchLengthOfCell(c: string, rest: string)
    requires WellFormedCell(c)
    ensures MatchLength(c + rest) == Some(|c|)
  {
    var s := c + rest;
    var k :| 0 < k < |c| - 1 && c[k] == ',' && ',' !in c[1..k] && ')' !in c[k + 1..|c| - 1];
    forall j | 1 <= j < k ensures s[j] != ',' {
      assert s[j] == c[1..k][j - 1];
    }
    FirstIndexIs(s, ',', 1, k);
    forall j | k + 1 <= j < |c| - 1 ensures s[j] != ')' {
      assert s[j] == c[k + 1..|c| - 1][j - k - 1];
    }
    FirstIndexIs(s, ')', k + 1, |c| - 1);
  }

  /** Matcher.find: where the leftmost match in `s` begins, and its length. */
  function NextMatch(s: string): (r: Option<(nat, nat)>)
    ensures r.Some? ==> r.value.0 + r.value.1 <= |s| && r.value.1 >= 3
  {
    if s == [] then None
    else match MatchLength(s)
      case Some(n) => Some((0, n))
      case None =>
        match NextMatch(s[1..])
        case None => None
        case Some(m) => Some((m.0 + 1, m.1))
  }

  /** The match found is a match, and no match begins before it. */
  lemma {:induction false} NextMatchLeftmost(s: string)
    ensures NextMatch(s).Some? ==>
      var m := NextMatch(s).value;
      MatchLength(s[m.0..]) == Some(m.1) && forall i :: 0 <= i < m.0 ==> MatchLength(s[i..]).None?
    ensures NextMatch(s).None? ==> forall i :: 0 <= i < |s| ==> MatchLength(s[i..]).None?
    decreases |s|
  {
    if s != [] && MatchLength(s).None? {
      var tail := s[1..];
      NextMatchLeftmost(tail);
      assert forall i :: 1 <= i <= |s| ==> s[i..] == tail[i - 1..];
      assert s[0..] == s;
    }
  }

  /** The cells of one line: every match, left to right, none overlapping the one before. */
  function Scan(s: string): (cells: seq<string>)
    decreases |s|
  {
    match NextMatch(s)
    case None => []
    case Some(m) => [s[m.0..m.0 + m.1]] + Scan(s[m.0 + m.1..])
  }

  /** The text around the matches: before the first, between neighbours, after the last. */
  function Gaps(s: string): (gaps: seq<string>)
    decreases |s|
  {
    match NextMatch(s)
    case None => [s]
    case Some(m) => [s[..m.0]] + Gaps(s[m.0 + m.1..])
  }

  /** gaps[0] + cells[0] + gaps[1] + cells[1] + ... + gaps[n]. */
  function Weave(gaps: seq<string>, cells: seq<string>): string
    requires |gaps| == |cells| + 1
  {
    if cells == [] then gaps[0] else gaps[0] + cells[0] + Weave(gaps[1..], cells[1..])
  }

  /** parseLineToRow's result as a value. */
  function ParseLine(line: string): seq<string>
  {
    Scan(line)
  }

  /**
   * The line is its matches laid end to end with the unmatched text between
   * them: every cell is a contiguous piece of the line, in order, with no overlap.
   */
  lemma {:induction false} ParseLineDecomposes(line: string)
    ensures |Gaps(line)| == |ParseLine(line)| + 1
    ensures Weave(Gaps(line), ParseLine(line)) == line
    decreases |line|
  {
    match NextMatch(line)
    case None =>
    case Some(m) =>
      var rest := line[m.0 + m.1..];
      ParseLineDecomposes(rest);
      assert line == line[..m.0] + line[m.0..m.0 + m.1] + rest;
  }

  /** Every cell parsed from a line is one well-formed `(key,value)`. */
  lemma {:induction false} ParseLineWellFormed(line: string)
    ensures forall c :: c in ParseLine(line) ==> WellFormedCell(c)
    decreases |line|
  {
    match NextMatch(line)
    case None =>
    case Some(m) =>
      var s := line[m.0..];
      ScanStep(line, m);
      NextMatchLeftmost(line);
      MatchLengthWellFormed(s);
      assert line[m.0..m.0 + m.1] == s[..m.1];
      ParseLineWellFormed(line[m.0 + m.1..]);
  }

  /** A character that cannot begin a match is skipped. */
  lemma {:induction false} ScanSkips(x: char, rest: string)
    requires x != '('
    ensures Scan([x] + rest) == Scan(rest)
  {
    var s := [x] + rest;
    assert s[1..] == rest;
    match NextMatch(rest)
    case None =>
    case Some(m) =>
      assert s[m.0 + 1..m.0 + 1 + m.1] == rest[m.0..m.0 + m.1];
      assert s[m.0 + 1 + m.1..] == rest[m.0 + m.1..];
  }

  /** After a match found from `pos`, the scan goes on right after that match. */
  lemma {:induction false} ScanResume(line: string, pos: nat, m: (nat, nat))
    requires pos <= |line| && NextMatch(line[pos..]) == Some(m)
    ensures pos + m.0 + m.1 <= |line|
    ensures Scan(line[pos..]) == [line[pos + m.0..pos + m.0 + m.1]] + Scan(line[pos + m.0 + m.1..])
  {
    var s := line[pos..];
    ScanStep(s, m);
    assert s[m.0..m.0 + m.1] == line[pos + m.0..pos + m.0 + m.1];
    assert s[m.0 + m.1..] == line[pos + m.0 + m.1..];
  }

  /** One step of the scan: the match found, then the scan of what follows it. */
  lemma {:induction false} ScanStep(s: string, m: (nat, nat))
    requires NextMatch(s) == Some(m)
    ensures m.0 + m.1 <= |s|
    ensures Scan(s) == [s[m.0..m.0 + m.1]] + Scan(s[m.0 + m.1..])
  {
  }


  /** A well-formed cell at the front is the first match, and the scan resumes right after it. */
  lemma {:induction false} ScanCell(c: string, rest: string)
    requires WellFormedCell(c)
    ensures Scan(c + rest) == [c] + Scan(rest)
  {
    MatchLengthOfCell(c, rest);
    var s := c + rest;
    assert s[..|c|] == c && s[|c|..] == rest;
  }

  // ---------------------------------------------------------------------------
  // Lines of a file and the table they give

  /** The pieces between "\n" separators, a "\r" just before a separator removed with it. */
  function RawSplit(s: string): (lines: seq<string>)
    ensures |lines| >= 1
    decreases |s|
  {
    match FirstIndex(s, '\n', 0)
    case None => [s]
    case Some(i) => [if i > 0 && s[i - 1] == '\r' then s[..i - 1] else s[..i]] + RawSplit(s[i + 1..])
  }

  /** Trailing empty pieces removed: a prefix of the pieces, ending in a non-empty one unless none is left. */
  function DropTrailingEmpty(lines: seq<string>): (kept: seq<string>)
    ensures |kept| <= |lines| && kept == lines[..|kept|]
    ensures kept != [] ==> kept[|kept| - 1] != ""
    ensures forall k :: |kept| <= k < |lines| ==> lines[k] == ""
  {
    if |lines| > 0 && lines[|lines| - 1] == "" then DropTrailingEmpty(lines[..|lines| - 1]) else lines
  }

  /** content.split("\\r?\\n"): no separator gives the text itself; otherwise trailing empty pieces are dropped. */
  function SplitLines(s: string): (lines: seq<string>)
    ensures '\n' !in s ==> lines == [s]
    ensures '\n' in s ==> lines == [] || lines[|lines| - 1] != ""
  {
    if '\n' !in s then [s] else DropTrailingEmpty(RawSplit(s))
  }
  /** No piece between separators holds a line break. */
  lemma {:induction false} RawSplitNoBreak(s: string)
    ensures forall k :: 0 <= k < |RawSplit(s)| ==> '\n' !in RawSplit(s)[k]
    decreases |s|
  {
    match FirstIndex(s, '\n', 0)
    case None =>
    case Some(i) =>
      assert '\n' !in s[..i] by {
        forall j | 0 <= j < i ensures s[..i][j] != '\n' { }
      }
      if i > 0 {
        var front := s[..i - 1];
        assert '\n' !in front by {
          forall j | 0 <= j < |front| ensures front[j] != '\n' { }
        }
      }
      RawSplitNoBreak(s[i + 1..]);
  }

  /** No line of a split text holds a line break. */
  lemma {:induction false} SplitLinesNoBreak(s: string)
    ensures forall k :: 0 <= k < |SplitLines(s)| ==> '\n' !in SplitLines(s)[k]
  {
    if '\n' in s {
      RawSplitNoBreak(s);
    }
  }


  /** One row per line that yields a cell, in line order; lines without cells give no row. */
  function ParseLines(lines: seq<string>): seq<seq<string>>
  {
    if lines == [] then []
    else
      var row := ParseLine(lines[|lines| - 1]);
      ParseLines(lines[..|lines| - 1]) + (if row == [] then [] else [row])
  }

  /** One more line: its row is appended when the line yields a cell. */
  lemma {:induction false} ParseLinesGrow(lines: seq<string>, k: nat)
    requires k < |lines|
    ensures ParseLines(lines[..k + 1])
      == ParseLines(lines[..k]) + (if ParseLine(lines[k]) == [] then [] else [ParseLine(lines[k])])
  {
    assert lines[..k + 1][..k] == lines[..k];
  }

  /** parseFileToTable as a value: the empty text gives the empty table. */
  function Parse(content: string): seq<seq<string>>
  {
    if content == "" then [] else ParseLines(SplitLines(content))
  }

  /** Every row of a parsed table is non-empty and made of well-formed cells. */
  lemma {:induction false} ParseLinesRows(lines: seq<string>)
    ensures forall r :: r in ParseLines(lines) ==> r != [] && forall c :: c in r ==> WellFormedCell(c)
  {
    if lines != [] {
      ParseLinesRows(lines[..|lines| - 1]);
      ParseLineWellFormed(lines[|lines| - 1]);
    }
  }

  lemma {:induction false} ParseRows(content: string)
    ensures forall r :: r in Parse(content) ==> r != [] && forall c :: c in r ==> WellFormedCell(c)
  {
    if content != "" {
      ParseLinesRows(SplitLines(content));
    }
  }

  /** The early return for empty text agrees with splitting it: "" is one line without cells. */
  lemma {:induction false} ParseThroughLines(content: string)
    ensures Parse(content) == ParseLines(SplitLines(content))
  {
    if content == "" {
      assert SplitLines(content) == [""];
      assert ParseLines([""]) == ParseLines([]) + [];
    }
  }

  // ---------------------------------------------------------------------------
  // Rendering

  /** One row as one line: cells joined by a single space. */
  function RenderRow(cells: seq<string>): string
  {
    Join(cells, " ")
  }

  function RenderRows(rows: seq<seq<string>>): (lines: seq<string>)
    ensures |lines| == |rows| && forall i :: 0 <= i < |rows| ==> lines[i] == RenderRow(rows[i])
  {
    if rows == [] then [] else RenderRows(rows[..|rows| - 1]) + [RenderRow(rows[|rows| - 1])]
  }

  /** tableToString as a value: rows joined by "\n", with no newline after the last. */
  function Render(rows: seq<seq<string>>): string
  {
    Join(RenderRows(rows), "\n")
  }

  /** The rows that are not empty, in order. */
  function NonEmptyRows(rows: seq<seq<string>>): (r: seq<seq<string>>)
    ensures |r| <= |rows|
    ensures [] in rows ==> |r| < |rows|
  {
    if rows == [] then []
    else
      var last := rows[|rows| - 1];
      var init := rows[..|rows| - 1];
      assert [] in rows && last != [] ==> [] in init;
      NonEmptyRows(init) + (if last == [] then [] else [last])
  }

  // ---------------------------------------------------------------------------
  // Round trip

  /** A row of well-formed cells is parsed back to itself. */
  lemma {:induction false} ParseRenderRow(cells: seq<string>)
    requires forall c :: c in cells ==> WellFormedCell(c)
    ensures ParseLine(RenderRow(cells)) == cells
  {
    if |cells| == 1 {
      ScanCell(cells[0], "");
      assert cells[0] + "" == cells[0];
    } else if |cells| >= 2 {
      var c0, rest := cells[0], Join(cells[1..], " ");
      JoinFront(cells, " ");
      assert RenderRow(cells) == c0 + ([' '] + rest);
      ScanCell(c0, [' '] + rest);
      ScanSkips(' ', rest);
      ParseRenderRow(cells[1..]);
      assert cells == [c0] + cells[1..];
    }
  }

  /** A non-empty join ends with the last part's last character. */
  lemma {:induction false} JoinLast(parts: seq<string>, sep: string)
    requires |parts| >= 1 && parts[|parts| - 1] != []
    ensures |Join(parts, sep)| >= 1
    ensures Join(parts, sep)[|Join(parts, sep)| - 1] == parts[|parts| - 1][|parts[|parts| - 1]| - 1]
  {
  }

  /** A line separator inside a cell is the only thing that stops a rendered row from reading back as one line. */
  predicate LineSafe(line: string)
  {
    '\n' !in line && (line == [] || line[|line| - 1] != '\r')
  }

  lemma {:induction false} RawSplitJoin(lines: seq<string>)
    requires |lines| >= 1
    requires forall k :: 0 <= k < |lines| ==> LineSafe(lines[k])
    ensures RawSplit(Join(lines, "\n")) == lines
  {
    var l0 := lines[0];
    if |lines| == 1 {
      assert forall j :: 0 <= j < |l0| ==> l0[j] != '\n' by {
        forall j | 0 <= j < |l0| ensures l0[j] != '\n' {
          assert l0[j] in l0;
        }
      }
    } else {
      JoinFront(lines, "\n");
      RawSplitFirst(l0, Join(lines[1..], "\n"));
      RawSplitJoin(lines[1..]);
      assert lines == [l0] + lines[1..];
    }
  }

  /** A safe line followed by a separator is split off as the first piece. */
  lemma {:induction false} RawSplitFirst(l0: string, rest: string)
    requires LineSafe(l0)
    ensures RawSplit(l0 + "\n" + rest) == [l0] + RawSplit(rest)
  {
    var s := l0 + "\n" + rest;
    forall j | 0 <= j < |l0| ensures s[j] != '\n' {
      assert s[j] == l0[j] && l0[j] in l0;
    }
    FirstIndexIs(s, '\n', 0, |l0|);
    assert s[..|l0|] == l0 && s[|l0| + 1..] == rest;
  }

  lemma {:induction false} ParseLinesDropTrailingEmpty(lines: seq<string>)
    ensures ParseLines(DropTrailingEmpty(lines)) == ParseLines(lines)
  {
    if |lines| > 0 && lines[|lines| - 1] == "" {
      ParseLinesDropTrailingEmpty(lines[..|lines| - 1]);
      assert ParseLine("") == [];
    }
  }

  /** The rendered rows of well-formed cells parse back to the non-empty rows. */
  lemma {:induction false} ParseLinesRenderRows(rows: seq<seq<string>>)
    requires forall r, c :: 0 <= r < |rows| && 0 <= c < |rows[r]| ==> WellFormedCell(rows[r][c])
    ensures ParseLines(RenderRows(rows)) == NonEmptyRows(rows)
  {
    if rows != [] {
      var n := |rows| - 1;
      assert RenderRows(rows)[..n] == RenderRows(rows[..n]);
      ParseLinesRenderRows(rows[..n]);
      forall c | c in rows[n] ensures WellFormedCell(c) {
        var j :| 0 <= j < |rows[n]| && rows[n][j] == c;
      }
      ParseRenderRow(rows[n]);
    }
  }

  /** A rendered row of well-formed cells without line breaks is a safe line. */
  lemma {:induction false} RenderedLinesSafe(rows: seq<seq<string>>)
    requires forall r, c :: 0 <= r < |rows| && 0 <= c < |rows[r]| ==> WellFormedCell(rows[r][c]) && '\n' !in rows[r][c]
    ensures forall k :: 0 <= k < |rows| ==> LineSafe(RenderRows(rows)[k])
  {
    forall k | 0 <= k < |rows| ensures LineSafe(RenderRows(rows)[k]) {
      forall c | 0 <= c < |rows[k]| ensures '\n' !in rows[k][c] { }
      JoinFree(rows[k], " ", '\n');
      if rows[k] != [] {
        var last := rows[k][|rows[k]| - 1];
        assert WellFormedCell(last);
        JoinLast(rows[k], " ");
      }
    }
  }

  /** Splitting a join of safe lines gives the lines back, up to trailing empty ones. */
  lemma {:induction false} SplitJoin(lines: seq<string>)
    requires |lines| >= 1
    requires forall k :: 0 <= k < |lines| ==> LineSafe(lines[k])
    ensures ParseLines(SplitLines(Join(lines, "\n"))) == ParseLines(lines)
  {
    var s := Join(lines, "\n");
    RawSplitJoin(lines);
    if |lines| >= 2 {
      JoinFront(lines, "\n");
      assert s[|lines[0]|] == '\n';
    }
    if '\n' in s {
      ParseLinesDropTrailingEmpty(lines);
    }
  }

  /** Well-formed cells without line breaks survive rendering and parsing; empty rows are lost. */
  lemma {:induction false} ParseRender(rows: seq<seq<string>>)
    requires forall r, c :: 0 <= r < |rows| && 0 <= c < |rows[r]| ==> WellFormedCell(rows[r][c]) && '\n' !in rows[r][c]
    ensures Parse(Render(rows)) == NonEmptyRows(rows)
  {
    if rows != [] {
      RenderedLinesSafe(rows);
      SplitJoin(RenderRows(rows));
      ParseThroughLines(Render(rows));
      ParseLinesRenderRows(rows);
    }
  }

  /**
   * The round trip: a table of non-empty rows of well-formed cells without line
   * breaks is parsed back from its own rendering.
   */
  lemma {:induction false} RoundTrip(rows: seq<seq<string>>)
    requires forall r :: 0 <= r < |rows| ==> rows[r] != []
    requires forall r, c :: 0 <= r < |rows| && 0 <= c < |rows[r]| ==> WellFormedCell(rows[r][c]) && '\n' !in rows[r][c]
    ensures Parse(Render(rows)) == rows
  {
    ParseRender(rows);
    NonEmptyRowsKeepsAll(rows);
  }

  lemma {:induction false} NonEmptyRowsKeepsAll(rows: seq<seq<string>>)
    requires forall r :: 0 <= r < |rows| ==> rows[r] != []
    ensures NonEmptyRows(rows) == rows
  {
    if rows != [] {
      NonEmptyRowsKeepsAll(rows[..|rows| - 1]);
    }
  }

  /** An empty row renders to an empty line, which reads back as no row at all. */
  lemma {:induction false} EmptyRowIsLost(rows: seq<seq<string>>)
    requires [] in rows
    requires forall r, c :: 0 <= r < |rows| && 0 <= c < |rows[r]| ==> WellFormedCell(rows[r][c]) && '\n' !in rows[r][c]
    ensures |Parse(Render(rows))| < |rows|
  {
    ParseRender(rows);
  }

  // ---------------------------------------------------------------------------
  // The methods of FileServiceImpl

  /** parseLineToRow: collects the matches as Matcher.find reports them. `lineIndex` is unused, as in the source. */
  method ParseLineToRow(line: string, lineIndex: int) returns (rowCells: seq<string>)
    ensures rowCells == ParseLine(line)
  {
    rowCells := [];
    var pos := 0;
    var found := NextMatch(line[pos..]);
    while found.Some?
      invariant 0 <= pos <= |line|
      invariant found == NextMatch(line[pos..])
      invariant rowCells + Scan(line[pos..]) == Scan(line)
      decreases |line| - pos
    {
      var m := found.value;
      ScanResume(line, pos, m);
      var cell := line[pos + m.0..pos + m.0 + m.1];
      assert (rowCells + [cell]) + Scan(line[pos + m.0 + m.1..]) == rowCells + Scan(line[pos..]);
      rowCells := rowCells + [cell];
      pos := pos + m.0 + m.1;
      found := NextMatch(line[pos..]);
    }
    assert Scan(line[pos..]) == [];
  }

  /**
   * parseFileToTable: a new table with one new row per line that yields a cell.
   * As in the source, a line is parsed once to test for cells and again for the row.
   */
  method ParseFileToTable(content: string) returns (table: Table)
    ensures fresh(table) && table.Distinct()
    ensures forall i :: 0 <= i < |table.rows| ==> fresh(table.rows[i])
    ensures table.Contents() == Parse(content)
  {
    table := new Table();
    if content == "" {
      return;
    }
    var lines := SplitLines(content);
    var lineIndex := 0;
    while lineIndex < |lines|
      invariant 0 <= lineIndex <= |lines|
      invariant fresh(table) && table.Distinct()
      invariant forall i :: 0 <= i < |table.rows| ==> fresh(table.rows[i])
      invariant table.Contents() == ParseLines(lines[..lineIndex])
    {
      ParseLinesGrow(lines, lineIndex);
      AddLineRow(table, lines[lineIndex], lineIndex);
      lineIndex := lineIndex + 1;
    }
    assert lines[..|lines|] == lines;
  }

  /**
   * The body of parseFileToTable's loop: a line is parsed once to test for
   * cells and again for the row, which is added as a new row object.
   */
  method AddLineRow(table: Table, line: string, lineIndex: int)
    modifies table
    ensures ParseLine(line) == [] ==> table.rows == old(table.rows)
    ensures ParseLine(line) != [] ==>
      |table.rows| == |old(table.rows)| + 1 && table.rows[..|old(table.rows)|] == old(table.rows)
      && fresh(table.rows[|old(table.rows)|])
    ensures table.Contents() == old(table.Contents()) + (if ParseLine(line) == [] then [] else [ParseLine(line)])
    ensures old(table.Distinct()) ==> table.Distinct()
  {
    var probe := ParseLineToRow(line, lineIndex);
    if probe != [] {
      var cells := ParseLineToRow(line, lineIndex);
      var row := new Row(cells);
      table.Add(row);
    }
  }

  /** tableToString's inner loop: a row's cells appended with a space between neighbours. */
  method AppendRow(prefix: string, cells: seq<string>) returns (content: string)
    ensures content == prefix + RenderRow(cells)
  {
    content := prefix;
    var j := 0;
    while j < |cells|
      invariant 0 <= j <= |cells|
      invariant content == prefix + Join(cells[..j], " ")
    {
      JoinGrow(cells, " ", j);
      if j > 0 {
        content := content + " ";
      }
      content := content + cells[j];
      j := j + 1;
    }
    assert cells[..j] == cells;
  }

  /** tableToString: a StringBuilder filled row by row and cell by cell. */
  method TableToString(table: Table) returns (s: string)
    ensures s == Render(table.Contents())
  {
    ghost var rows := table.Contents();
    ghost var lines := RenderRows(rows);
    var content := "";
    var n := table.Size();
    var i := 0;
    while i < n
      invariant 0 <= i <= n == |lines| == |rows|
      invariant i == 0 ==> content == ""
      invariant 0 < i < n ==> content == Join(lines[..i], "\n") + "\n"
      invariant i == n ==> content == Join(lines, "\n")
    {
      var row := table.Get(i);
      assert row.cells == rows[i];
      ghost var sofar := content;
      content := AppendRow(content, row.cells);
      JoinGrow(lines, "\n", i);
      assert content == Join(lines[..i + 1], "\n");
      if i < n - 1 {
        content := content + "\n";
      } else {
        assert lines[..i + 1] == lines;
      }
      i := i + 1;
    }
    s := content;
  }
}
