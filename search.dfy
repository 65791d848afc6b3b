/**
 * searchValue and countOccurrences of TableServiceImpl as values: how often a
 * term occurs in a text (overlapping occurrences included), which cells of a
 * table have a non-zero count in their key or their value, and the report
 * text built from those cells in row-major order.
 */
module Search {
  import opened Text
  import opened Cells

  // ---------------------------------------------------------------------------
  // Counting occurrences

  /** The number of positions below `n` where `term` occurs in `text`. */
  function CountBelow(text: string, term: string, n: nat): nat
  {
    if n == 0 then 0
    else CountBelow(text, term, n - 1) + (if OccursAt(text, term, n - 1) then 1 else 0)
  }

  /** The number of positions where `term` occurs in `text`, overlapping ones included. */
  function Count(text: string, term: string): nat
  {
    CountBelow(text, term, |text| + 1)
  }

  /** The positions below `n` where `term` occurs. */
  function Positions(text: string, term: string, n: nat): set<nat>
  {
    set k: nat | k < n && OccursAt(text, term, k)
  }

  /** The count below `n` is the number of positions below `n` where the term occurs. */
  lemma {:induction false} CountBelowPositions(text: string, term: string, n: nat)
    ensures CountBelow(text, term, n) == |Positions(text, term, n)|
  {
    if n > 0 {
      CountBelowPositions(text, term, n - 1);
      if OccursAt(text, term, n - 1) {
        assert Positions(text, term, n) == Positions(text, term, n - 1) + {n - 1};
      } else {
        assert Positions(text, term, n) == Positions(text, term, n - 1);
      }
    }
  }

  lemma {:induction false} CountBelowEmptyTerm(text: string, n: nat)
    requires n <= |text| + 1
    ensures CountBelow(text, "", n) == n
  {
    if n > 0 {
      CountBelowEmptyTerm(text, n - 1);
      assert OccursAt(text, "", n - 1);
    }
  }

  /** The empty term occurs at every position, the end of the text included. */
  lemma {:induction false} CountEmptyTerm(text: string)
    ensures Count(text, "") == |text| + 1
  {
    CountBelowEmptyTerm(text, |text| + 1);
  }

  /** Overlapping occurrences count: "aa" occurs twice in "aaa". */
  lemma {:induction false} CountOverlapping()
    ensures Count("aaa", "aa") == 2
  {
    assert OccursAt("aaa", "aa", 0) && OccursAt("aaa", "aa", 1);
    assert !OccursAt("aaa", "aa", 2) && !OccursAt("aaa", "aa", 3);
    assert CountBelow("aaa", "aa", 1) == 1;
    assert CountBelow("aaa", "aa", 2) == 2;
    assert CountBelow("aaa", "aa", 3) == 2;
  }

  /** Positions without an occurrence add nothing to the count. */
  lemma {:induction false} CountBelowGap(text: string, term: string, a: nat, b: nat)
    requires a <= b
    requires forall k :: a <= k < b ==> !OccursAt(text, term, k)
    ensures CountBelow(text, term, b) == CountBelow(text, term, a)
    decreases b - a
  {
    if a < b {
      CountBelowGap(text, term, a, b - 1);
    }
  }

  /**
   * countOccurrences: indexOf from the cursor, count, move the cursor one past
   * the occurrence found. The term must not be empty: for the empty term
   * indexOf keeps answering |text| and the source loop never ends.
   */
  method CountOccurrences(text: string, searchTerm: string) returns (count: int)
    requires |searchTerm| > 0
    ensures count == Count(text, searchTerm)
  {
    count := 0;
    var index := 0;
    var found := IndexOf(text, searchTerm, index);
    while found != -1
      invariant 0 <= index <= |text|
      invariant found == IndexOf(text, searchTerm, index)
      invariant count == CountBelow(text, searchTerm, index)
      decreases |text| - index
    {
      CountBelowGap(text, searchTerm, index, found);
      count := count + 1;
      index := found + 1;
      found := IndexOf(text, searchTerm, index);
    }
    CountBelowGap(text, searchTerm, index, |text| + 1);
  }

  // ---------------------------------------------------------------------------
  // Hits and the report

  /** A cell whose key or value holds the term: its position and both counts. */
  datatype Hit = Hit(row: nat, col: nat, keyCount: nat, valueCount: nat)

  /** Every cell can be split into key and value, as searchValue needs. */
  predicate AllSplit(rows: seq<seq<string>>)
  {
    forall r, c :: 0 <= r < |rows| && 0 <= c < |rows[r]| ==> HasValue(rows[r][c])
  }

  /** What searchValue reports about one cell at [r,c]: both counts, at least one of them positive. */
  predicate IsHit(h: Hit, cell: string, term: string, r: nat, c: nat)
  {
    && HasValue(cell)
    && h.row == r && h.col == c
    && h.keyCount == Count(ExtractKey(cell), term)
    && h.valueCount == Count(ExtractValue(cell), term)
    && (h.keyCount > 0 || h.valueCount > 0)
  }

  /**
   * The hit of one cell, if it is one. A cell that cannot be split gives none
   * here; searchValue never meets one, as it demands every cell split.
   */
  function CellHits(cell: string, term: string, r: nat, c: nat): seq<Hit>
  {
    if !HasValue(cell) then []
    else
      var kc := Count(ExtractKey(cell), term);
      var vc := Count(ExtractValue(cell), term);
      if kc > 0 || vc > 0 then [Hit(r, c, kc, vc)] else []
  }

  /** The hits of row `r`, left to right. */
  function RowHits(cells: seq<string>, term: string, r: nat): seq<Hit>
  {
    if cells == [] then []
    else RowHits(cells[..|cells| - 1], term, r) + CellHits(cells[|cells| - 1], term, r, |cells| - 1)
  }

  /** The hits of the table, row by row and within a row left to right. */
  function TableHits(rows: seq<seq<string>>, term: string): seq<Hit>
  {
    if rows == [] then []
    else TableHits(rows[..|rows| - 1], term) + RowHits(rows[|rows| - 1], term, |rows| - 1)
  }

  /** `a` comes before `b` in row-major order. */
  predicate Before(a: Hit, b: Hit)
  {
    a.row < b.row || (a.row == b.row && a.col < b.col)
  }

  /** Every hit comes before every later one. */
  predicate RowMajor(hits: seq<Hit>)
  {
    forall i, j :: 0 <= i < j < |hits| ==> Before(hits[i], hits[j])
  }

  lemma {:induction false} RowMajorAppend(a: seq<Hit>, b: seq<Hit>)
    requires RowMajor(a) && RowMajor(b)
    requires forall i, j :: 0 <= i < |a| && 0 <= j < |b| ==> Before(a[i], b[j])
    ensures RowMajor(a + b)
  {
    var s := a + b;
    forall i, j | 0 <= i < j < |s| ensures Before(s[i], s[j]) {
      if j < |a| {
        assert s[i] == a[i] && s[j] == a[j];
      } else if i < |a| {
        assert s[i] == a[i] && s[j] == b[j - |a|];
      } else {
        assert s[i] == b[i - |a|] && s[j] == b[j - |a|];
      }
    }
  }

  /** A cell gives a hit exactly when its key or value holds the term, and the hit carries both counts. */
  lemma {:induction false} CellHitsMember(cell: string, term: string, r: nat, c: nat, h: Hit)
    ensures h in CellHits(cell, term, r, c) <==> IsHit(h, cell, term, r, c)
  {
  }

  /** A row's hits lie in that row, each at a column of it. */
  lemma {:induction false} RowHitsInRow(cells: seq<string>, term: string, r: nat, h: Hit)
    ensures h in RowHits(cells, term, r) ==> h.row == r && h.col < |cells|
  {
    if cells != [] {
      RowHitsInRow(cells[..|cells| - 1], term, r, h);
    }
  }

  /** A row's hits are the hits of its cells. */
  lemma {:induction false} RowHitsMember(cells: seq<string>, term: string, r: nat, h: Hit)
    ensures h in RowHits(cells, term, r) <==> h.col < |cells| && h in CellHits(cells[h.col], term, r, h.col)
  {
    if cells != [] {
      var n := |cells| - 1;
      var init := cells[..n];
      RowHitsMember(init, term, r, h);
      if h.col < n {
        assert init[h.col] == cells[h.col];
      }
      if h in CellHits(cells[n], term, r, n) {
        assert h.col == n;
      }
    }
  }

  /** A table's hits are the hits of its rows. */
  lemma {:induction false} TableHitsMember(rows: seq<seq<string>>, term: string, h: Hit)
    ensures h in TableHits(rows, term) <==> h.row < |rows| && h in RowHits(rows[h.row], term, h.row)
  {
    if rows != [] {
      var n := |rows| - 1;
      var init := rows[..n];
      TableHitsMember(init, term, h);
      RowHitsInRow(rows[n], term, n, h);
      if h.row < n {
        assert init[h.row] == rows[h.row];
      }
    }
  }

  /** A hit is reported exactly for each cell with a non-zero count, with that cell's counts. */
  lemma {:induction false} TableHitsComplete(rows: seq<seq<string>>, term: string, h: Hit)
    ensures h in TableHits(rows, term) <==>
      h.row < |rows| && h.col < |rows[h.row]| && IsHit(h, rows[h.row][h.col], term, h.row, h.col)
  {
    TableHitsMember(rows, term, h);
    if h.row < |rows| {
      RowHitsMember(rows[h.row], term, h.row, h);
      if h.col < |rows[h.row]| {
        CellHitsMember(rows[h.row][h.col], term, h.row, h.col, h);
      }
    }
  }

  /** A row's hits go strictly left to right. */
  lemma {:induction false} RowHitsOrdered(cells: seq<string>, term: string, r: nat)
    ensures RowMajor(RowHits(cells, term, r))
  {
    if cells != [] {
      var n := |cells| - 1;
      var init := RowHits(cells[..n], term, r);
      var extra := CellHits(cells[n], term, r, n);
      RowHitsOrdered(cells[..n], term, r);
      forall i, j | 0 <= i < |init| && 0 <= j < |extra| ensures Before(init[i], extra[j]) {
        RowHitsInRow(cells[..n], term, r, init[i]);
      }
      RowMajorAppend(init, extra);
    }
  }

  /**
   * The table's hits lie at cells of the table and go row by row and, within a
   * row, left to right: row-major order, no cell twice.
   */
  lemma {:induction false} TableHitsOrdered(rows: seq<seq<string>>, term: string)
    ensures forall h :: h in TableHits(rows, term) ==> h.row < |rows| && h.col < |rows[h.row]|
    ensures RowMajor(TableHits(rows, term))
  {
    forall h | h in TableHits(rows, term) ensures h.row < |rows| && h.col < |rows[h.row]| {
      TableHitsMember(rows, term, h);
      RowHitsInRow(rows[h.row], term, h.row, h);
    }
    if rows != [] {
      var n := |rows| - 1;
      var init := TableHits(rows[..n], term);
      var last := RowHits(rows[n], term, n);
      TableHitsOrdered(rows[..n], term);
      RowHitsOrdered(rows[n], term, n);
      forall i, j | 0 <= i < |init| && 0 <= j < |last| ensures Before(init[i], last[j]) {
        RowHitsInRow(rows[n], term, n, last[j]);
      }
      RowMajorAppend(init, last);
    }
  }

  /** One report line, in the form that matches which counts are positive. */
  function HitLine(h: Hit, term: string): (line: string)
    ensures |line| > 0 && IsDigit(line[0]) && line[|line| - 1] == '\n'
  {
    var at := " of [" + NatToString(h.row) + "," + NatToString(h.col) + "]\n";
    if h.keyCount > 0 && h.valueCount > 0 then
      NatToString(h.keyCount) + " <" + term + "> at key and "
        + NatToString(h.valueCount) + " <" + term + "> at value" + at
    else if h.keyCount > 0 then
      NatToString(h.keyCount) + " <" + term + "> at key" + at
    else
      NatToString(h.valueCount) + " <" + term + "> at value" + at
  }

  /** The lines of the hits, in order. */
  function Lines(hits: seq<Hit>, term: string): string
  {
    if hits == [] then "" else Lines(hits[..|hits| - 1], term) + HitLine(hits[|hits| - 1], term)
  }

  lemma {:induction false} LinesStart(hits: seq<Hit>, term: string)
    requires hits != []
    ensures |Lines(hits, term)| > 0 && IsDigit(Lines(hits, term)[0])
  {
    if |hits| > 1 {
      LinesStart(hits[..|hits| - 1], term);
    }
  }

  /** The report line of one cell: its hit's line, or nothing. */
  function CellLine(cell: string, term: string, r: nat, c: nat): string
  {
    var hits := CellHits(cell, term, r, c);
    if hits == [] then "" else HitLine(hits[0], term)
  }

  /** The line of a cell whose counts are known. */
  lemma {:induction false} CellLineIs(cell: string, term: string, r: nat, c: nat, kc: nat, vc: nat)
    requires HasValue(cell)
    requires kc == Count(ExtractKey(cell), term) && vc == Count(ExtractValue(cell), term)
    ensures CellHits(cell, term, r, c) != [] <==> kc > 0 || vc > 0
    ensures CellLine(cell, term, r, c) == if kc > 0 || vc > 0 then HitLine(Hit(r, c, kc, vc), term) else ""
  {
  }

  /** Scanning one more cell of a row: the report grows by that cell's line, if it is a hit. */
  lemma {:induction false} ReportStep(before: seq<Hit>, cells: seq<string>, term: string, r: nat, c: nat)
    requires c < |cells|
    ensures Lines(before + RowHits(cells[..c + 1], term, r), term)
      == Lines(before + RowHits(cells[..c], term, r), term) + CellLine(cells[c], term, r, c)
    ensures before + RowHits(cells[..c + 1], term, r) != [] <==>
      before + RowHits(cells[..c], term, r) != [] || CellHits(cells[c], term, r, c) != []
  {
    assert cells[..c + 1][..c] == cells[..c];
    var sofar := before + RowHits(cells[..c], term, r);
    var extra := CellHits(cells[c], term, r, c);
    assert before + RowHits(cells[..c + 1], term, r) == sofar + extra;
    LinesAppendCell(sofar, cells[c], term, r, c);
  }

  /** Table hits grow by the hits of the next row. */
  lemma {:induction false} TableHitsStep(rows: seq<seq<string>>, term: string, i: nat)
    requires i < |rows|
    ensures TableHits(rows[..i + 1], term) == TableHits(rows[..i], term) + RowHits(rows[i], term, i)
  {
    assert rows[..i + 1][..i] == rows[..i];
  }

  /** The report grows by one line for a cell that is a hit and by nothing for one that is not. */
  lemma {:induction false} LinesAppendCell(hits: seq<Hit>, cell: string, term: string, r: nat, c: nat)
    ensures Lines(hits + CellHits(cell, term, r, c), term) == Lines(hits, term) + CellLine(cell, term, r, c)
  {
    var extra := CellHits(cell, term, r, c);
    if extra != [] {
      assert (hits + extra)[..|hits|] == hits;
    } else {
      assert hits + extra == hits;
    }
  }

  const NotFound := "No occurrences found in the table\n"

  /** searchValue's result as a value. */
  function SearchReport(rows: seq<seq<string>>, term: string): string
  {
    var hits := TableHits(rows, term);
    if hits == [] then NotFound else Lines(hits, term)
  }

  /** The report once every cell is scanned: the lines so far, or the not-found message when there are none. */
  lemma {:induction false} ReportDone(rows: seq<seq<string>>, term: string, lines: string, found: bool)
    requires lines == Lines(TableHits(rows, term), term)
    requires found <==> TableHits(rows, term) != []
    ensures (if found then lines else lines + NotFound) == SearchReport(rows, term)
  {
  }

  /** The report is the not-found message exactly when no key and no value holds the term. */
  lemma {:induction false} NotFoundIff(rows: seq<seq<string>>, term: string)
    requires AllSplit(rows)
    ensures SearchReport(rows, term) == NotFound <==>
      forall r, c :: 0 <= r < |rows| && 0 <= c < |rows[r]| ==>
        Count(ExtractKey(rows[r][c]), term) == 0 && Count(ExtractValue(rows[r][c]), term) == 0
  {
    var hits := TableHits(rows, term);
    if hits != [] {
      LinesStart(hits, term);
      TableHitsComplete(rows, term, hits[0]);
      assert !IsDigit(NotFound[0]);
    } else {
      forall r, c | 0 <= r < |rows| && 0 <= c < |rows[r]|
        ensures Count(ExtractKey(rows[r][c]), term) == 0 && Count(ExtractValue(rows[r][c]), term) == 0
      {
        var cell := rows[r][c];
        TableHitsComplete(rows, term, Hit(r, c, Count(ExtractKey(cell), term), Count(ExtractValue(cell), term)));
      }
    }
  }
}
