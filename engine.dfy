/**
 * TableServiceImpl: the engine that holds the current table and searches,
 * edits, extends, sorts and rebuilds it in place. The table is shared: the
 * engine hands it out by reference, and an edit or a sort changes the row
 * object the table stores.
 */
module Engine {
  import opened Text
  import opened Cells
  import opened Lexicographic
  import opened TableModel
  import opened FileCodec
  import opened Search
  import opened Generator

  /** The length of each half of a placeholder cell. */
  const ASCII_STRING_LENGTH := 3

  // ---------------------------------------------------------------------------
  // Editing one cell

  /** The edit modes editCell accepts. */
  datatype EditMode = Key | Value | Both

  /** editMode.toLowerCase() against "key", "value" and "both"; any other text is no mode. */
  function ParseEditMode(editMode: string): Option<EditMode>
  {
    var lowered := LowerAscii(editMode);
    if lowered == "key" then Some(Key)
    else if lowered == "value" then Some(Value)
    else if lowered == "both" then Some(Both)
    else None
  }

  /** The mode is read without regard to case. */
  lemma {:induction false} EditModeIgnoresCase(editMode: string)
    ensures ParseEditMode(editMode) == ParseEditMode(LowerAscii(editMode))
  {
    LowerAsciiIdempotent(editMode);
  }

  /** The cell editCell writes: the new key and/or value, the old ones kept otherwise. */
  function EditedCell(cell: string, newKey: string, newValue: string, mode: EditMode): (r: string)
    requires HasValue(cell)
  {
    var finalKey := if mode == Value then ExtractKey(cell) else newKey;
    var finalValue := if mode == Key then ExtractValue(cell) else newValue;
    MakeCell(finalKey, finalValue)
  }

  /**
   * The edited cell splits into the key and value asked for: the new ones where
   * the mode says so, the old ones elsewhere. A new key must be free of commas,
   * or the split falls inside it.
   */
  lemma {:induction false} EditedCellParts(cell: string, newKey: string, newValue: string, mode: EditMode)
    requires HasValue(cell)
    requires mode != Value ==> ',' !in newKey
    ensures HasValue(EditedCell(cell, newKey, newValue, mode))
    ensures ExtractKey(EditedCell(cell, newKey, newValue, mode)) == if mode == Value then ExtractKey(cell) else newKey
    ensures ExtractValue(EditedCell(cell, newKey, newValue, mode)) == if mode == Key then ExtractValue(cell) else newValue
  {
    var finalKey := if mode == Value then ExtractKey(cell) else newKey;
    var finalValue := if mode == Key then ExtractValue(cell) else newValue;
    ExtractMakeCell(finalKey, finalValue);
  }

  /** Editing a well-formed cell with a comma-free key and a value without ')' keeps it well formed. */
  lemma {:induction false} EditedCellWellFormed(cell: string, newKey: string, newValue: string, mode: EditMode)
    requires WellFormedCell(cell) && ',' !in newKey && ')' !in newValue
    ensures WellFormedCell(EditedCell(cell, newKey, newValue, mode))
  {
    WellFormedSplits(cell);
    var finalKey := if mode == Value then ExtractKey(cell) else newKey;
    var finalValue := if mode == Key then ExtractValue(cell) else newValue;
    MakeCellWellFormed(finalKey, finalValue);
  }

  /** A key-only edit followed by a value-only edit is the same as one edit of both. */
  lemma {:induction false} EditKeyThenValue(cell: string, newKey: string, newValue: string)
    requires HasValue(cell) && ',' !in newKey
    ensures HasValue(EditedCell(cell, newKey, newValue, Key))
    ensures EditedCell(EditedCell(cell, newKey, newValue, Key), newKey, newValue, Value)
      == EditedCell(cell, newKey, newValue, Both)
  {
    EditedCellParts(cell, newKey, newValue, Key);
  }

  /** A row after editCell: cell `col` rewritten for a known mode, the row as it was otherwise. */
  function EditedRow(cells: seq<string>, col: nat, newKey: string, newValue: string, mode: Option<EditMode>): (r: seq<string>)
    requires col < |cells| && HasValue(cells[col])
    ensures |r| == |cells|
    ensures forall j :: 0 <= j < |cells| && j != col ==> r[j] == cells[j]
    ensures mode.None? ==> r == cells
    ensures mode.Some? ==> r[col] == EditedCell(cells[col], newKey, newValue, mode.value)
  {
    match mode
    case None => cells
    case Some(m) => cells[col := EditedCell(cells[col], newKey, newValue, m)]
  }

  /**
   * The part of editCell that works on the cell text: the old key and value
   * are split out, the mode (in any case) picks which of them are replaced,
   * and the cell is rebuilt; an unknown mode gives no cell.
   */
  method SwitchEditMode(cell: string, newKey: string, newValue: string, editMode: string)
    returns (newCell: Option<string>)
    requires HasValue(cell)
    ensures ParseEditMode(editMode).None? <==> newCell.None?
    ensures newCell.Some? ==> newCell.value == EditedCell(cell, newKey, newValue, ParseEditMode(editMode).value)
  {
    var oldKey := ExtractKey(cell);
    var oldValue := ExtractValue(cell);
    var finalKey := oldKey;
    var finalValue := oldValue;
    var lowered := LowerAscii(editMode);
    if lowered == "key" {
      finalKey := newKey;
    } else if lowered == "value" {
      finalValue := newValue;
    } else if lowered == "both" {
      finalKey := newKey;
      finalValue := newValue;
    } else {
      return None;
    }
    newCell := Some("(" + finalKey + "," + finalValue + ")");
  }

  // ---------------------------------------------------------------------------
  // Sorting one row

  /** order.toLowerCase() against "asc" and "desc"; any other text is no order. */
  function ParseSortOrder(order: string): Option<SortOrder>
  {
    var lowered := LowerAscii(order);
    if lowered == "asc" then Some(Ascending)
    else if lowered == "desc" then Some(Descending)
    else None
  }

  /** The order is read without regard to case. */
  lemma {:induction false} SortOrderIgnoresCase(order: string)
    ensures ParseSortOrder(order) == ParseSortOrder(LowerAscii(order))
  {
    LowerAsciiIdempotent(order);
  }

  // ---------------------------------------------------------------------------
  // The engine

  /**
   * The body of searchValue's inner loop: a cell's key and value are counted
   * separately, and a cell with a positive count gives one report line.
   */
  method CellReport(cellValue: string, searchTerm: string, rowIndex: nat, colIndex: nat)
    returns (line: string, hit: bool)
    requires |searchTerm| > 0 && HasValue(cellValue)
    ensures line == CellLine(cellValue, searchTerm, rowIndex, colIndex)
    ensures hit <==> CellHits(cellValue, searchTerm, rowIndex, colIndex) != []
    ensures !hit ==> line == ""
  {
    var key := ExtractKey(cellValue);
    var value := ExtractValue(cellValue);
    var keyOccurrences := CountOccurrences(key, searchTerm);
    var valueOccurrences := CountOccurrences(value, searchTerm);
    CellLineIs(cellValue, searchTerm, rowIndex, colIndex, keyOccurrences, valueOccurrences);
    hit := keyOccurrences > 0 || valueOccurrences > 0;
    line := if hit then HitLine(Hit(rowIndex, colIndex, keyOccurrences, valueOccurrences), searchTerm) else "";
  }

  /**
   * The inner loop of searchValue over one row: the report built so far grows
   * by the lines of the row's hits, and the found flag records whether any
   * hit has been seen.
   */
  method SearchRow(cells: seq<string>, rowIndex: nat, searchTerm: string, ghost before: seq<Hit>,
                   sofar: string, foundSofar: bool) returns (result: string, found: bool)
    requires |searchTerm| > 0
    requires forall c :: 0 <= c < |cells| ==> HasValue(cells[c])
    requires sofar == Lines(before, searchTerm) && (foundSofar <==> before != [])
    ensures result == Lines(before + RowHits(cells, searchTerm, rowIndex), searchTerm)
    ensures found <==> before + RowHits(cells, searchTerm, rowIndex) != []
  {
    result, found := sofar, foundSofar;
    assert before + RowHits(cells[..0], searchTerm, rowIndex) == before;
    var colIndex := 0;
    while colIndex < |cells|
      invariant 0 <= colIndex <= |cells|
      invariant result == Lines(before + RowHits(cells[..colIndex], searchTerm, rowIndex), searchTerm)
      invariant found <==> before + RowHits(cells[..colIndex], searchTerm, rowIndex) != []
    {
      var line, hit := CellReport(cells[colIndex], searchTerm, rowIndex, colIndex);
      ReportStep(before, cells, searchTerm, rowIndex, colIndex);
      if hit {
        result := result + line;
        found := true;
      }
      colIndex := colIndex + 1;
    }
    assert cells[..colIndex] == cells;
  }

  /** A row of `columns` placeholder cells. */
  predicate PlaceholderRow(cells: seq<string>, columns: nat)
  {
    |cells| == columns && forall c :: c in cells ==> Placeholder(c)
  }

  /** Every row holds `columns` placeholder cells. */
  ghost predicate PlaceholderRows(rows: seq<Row>, columns: nat)
    reads rows
  {
    forall i :: 0 <= i < |rows| ==> PlaceholderRow(rows[i].cells, columns)
  }

  /**
   * The cells addRow and resetTable build for one new row: `numberOfCells`
   * cells (none for a count below 1), each "(" + drawn key + "," + drawn value + ")".
   */
  method PlaceholderCells(numberOfCells: int) returns (cells: seq<string>)
    ensures PlaceholderRow(cells, if numberOfCells > 0 then numberOfCells else 0)
  {
    cells := [];
    var i := 0;
    while i < numberOfCells
      invariant 0 <= i <= (if numberOfCells > 0 then numberOfCells else 0)
      invariant PlaceholderRow(cells, i)
    {
      var randomKey := GenerateRandomAscii(ASCII_STRING_LENGTH);
      var randomValue := GenerateRandomAscii(ASCII_STRING_LENGTH);
      PlaceholderOf(randomKey, randomValue);
      cells := cells + ["(" + randomKey + "," + randomValue + ")"];
      i := i + 1;
    }
  }

  /**
   * A row of `numberOfCells` placeholder cells (none for a count below 1)
   * appended to the table as a new row object: the body of addRow and of
   * resetTable's outer loop.
   */
  method AppendPlaceholderRow(table: Table, numberOfCells: int)
    modifies table
    ensures |table.rows| == |old(table.rows)| + 1
    ensures table.rows[..|old(table.rows)|] == old(table.rows)
    ensures fresh(table.rows[|table.rows| - 1])
    ensures table.Contents() == old(table.Contents()) + [table.rows[|table.rows| - 1].cells]
    ensures PlaceholderRow(table.rows[|table.rows| - 1].cells, if numberOfCells > 0 then numberOfCells else 0)
    ensures old(table.Distinct()) ==> table.Distinct()
  {
    var cells := PlaceholderCells(numberOfCells);
    var row := new Row(cells);
    table.Add(row);
  }

  class TableService {
    var table: Table

    /** A new engine holds a new, empty table. */
    constructor ()
      ensures fresh(table) && table.Contents() == []
    {
      table := new Table();
    }

    /**
     * loadTableFromFile, after the file is read: the engine now refers to a new
     * table parsed from the text, and the table it held before is left as it was.
     */
    method LoadTableFromContent(content: string)
      modifies this
      ensures fresh(table) && table.Distinct()
      ensures table.Contents() == Parse(content)
    {
      table := ParseFileToTable(content);
    }

    /** getTable: the engine's own table, not a copy. */
    method GetTable() returns (t: Table)
      ensures t == table
    {
      t := table;
    }

    /**
     * searchValue: one line per cell whose key or value holds the term, in row
     * then column order, or the not-found message. The table is only read.
     */
    method SearchValue(searchTerm: string) returns (result: string)
      requires |searchTerm| > 0
      requires AllSplit(table.Contents())
      ensures result == SearchReport(table.Contents(), searchTerm)
    {
      ghost var rows := table.Contents();
      ghost var hits: seq<Hit> := [];
      var found := false;
      result := "";
      var size := table.Size();
      var rowIndex := 0;
      while rowIndex < size
        invariant 0 <= rowIndex <= size == |rows|
        invariant table.Contents() == rows
        invariant hits == TableHits(rows[..rowIndex], searchTerm)
        invariant result == Lines(hits, searchTerm)
        invariant found <==> hits != []
      {
        var row := table.Get(rowIndex);
        ghost var cells := rows[rowIndex];
        assert row.cells == cells;
        assert forall c :: 0 <= c < |cells| ==> HasValue(cells[c]);
        result, found := SearchRow(row.cells, rowIndex, searchTerm, hits, result, found);
        TableHitsStep(rows, searchTerm, rowIndex);
        hits := TableHits(rows[..rowIndex + 1], searchTerm);
        rowIndex := rowIndex + 1;
      }
      assert rows[..size] == rows;
      ReportDone(rows, searchTerm, result, found);
      if !found {
        result := result + NotFound;
      }
    }

    /**
     * editCell: cell [rowIndex, columnIndex] is rebuilt from the new key and/or
     * value; an unknown mode leaves it as it was. Only the row object that holds
     * the cell changes, seen at every index that stores that object.
     */
    method EditCell(rowIndex: int, columnIndex: int, newKey: string, newValue: string, editMode: string)
      requires 0 <= rowIndex < |table.rows| && 0 <= columnIndex < |table.rows[rowIndex].cells|
      requires HasValue(table.rows[rowIndex].cells[columnIndex])
      modifies table.rows[rowIndex]
      ensures table.rows == old(table.rows)
      ensures table.rows[rowIndex].cells
        == EditedRow(old(table.rows[rowIndex].cells), columnIndex, newKey, newValue, ParseEditMode(editMode))
      ensures forall i :: 0 <= i < |table.rows| && table.rows[i] != table.rows[rowIndex] ==>
        table.rows[i].cells == old(table.rows[i].cells)
      ensures old(table.Distinct()) ==> table.Contents() == old(table.Contents())[rowIndex :=
        EditedRow(old(table.Contents())[rowIndex], columnIndex, newKey, newValue, ParseEditMode(editMode))]
    {
      var row := table.Get(rowIndex);
      var newCell := SwitchEditMode(row.cells[columnIndex], newKey, newValue, editMode);
      if newCell.None? {
        return;
      }
      row.cells := row.cells[columnIndex := newCell.value];
    }

    /**
     * addRow: a new row of `numberOfCells` placeholder cells (none for a count
     * below 1) is appended; the rows before it are the same objects, unchanged.
     */
    method AddRow(numberOfCells: int)
      modifies table
      ensures |table.rows| == |old(table.rows)| + 1
      ensures table.rows[..|old(table.rows)|] == old(table.rows)
      ensures fresh(table.rows[|table.rows| - 1])
      ensures table.Contents() == old(table.Contents()) + [table.rows[|table.rows| - 1].cells]
      ensures PlaceholderRow(table.rows[|table.rows| - 1].cells, if numberOfCells > 0 then numberOfCells else 0)
      ensures old(table.Distinct()) ==> table.Distinct()
    {
      AppendPlaceholderRow(table, numberOfCells);
    }

    /**
     * sortRow: for "asc" or "desc" in any case, row `rowIndex` becomes its own
     * cells in that order; any other order changes nothing and needs no valid row.
     */
    method SortRow(rowIndex: int, order: string)
      requires ParseSortOrder(order).Some? ==> 0 <= rowIndex < |table.rows|
      modifies if 0 <= rowIndex < |table.rows| then {table.rows[rowIndex]} else {}
      ensures table.rows == old(table.rows)
      ensures ParseSortOrder(order).Some? ==>
        var sorted := table.rows[rowIndex].cells;
        && sorted == Sort(old(table.rows[rowIndex].cells), ParseSortOrder(order).value)
        && Sorted(sorted, ParseSortOrder(order).value)
        && multiset(sorted) == multiset(old(table.rows[rowIndex].cells))
      ensures forall i :: 0 <= i < |table.rows| && (ParseSortOrder(order).None? || table.rows[i] != table.rows[rowIndex]) ==>
        table.rows[i].cells == old(table.rows[i].cells)
    {
      var lowered := LowerAscii(order);
      if lowered == "asc" {
        var row := table.Get(rowIndex);
        row.cells := Sort(row.cells, Ascending);
      } else if lowered == "desc" {
        var row := table.Get(rowIndex);
        row.cells := Sort(row.cells, Descending);
      }
    }

    /**
     * resetTable: the same table object is emptied and refilled with `rows` new
     * rows (none for a count below 1) of `columns` placeholder cells each.
     */
    method ResetTable(rows: int, columns: int)
      modifies table
      ensures |table.rows| == if rows > 0 then rows else 0
      ensures forall i :: 0 <= i < |table.rows| ==> fresh(table.rows[i])
      ensures table.Distinct()
      ensures PlaceholderRows(table.rows, if columns > 0 then columns else 0)
    {
      table.Clear();
      var i := 0;
      while i < rows
        invariant 0 <= i <= (if rows > 0 then rows else 0) && |table.rows| == i
        invariant forall k :: 0 <= k < i ==> fresh(table.rows[k])
        invariant table.Distinct()
        invariant PlaceholderRows(table.rows, if columns > 0 then columns else 0)
      {
        AppendPlaceholderRow(table, columns);
        i := i + 1;
      }
    }
  }
}
