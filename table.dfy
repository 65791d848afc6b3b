/**
 * Table.java: an ordered list of rows, each row an ordered list of raw cell
 * strings such as "(k,v)". A row is a mutable object of its own: `Get` hands
 * out the stored row itself, and whatever is done to it is seen through the
 * table, at every index that holds that same row.
 */
module TableModel {

  /** One row: the live List<String> stored in the table. */
  class Row {
    var cells: seq<string>

    constructor (cells: seq<string>)
      ensures this.cells == cells
    {
      this.cells := cells;
    }
  }

  /** The cells of each row, in row order. */
  ghost function CellsOf(rows: seq<Row>): (c: seq<seq<string>>)
    reads rows
    ensures |c| == |rows|
    ensures forall i :: 0 <= i < |rows| ==> c[i] == rows[i].cells
  {
    if rows == [] then [] else CellsOf(rows[..|rows| - 1]) + [rows[|rows| - 1].cells]
  }

  class Table {
    var rows: seq<Row>

    /** A new table holds no rows. */
    constructor ()
      ensures rows == []
      ensures Contents() == []
    {
      rows := [];
    }

    /** The table as a value: its rows' cells, in row order. */
    ghost function Contents(): (c: seq<seq<string>>)
      reads this, rows
      ensures |c| == |rows|
      ensures forall i :: 0 <= i < |rows| ==> c[i] == rows[i].cells
    {
      CellsOf(rows)
    }

    /** No row object is stored at two indices. */
    ghost predicate Distinct()
      reads this
    {
      forall i, j :: 0 <= i < j < |rows| ==> rows[i] != rows[j]
    }

    /** add: the row goes at the end; every earlier row stays where it was. */
    method Add(row: Row)
      modifies this
      ensures rows == old(rows) + [row]
      ensures Contents() == old(Contents()) + [row.cells]
      ensures row !in old(rows) ==> (old(Distinct()) ==> Distinct())
    {
      rows := rows + [row];
    }

    /** get: the stored row itself, not a copy. */
    method Get(index: int) returns (row: Row)
      requires 0 <= index < |rows|
      ensures row == rows[index]
    {
      row := rows[index];
    }

    /** size: the number of rows. */
    method Size() returns (n: int)
      ensures n == |rows|
    {
      n := |rows|;
    }

    /** clear: no rows remain, whatever the table held. */
    method Clear()
      modifies this
      ensures rows == []
    {
      rows := [];
    }
  }

  /**
   * What a caller of Table can rely on: a new table is empty, an added row is
   * found at the last index, and clear empties the table again.
   */
  method TableUsage(a: seq<string>, b: seq<string>)
  {
    var t := new Table();
    var n := t.Size();
    assert n == 0;
    var first := new Row(a);
    t.Add(first);
    var second := new Row(b);
    t.Add(second);
    assert t.rows == [first, second];
    n := t.Size();
    assert n == 2;
    var got := t.Get(n - 1);
    assert got == second && got.cells == b;
    t.Clear();
    n := t.Size();
    assert n == 0;
  }

  /**
   * A cell appended to the row `Get` hands out is seen through the table, at
   * that index only when no other index stores the same row.
   */
  method EditThroughGet(t: Table, index: int)
    requires 0 <= index < |t.rows| && t.Distinct()
    modifies t.rows[index]
  {
    ghost var before := t.Contents();
    var got := t.Get(index);
    got.cells := got.cells + ["(k,v)"];
    assert t.Contents() == before[index := before[index] + ["(k,v)"]];
  }
}
