/**
 * A cell is stored in its raw bracketed form "(key,value)". This module holds
 * the cell grammar that the file pattern `\([^,]*,[^)]*\)` accepts, the
 * constructor the engine uses to write cells, and extractKey/extractValue,
 * which split a cell at the first comma between its brackets.
 */
module Cells {
  import opened Text

  /** "(" + key + "," + value + ")", as editCell, addRow and resetTable build a cell. */
  function MakeCell(key: string, value: string): (c: string)
    ensures |c| == |key| + |value| + 3
    ensures c[0] == '(' && c[|key| + 1] == ',' && c[|c| - 1] == ')'
    ensures c[1..|key| + 1] == key && c[|key| + 2..|c| - 1] == value
  {
    "(" + key + "," + value + ")"
  }

  /**
   * `c` is exactly one match of `\([^,]*,[^)]*\)`: an opening bracket, a key
   * without commas, a comma, a value without closing brackets, a closing bracket.
   */
  predicate WellFormedCell(c: string)
  {
    && |c| >= 3 && c[0] == '(' && c[|c| - 1] == ')'
    && exists k :: 0 < k < |c| - 1 && c[k] == ',' && ',' !in c[1..k] && ')' !in c[k + 1..|c| - 1]
  }

  /** What lies between a cell's first and last character. */
  function Inner(cell: string): string
    requires |cell| >= 2
  {
    cell[1..|cell| - 1]
  }

  /** extractValue's demand: at least two characters and a comma between the ends. */
  predicate HasValue(cell: string)
  {
    |cell| >= 2 && ',' in Inner(cell)
  }

  /**
   * extractKey: the inner text up to its first comma, or all of it when there
   * is no comma (split(",", 2) then yields a single part).
   */
  function ExtractKey(cell: string): (key: string)
    requires |cell| >= 2
    ensures ',' !in key
    ensures |key| <= |Inner(cell)| && key == Inner(cell)[..|key|]
    ensures key == Inner(cell) || Inner(cell)[|key|] == ','
  {
    var content := Inner(cell);
    match FirstIndex(content, ',', 0)
    case None => content
    case Some(i) => content[..i]
  }

  /** extractValue: the inner text after its first comma; later commas stay in the value. */
  function ExtractValue(cell: string): (value: string)
    requires HasValue(cell)
    ensures Inner(cell) == ExtractKey(cell) + "," + value
  {
    var content := Inner(cell);
    var i := FirstIndex(content, ',', 0).value;
    assert content == content[..i] + "," + content[i + 1..];
    content[i + 1..]
  }

  /** Splitting a built cell gives back its key and value when the key has no comma. */
  lemma {:induction false} ExtractMakeCell(key: string, value: string)
    requires ',' !in key
    ensures HasValue(MakeCell(key, value))
    ensures ExtractKey(MakeCell(key, value)) == key
    ensures ExtractValue(MakeCell(key, value)) == value
  {
    var c := MakeCell(key, value);
    assert Inner(c) == key + "," + value;
    assert Inner(c)[|key|] == ',';
    FirstIndexIs(Inner(c), ',', 0, |key|);
  }

  /** A bracketed cell with a comma is rebuilt exactly from its key and value. */
  lemma {:induction false} MakeCellExtract(cell: string)
    requires HasValue(cell) && cell[0] == '(' && cell[|cell| - 1] == ')'
    ensures MakeCell(ExtractKey(cell), ExtractValue(cell)) == cell
  {
    assert cell == "(" + Inner(cell) + ")";
  }

  /** A well-formed cell splits into a comma-free key and a value without ')'. */
  lemma {:induction false} WellFormedSplits(cell: string)
    requires WellFormedCell(cell)
    ensures HasValue(cell) && ')' !in ExtractValue(cell)
  {
    var k :| 0 < k < |cell| - 1 && cell[k] == ',' && ',' !in cell[1..k] && ')' !in cell[k + 1..|cell| - 1];
    var content := Inner(cell);
    assert content[k - 1] == ',';
    forall j | 0 <= j < k - 1 ensures content[j] != ',' {
      assert content[j] == cell[1..k][j];
    }
    FirstIndexIs(content, ',', 0, k - 1);
    assert ExtractValue(cell) == content[k..] == cell[k + 1..|cell| - 1];
  }

  /** A bracketed cell whose value holds no ')' is well formed. */
  lemma {:induction false} SplitsWellFormed(cell: string)
    requires |cell| >= 3 && cell[0] == '(' && cell[|cell| - 1] == ')'
    requires HasValue(cell) && ')' !in ExtractValue(cell)
    ensures WellFormedCell(cell)
  {
    var key := ExtractKey(cell);
    var k := |key| + 1;
    assert cell[1..k] == key;
    assert cell[k + 1..|cell| - 1] == ExtractValue(cell);
    assert cell[k] == ',';
  }

  /** The grammar, read through the splitter: bracketed, with a comma, and no ')' in the value. */
  lemma {:induction false} WellFormedIff(cell: string)
    ensures WellFormedCell(cell) <==>
      (|cell| >= 3 && cell[0] == '(' && cell[|cell| - 1] == ')' && HasValue(cell) && ')' !in ExtractValue(cell))
  {
    if WellFormedCell(cell) {
      WellFormedSplits(cell);
    }
    if |cell| >= 3 && cell[0] == '(' && cell[|cell| - 1] == ')' && HasValue(cell) && ')' !in ExtractValue(cell) {
      SplitsWellFormed(cell);
    }
  }

  /** A cell built from a comma-free key and a value without ')' is well formed. */
  lemma {:induction false} MakeCellWellFormed(key: string, value: string)
    requires ',' !in key && ')' !in value
    ensures WellFormedCell(MakeCell(key, value))
  {
    var c := MakeCell(key, value);
    var k := |key| + 1;
    assert c[1..k] == key && c[k + 1..|c| - 1] == value;
  }
}
