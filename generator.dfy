/**
 * AsciiUtils.generateRandomAscii and the placeholder cells the engine builds
 * from it. The random draw is a choice the model does not fix: all that is
 * known of a drawn character is that it lies in 33..126, the printable ASCII
 * range, which holds '(' , ')' and ',' as well.
 */
module Generator {
  import opened Text
  import opened Cells
  import opened FileCodec

  const ASCII_MIN := 33
  const ASCII_RANGE := 94

  /** Every character lies in ASCII_MIN .. ASCII_MIN + ASCII_RANGE - 1. */
  predicate Printable(s: string)
  {
    forall i :: 0 <= i < |s| ==> ASCII_MIN <= s[i] as int < ASCII_MIN + ASCII_RANGE
  }

  /** generateRandomAscii: `length` drawn characters, none for a length below 1. */
  method GenerateRandomAscii(length: int) returns (result: string)
    ensures |result| == if length > 0 then length else 0
    ensures Printable(result)
  {
    result := "";
    var i := 0;
    while i < length
      invariant 0 <= i <= (if length > 0 then length else 0)
      invariant |result| == i
      invariant Printable(result)
    {
      assert ASCII_MIN <= '!' as int < ASCII_MIN + ASCII_RANGE;
      var randomChar: char :| ASCII_MIN <= randomChar as int < ASCII_MIN + ASCII_RANGE;
      result := result + [randomChar];
      i := i + 1;
    }
  }

  /** A placeholder cell: "(" + three drawn characters + "," + three drawn characters + ")". */
  predicate Placeholder(cell: string)
  {
    && |cell| == 9 && cell[0] == '(' && cell[4] == ',' && cell[8] == ')'
    && Printable(cell[1..4]) && Printable(cell[5..8])
  }

  /** A cell built from two drawn strings of length 3 is a placeholder. */
  lemma {:induction false} PlaceholderOf(key: string, value: string)
    requires |key| == 3 && |value| == 3 && Printable(key) && Printable(value)
    ensures Placeholder(MakeCell(key, value))
  {
    var c := MakeCell(key, value);
    assert c[1..4] == key && c[5..8] == value;
  }

  /** Every placeholder splits into a key of at most three characters and a value. */
  lemma {:induction false} PlaceholderSplits(cell: string)
    requires Placeholder(cell)
    ensures HasValue(cell) && |ExtractKey(cell)| <= 3
  {
    assert Inner(cell)[3] == ',';
  }

  /**
   * A drawn key may hold a comma: the cell then splits before it, and the
   * three characters drawn for the key are not what extractKey gives back.
   */
  lemma {:induction false} PlaceholderKeyWithComma()
    ensures Placeholder(MakeCell("a,b", "cde"))
    ensures ExtractKey(MakeCell("a,b", "cde")) == "a"
    ensures ExtractValue(MakeCell("a,b", "cde")) == "b,cde"
  {
    PlaceholderOf("a,b", "cde");
    var c := MakeCell("a,b", "cde");
    assert Inner(c) == "a,b,cde";
    FirstIndexIs(Inner(c), ',', 0, 1);
  }

  /**
   * A drawn value may hold ')': the placeholder is then not one match of the
   * cell pattern, although its key splits back out as drawn.
   */
  lemma {:induction false} PlaceholderValueWithBracket(key: string, value: string)
    requires |key| == 3 && |value| == 3 && Printable(key) && Printable(value)
    requires ',' !in key && ')' in value
    ensures Placeholder(MakeCell(key, value))
    ensures ExtractKey(MakeCell(key, value)) == key && ExtractValue(MakeCell(key, value)) == value
    ensures !WellFormedCell(MakeCell(key, value))
  {
    PlaceholderOf(key, value);
    ExtractMakeCell(key, value);
    WellFormedIff(MakeCell(key, value));
  }

  /**
   * Such a placeholder written to a file does not read back as written: the
   * one built from "abc" and "d)e", "(abc,d)e)", reads back as the shorter
   * cell "(abc,d)".
   */
  lemma {:induction false} BracketPlaceholderReadsBackShorter()
    ensures ParseLine("(abc,d)e)") == ["(abc,d)"]
  {
    var cell := "(abc,d)";
    assert 0 < 4 < |cell| - 1 && cell[4] == ',' && ',' !in cell[1..4] && ')' !in cell[5..6];
    ScanCell(cell, "e)");
    assert "(abc,d)e)" == cell + "e)";
    ScanSkips('e', ")");
    ScanSkips(')', "");
    assert "e)" == ['e'] + ")" && ")" == [')'] + "";
  }
}
