# Table engine of multimodule-exist, modelled in Dafny

The console utility keeps a table of cells in memory. A cell is stored as the raw text `(key,value)`. This model covers three parts of it:

- **`Table`** (`table.dfy`, module `TableModel`). An ordered list of rows. Each row is a live list of cell strings that `get` hands out by reference. `Row` and `Table` are classes. `Table.rows` is a sequence of row objects, so a change made through `Get` is seen through the table. The ghost function `Contents()` reads the table as a value.
- **The file format of `FileServiceImpl`** (`codec.dfy`, module `FileCodec`).
  - `parseFileToTable` splits the text on `\r?\n`. `parseLineToRow` collects every match of the cell pattern `\([^,]*,[^)]*\)`. `tableToString` joins cells with one space and rows with `\n`.
  - The pattern is written out as a scan. A match begins at a `(`, runs to the first `,` after it and then to the first `)` after that comma. The next search starts after the match.
  - Each loop method is proved equal to a specification function: `ParseLine`, `Parse` and `Render`. The round trip and its limits are proved about those functions.
- **The engine `TableServiceImpl`** (`engine.dfy`, module `Engine`, class `TableService`).
  - `searchValue` and `countOccurrences` count overlapping occurrences of a term in each cell's key and value. They report hits in row-major order (module `Search`).
  - `editCell` rewrites one cell in key, value or both mode.
  - `addRow` and `resetTable` fill rows with placeholder cells drawn by `AsciiUtils.generateRandomAscii` (module `Generator`).
  - `sortRow` sorts one row in place by `String.compareTo` or its reverse (module `Lexicographic`).
  - `getTable` returns the live table.

Supporting modules:

- `Text` holds the `java.lang.String` operations that are used: `indexOf`, ASCII `toLowerCase`, decimal rendering of an `int`, and joining.
- `Cells` holds the cell grammar, `extractKey` and `extractValue`.

Points where the behaviour of the code is worth stating outright:

- A placeholder cell is `"(" + 3 drawn characters + "," + 3 drawn characters + ")"`, which is 9 characters long (service/src/main/java/com/exist/service/impl/TableServiceImpl.java:18, 144-146).
- utilities/src/main/java/com/exist/utilities/AsciiUtils.java:14 draws from 33..126. That range includes `(`, `)` and `,`, although utilities/src/test/java/com/exist/utilities/AsciiUtilsTest.java:15-17 expects these never to be drawn. The model follows the code, so a placeholder need not match the cell pattern (`Generator.PlaceholderValueWithBracket`, `Generator.BracketPlaceholderReadsBackShorter`). Nor need it split back into what was drawn (`Generator.PlaceholderKeyWithComma`).
- The key and the value of a parsed cell may be empty, because the cell pattern at service/src/main/java/com/exist/service/impl/FileServiceImpl.java:19 uses `*`, not `+`.

## Model

| member | source | states |
|---|---|---|
| TableModel.Table.constructor | model/src/main/java/com/exist/model/Table.java:8 | a new table holds no rows |
| TableModel.Row.constructor | model/src/main/java/com/exist/model/Table.java:8 | a row is a list of cell strings of its own, holding the cells it is built with; `Get` and the engine change it in place |
| TableModel.Table.Contents | model/src/main/java/com/exist/model/Table.java:8 | the table as a value: one entry per stored row, entry i being the cells of row i |
| TableModel.Table.Add | model/src/main/java/com/exist/model/Table.java:10-12 | the row goes at the end, every earlier row object stays at its index, and a row not yet stored keeps the rows distinct |
| TableModel.Table.Get | model/src/main/java/com/exist/model/Table.java:14-16 | for an index inside the table, the stored row object itself, not a copy |
| TableModel.Table.Size | model/src/main/java/com/exist/model/Table.java:18-20 | the number of rows |
| TableModel.Table.Clear | model/src/main/java/com/exist/model/Table.java:22-24 | no rows remain, whatever the table held |
| TableModel.TableUsage | model/src/main/java/com/exist/model/Table.java:10-24 | a new table has size 0; after two adds the size is 2 and get(size-1) is the row added last; after clear the size is 0 |
| TableModel.EditThroughGet | model/src/main/java/com/exist/model/Table.java:14-16 | a change made to the row that get hands out is seen through the table at that index, and at no other index when rows are distinct |
| Cells.MakeCell | service/src/main/java/com/exist/service/impl/TableServiceImpl.java:133 | the cell text has '(' first, ',' right after the key, ')' last, and the key and value in between |
| Cells.WellFormedCell | service/src/main/java/com/exist/service/impl/FileServiceImpl.java:19 | one match of the cell pattern: "(", a key without ",", ",", a value without ")", ")"; Cells.WellFormedIff, FileCodec.MatchLengthWellFormed and FileCodec.MatchLengthOfCell tie it to the scan and to the splitter |
| Cells.ExtractKey | service/src/main/java/com/exist/service/impl/TableServiceImpl.java:196-200 | the inner text up to its first comma, or all of it when there is none; the key never holds a comma |
| Cells.ExtractValue | service/src/main/java/com/exist/service/impl/TableServiceImpl.java:202-206 | the inner text is the key, a comma and the value, so the value keeps any later commas |
| Cells.ExtractMakeCell | service/src/main/java/com/exist/service/impl/TableServiceImpl.java:196-206 | for a key without commas, extractKey and extractValue of the built cell give back the key and the value |
| Cells.MakeCellExtract | service/src/main/java/com/exist/service/impl/TableServiceImpl.java:196-206 | a bracketed cell with a comma is rebuilt exactly from its extracted key and value |
| Cells.WellFormedSplits | service/src/main/java/com/exist/service/impl/FileServiceImpl.java:19 | a match of the cell pattern splits, and its value holds no ')' |
| Cells.SplitsWellFormed | service/src/main/java/com/exist/service/impl/FileServiceImpl.java:19 | a bracketed cell that splits with no ')' in its value matches the cell pattern |
| Cells.WellFormedIff | service/src/main/java/com/exist/service/impl/FileServiceImpl.java:19 | matching the cell pattern is exactly: bracketed, holds a comma, and the value holds no ')' |
| Cells.MakeCellWellFormed | service/src/main/java/com/exist/service/impl/TableServiceImpl.java:133 | a cell built from a key without commas and a value without ')' matches the cell pattern |
| Text.FirstIndex | service/src/main/java/com/exist/service/impl/TableServiceImpl.java:198 | the index found holds the character and no earlier index does; none found means the character does not occur |
| Text.NatToString | service/src/main/java/com/exist/service/impl/TableServiceImpl.java:49 | the decimal digits of a count or index: only digits, no leading zero, and their value is the number |
| Text.LowerAscii | service/src/main/java/com/exist/service/impl/TableServiceImpl.java:117 | same length; each ASCII capital becomes its small letter and every other character is kept |
| Text.LowerAsciiIdempotent | service/src/main/java/com/exist/service/impl/TableServiceImpl.java:117 | lower-casing twice gives what lower-casing once gives |
| Text.IndexOf | service/src/main/java/com/exist/service/impl/TableServiceImpl.java:102 | the least index at or after the cursor where the term occurs, -1 when there is none; the empty term is found at the cursor, or at the end past it |
| FileCodec.MatchLength | service/src/main/java/com/exist/service/impl/FileServiceImpl.java:19 | a match starting at the first character is at least 3 characters and lies inside the text |
| FileCodec.MatchLengthWellFormed | service/src/main/java/com/exist/service/impl/FileServiceImpl.java:19 | what the scan matches is one cell of the pattern's form |
| FileCodec.MatchLengthOfCell | service/src/main/java/com/exist/service/impl/FileServiceImpl.java:19 | a cell of the pattern's form is matched whole, whatever text follows it |
| FileCodec.NextMatch | service/src/main/java/com/exist/service/impl/FileServiceImpl.java:87 | the match found lies inside the text and is at least 3 characters long |
| FileCodec.NextMatchLeftmost | service/src/main/java/com/exist/service/impl/FileServiceImpl.java:85-87 | the match found is a match, no match begins before it, and none found means no position begins a match |
| FileCodec.ParseLineDecomposes | service/src/main/java/com/exist/service/impl/FileServiceImpl.java:83-93 | the line is the gaps and the cells woven together, so the cells are contiguous pieces of the line, in order, with no overlap |
| FileCodec.ParseLineWellFormed | service/src/main/java/com/exist/service/impl/FileServiceImpl.java:83-93 | every cell parsed from a line has the form '(' K ',' V ')', K without ',' and V without ')' |
| FileCodec.ScanSkips | service/src/main/java/com/exist/service/impl/FileServiceImpl.java:87-90 | a character other than '(' at the front does not change the cells found |
| FileCodec.ScanResume | service/src/main/java/com/exist/service/impl/FileServiceImpl.java:87-90 | after a match the search goes on right after that match |
| FileCodec.ScanCell | service/src/main/java/com/exist/service/impl/FileServiceImpl.java:87-90 | a well-formed cell at the front is the first cell found, and the search resumes right after it |
| FileCodec.ParseLine | service/src/main/java/com/exist/service/impl/FileServiceImpl.java:83-93 | the cells of one line; FileCodec.ParseLineDecomposes and FileCodec.ParseLineWellFormed state that they are the leftmost, non-overlapping matches in order, and FileCodec.ParseLineToRow is proved equal to it |
| FileCodec.RawSplit | service/src/main/java/com/exist/service/impl/FileServiceImpl.java:69 | the pieces between "\n" separators, each with a "\r" before its separator removed; there is always at least one piece; FileCodec.RawSplitNoBreak and FileCodec.RawSplitJoin are proved about it |
| FileCodec.RawSplitNoBreak | service/src/main/java/com/exist/service/impl/FileServiceImpl.java:69 | no piece between separators holds a line break |
| FileCodec.DropTrailingEmpty | service/src/main/java/com/exist/service/impl/FileServiceImpl.java:69 | a prefix of the pieces that ends in a non-empty one unless none is left, only empty pieces being dropped; FileCodec.ParseLinesDropTrailingEmpty shows no row is lost |
| FileCodec.SplitLines | service/src/main/java/com/exist/service/impl/FileServiceImpl.java:69 | split("\\r?\\n"): the text itself when it has no "\n", otherwise the pieces without a trailing empty one; FileCodec.SplitLinesNoBreak and FileCodec.SplitJoin are proved about it |
| FileCodec.SplitLinesNoBreak | service/src/main/java/com/exist/service/impl/FileServiceImpl.java:69 | no line of a split text holds a line break |
| FileCodec.ParseLinesGrow | service/src/main/java/com/exist/service/impl/FileServiceImpl.java:71-77 | one more line appends its row exactly when the line holds a cell |
| FileCodec.ParseLinesRows | service/src/main/java/com/exist/service/impl/FileServiceImpl.java:71-77 | every row of a parsed table is non-empty and made of well-formed cells |
| FileCodec.ParseRows | service/src/main/java/com/exist/service/impl/FileServiceImpl.java:61-80 | the same holds for the table parsed from any text, the empty text included |
| FileCodec.Parse | service/src/main/java/com/exist/service/impl/FileServiceImpl.java:61-80 | parseFileToTable as a value; FileCodec.ParseRows, FileCodec.ParseRender and FileCodec.RoundTrip are proved about it, and FileCodec.ParseFileToTable is proved equal to it |
| FileCodec.ParseThroughLines | service/src/main/java/com/exist/service/impl/FileServiceImpl.java:64-69 | the early return for empty text gives what splitting it would: no rows |
| FileCodec.RenderRows | service/src/main/java/com/exist/service/impl/FileServiceImpl.java:99-106 | one rendered line per row, the cells of the row joined by one space |
| FileCodec.Render | service/src/main/java/com/exist/service/impl/FileServiceImpl.java:96-113 | tableToString as a value; FileCodec.ParseRender and FileCodec.RoundTrip are proved about it, and FileCodec.TableToString is proved equal to it |
| FileCodec.NonEmptyRows | service/src/main/java/com/exist/service/impl/FileServiceImpl.java:74 | keeps at most the rows given, and strictly fewer when one of them is empty |
| FileCodec.ParseRenderRow | service/src/main/java/com/exist/service/impl/FileServiceImpl.java:83-105 | a row of well-formed cells, rendered and parsed, is the same row |
| FileCodec.RawSplitJoin | service/src/main/java/com/exist/service/impl/FileServiceImpl.java:69 | splitting lines joined by "\n" gives the lines back when none holds a line break or ends in a carriage return |
| FileCodec.ParseLinesDropTrailingEmpty | service/src/main/java/com/exist/service/impl/FileServiceImpl.java:69-77 | dropping trailing empty lines, as split does, changes no row |
| FileCodec.ParseLinesRenderRows | service/src/main/java/com/exist/service/impl/FileServiceImpl.java:71-110 | the rendered lines of rows of well-formed cells parse back to the non-empty rows |
| FileCodec.RenderedLinesSafe | service/src/main/java/com/exist/service/impl/FileServiceImpl.java:99-110 | a rendered row of well-formed cells without line breaks is one line that split keeps whole |
| FileCodec.SplitJoin | service/src/main/java/com/exist/service/impl/FileServiceImpl.java:69-110 | splitting the joined lines and parsing them gives the rows of the lines themselves |
| FileCodec.ParseRender | service/src/main/java/com/exist/service/impl/FileServiceImpl.java:61-113 | parsing the rendered table gives back its non-empty rows, in order |
| FileCodec.RoundTrip | service/src/main/java/com/exist/service/impl/FileServiceImpl.java:61-113 | a table of non-empty rows of well-formed cells without line breaks is parsed back from its own rendering |
| FileCodec.NonEmptyRowsKeepsAll | service/src/main/java/com/exist/service/impl/FileServiceImpl.java:74 | a table of non-empty rows loses no row |
| FileCodec.EmptyRowIsLost | service/src/main/java/com/exist/service/impl/FileServiceImpl.java:71-110 | a table holding an empty row reads back with fewer rows |
| FileCodec.ParseLineToRow | service/src/main/java/com/exist/service/impl/FileServiceImpl.java:83-93 | the loop over Matcher.find collects exactly the cells the scan defines |
| FileCodec.ParseFileToTable | service/src/main/java/com/exist/service/impl/FileServiceImpl.java:61-80 | a new table of new, distinct rows whose contents are the parse of the text: no rows for empty text, one row per line with a cell |
| FileCodec.AddLineRow | service/src/main/java/com/exist/service/impl/FileServiceImpl.java:73-75 | a line without cells leaves the rows as they were; otherwise one new row object holding the line's cells is appended after the same earlier rows; the contents grow by that row only, and distinct rows stay distinct |
| FileCodec.AppendRow | service/src/main/java/com/exist/service/impl/FileServiceImpl.java:100-105 | the builder grows by the row's cells with one space between neighbours |
| FileCodec.TableToString | service/src/main/java/com/exist/service/impl/FileServiceImpl.java:96-113 | the text is the rendering of the table: rows joined by "\n", none after the last, "" for no rows |
| Lexicographic.Le | service/src/main/java/com/exist/service/impl/TableServiceImpl.java:157 | a.compareTo(b) <= 0: a prefix of b, or smaller at the first place they differ; Lexicographic.LeReflexive, LeTotal, LeAntisymmetric and LeTransitive prove it a total order |
| Lexicographic.LeReflexive | service/src/main/java/com/exist/service/impl/TableServiceImpl.java:157 | every string is ordered before or equal to itself |
| Lexicographic.LeTotal | service/src/main/java/com/exist/service/impl/TableServiceImpl.java:157 | any two strings are comparable |
| Lexicographic.LeAntisymmetric | service/src/main/java/com/exist/service/impl/TableServiceImpl.java:157 | strings ordered both ways are equal |
| Lexicographic.LeTransitive | service/src/main/java/com/exist/service/impl/TableServiceImpl.java:157 | the order is transitive |
| Lexicographic.InOrderTotal | service/src/main/java/com/exist/service/impl/TableServiceImpl.java:155-161 | in either sort order any two cells are comparable |
| Lexicographic.InOrderTransitive | service/src/main/java/com/exist/service/impl/TableServiceImpl.java:155-161 | each sort order is transitive |
| Lexicographic.InOrderAntisymmetric | service/src/main/java/com/exist/service/impl/TableServiceImpl.java:155-161 | cells ordered both ways in a sort order are equal |
| Lexicographic.Insert | service/src/main/java/com/exist/service/impl/TableServiceImpl.java:157-160 | inserting into a sorted row keeps it sorted and adds exactly that cell |
| Lexicographic.Sort | service/src/main/java/com/exist/service/impl/TableServiceImpl.java:157-160 | the sorted row is in order and is a permutation of the row |
| Lexicographic.SortedUnique | service/src/main/java/com/exist/service/impl/TableServiceImpl.java:157-160 | two sorted permutations of the same cells are equal, so any correct sort gives the same row |
| Lexicographic.SortIsTheSortedPermutation | service/src/main/java/com/exist/service/impl/TableServiceImpl.java:157-160 | Sort gives the one sorted permutation, whatever algorithm Collections.sort uses |
| Lexicographic.ReverseSorted | service/src/main/java/com/exist/service/impl/TableServiceImpl.java:160 | an ascending row read backwards is descending |
| Lexicographic.DescendingIsReversedAscending | service/src/main/java/com/exist/service/impl/TableServiceImpl.java:160 | sorting with the reverse order is the ascending sort read backwards |
| Search.Count | service/src/main/java/com/exist/service/impl/TableServiceImpl.java:99-107 | the number of positions where the term occurs, overlapping ones included; Search.CountBelowPositions, CountEmptyTerm and CountOverlapping are proved about it, and Search.CountOccurrences is proved equal to it |
| Search.CountBelowPositions | service/src/main/java/com/exist/service/impl/TableServiceImpl.java:99-107 | the count is the number of positions where the term occurs |
| Search.CountEmptyTerm | service/src/main/java/com/exist/service/impl/TableServiceImpl.java:99-107 | the empty term occurs at every position, the end included: length plus one |
| Search.CountOverlapping | service/src/main/java/com/exist/service/impl/TableServiceImpl.java:102-105 | overlapping occurrences count: "aa" occurs twice in "aaa" |
| Search.CountOccurrences | service/src/main/java/com/exist/service/impl/TableServiceImpl.java:99-107 | for a non-empty term the loop returns the number of positions where the term occurs |
| Search.CellHitsMember | service/src/main/java/com/exist/service/impl/TableServiceImpl.java:42-89 | a cell gives a hit exactly when its key or value holds the term, with both counts |
| Search.RowHitsInRow | service/src/main/java/com/exist/service/impl/TableServiceImpl.java:40 | a row's hits lie in that row, at its columns |
| Search.RowHitsMember | service/src/main/java/com/exist/service/impl/TableServiceImpl.java:40-90 | a row's hits are exactly the hits of its cells |
| Search.TableHitsMember | service/src/main/java/com/exist/service/impl/TableServiceImpl.java:39-91 | the table's hits are exactly the hits of its rows |
| Search.TableHitsComplete | service/src/main/java/com/exist/service/impl/TableServiceImpl.java:39-91 | a hit is reported exactly for each cell with a non-zero count, carrying that cell's counts |
| Search.RowHitsOrdered | service/src/main/java/com/exist/service/impl/TableServiceImpl.java:40-90 | a row's hits go strictly left to right |
| Search.TableHitsOrdered | service/src/main/java/com/exist/service/impl/TableServiceImpl.java:39-91 | the report's hits lie at cells of the table, in row-major order, no cell twice |
| Search.HitLine | service/src/main/java/com/exist/service/impl/TableServiceImpl.java:48-89 | a report line begins with a digit and ends with a newline |
| Search.LinesStart | service/src/main/java/com/exist/service/impl/TableServiceImpl.java:49-96 | a report with hits begins with a digit, so it never begins as the not-found message does |
| Search.CellLineIs | service/src/main/java/com/exist/service/impl/TableServiceImpl.java:45-89 | a cell gives a line exactly when one of its counts is positive, in the form those counts call for |
| Search.ReportDone | service/src/main/java/com/exist/service/impl/TableServiceImpl.java:93-96 | the lines so far, with the not-found message added exactly when nothing was found, are the report |
| Search.SearchReport | service/src/main/java/com/exist/service/impl/TableServiceImpl.java:35-97 | searchValue as a value: the lines of the hits or the not-found message; Search.NotFoundIff, TableHitsComplete and TableHitsOrdered are proved about it, and Engine.TableService.SearchValue is proved equal to it |
| Search.NotFoundIff | service/src/main/java/com/exist/service/impl/TableServiceImpl.java:93-95 | the report is exactly the not-found message if and only if no key and no value holds the term |
| Generator.GenerateRandomAscii | utilities/src/main/java/com/exist/utilities/AsciiUtils.java:10-20 | exactly max(length, 0) characters, each in 33..126 |
| Generator.PlaceholderOf | service/src/main/java/com/exist/service/impl/TableServiceImpl.java:144-146 | a cell built from two drawn strings of length 3 is a 9-character placeholder with '(' at 0, ',' at 4 and ')' at 8 |
| Generator.PlaceholderSplits | service/src/main/java/com/exist/service/impl/TableServiceImpl.java:196-206 | every placeholder splits, with a key of at most three characters |
| Generator.PlaceholderKeyWithComma | utilities/src/main/java/com/exist/utilities/AsciiUtils.java:14 | a drawn key holding a comma splits early: extractKey and extractValue do not give back what was drawn |
| Generator.PlaceholderValueWithBracket | utilities/src/main/java/com/exist/utilities/AsciiUtils.java:14 | a drawn value holding ')' gives a placeholder that splits back as drawn but is not one match of the cell pattern |
| Generator.BracketPlaceholderReadsBackShorter | service/src/main/java/com/exist/service/impl/FileServiceImpl.java:19 | the placeholder "(abc,d)e)" reads back from a file as the shorter cell "(abc,d)" |
| Engine.ParseEditMode | service/src/main/java/com/exist/service/impl/TableServiceImpl.java:117-131 | the switch on editMode.toLowerCase(): "key", "value" and "both" give a mode, anything else none; Engine.EditModeIgnoresCase shows case does not matter |
| Engine.EditModeIgnoresCase | service/src/main/java/com/exist/service/impl/TableServiceImpl.java:117 | the edit mode is read without regard to case |
| Engine.EditedCell | service/src/main/java/com/exist/service/impl/TableServiceImpl.java:111-133 | the cell editCell writes; Engine.EditedCellParts states its key and value, Engine.EditedCellWellFormed and Engine.EditKeyThenValue are proved about it |
| Engine.EditedCellParts | service/src/main/java/com/exist/service/impl/TableServiceImpl.java:111-133 | the edited cell splits into the new key and/or value as the mode says, and the old ones elsewhere |
| Engine.EditedCellWellFormed | service/src/main/java/com/exist/service/impl/TableServiceImpl.java:133 | editing a well-formed cell with a key without commas and a value without ')' keeps it well formed |
| Engine.EditKeyThenValue | service/src/main/java/com/exist/service/impl/TableServiceImpl.java:117-127 | a key edit followed by a value edit is one edit of both |
| Engine.EditedRow | service/src/main/java/com/exist/service/impl/TableServiceImpl.java:133-134 | same length; only the edited column changes, and nothing changes for an unknown mode |
| Engine.SwitchEditMode | service/src/main/java/com/exist/service/impl/TableServiceImpl.java:111-133 | no cell exactly for an unknown mode; otherwise the cell rebuilt from the chosen key and value |
| Engine.ParseSortOrder | service/src/main/java/com/exist/service/impl/TableServiceImpl.java:155-162 | the switch on order.toLowerCase(): "asc" and "desc" give an order, anything else none (no case applies); Engine.SortOrderIgnoresCase shows case does not matter |
| Engine.SortOrderIgnoresCase | service/src/main/java/com/exist/service/impl/TableServiceImpl.java:155 | the sort order is read without regard to case |
| Engine.CellReport | service/src/main/java/com/exist/service/impl/TableServiceImpl.java:41-89 | one cell's line and whether it is a hit, as the report defines them |
| Engine.SearchRow | service/src/main/java/com/exist/service/impl/TableServiceImpl.java:40-90 | the report so far grows by the lines of the row's hits, and the found flag says whether any hit was seen |
| Engine.PlaceholderCells | service/src/main/java/com/exist/service/impl/TableServiceImpl.java:143-147 | max(n, 0) placeholder cells |
| Engine.AppendPlaceholderRow | service/src/main/java/com/exist/service/impl/TableServiceImpl.java:141-149 | one new row object of max(n, 0) placeholder cells is appended after the same earlier rows; the contents grow by that row only, and distinct rows stay distinct |
| Engine.TableService.constructor | service/src/main/java/com/exist/service/impl/TableServiceImpl.java:15 | a new engine holds a new, empty table |
| Engine.TableService.LoadTableFromContent | service/src/main/java/com/exist/service/impl/TableServiceImpl.java:29-32 | the engine refers to a new table whose contents are the parse of the text |
| Engine.TableService.GetTable | service/src/main/java/com/exist/service/impl/TableServiceImpl.java:209-211 | the engine's own table object, not a copy |
| Engine.TableService.SearchValue | service/src/main/java/com/exist/service/impl/TableServiceImpl.java:35-97 | the report of every hit in row-major order, or the not-found message; the table is only read |
| Engine.TableService.EditCell | service/src/main/java/com/exist/service/impl/TableServiceImpl.java:110-137 | the same row objects; the edited row is the row with that cell rewritten for the mode; every other row object keeps its cells |
| Engine.TableService.AddRow | service/src/main/java/com/exist/service/impl/TableServiceImpl.java:139-151 | one new row of max(n, 0) placeholder cells at the end; earlier rows are the same objects with the same cells |
| Engine.TableService.SortRow | service/src/main/java/com/exist/service/impl/TableServiceImpl.java:153-165 | for asc or desc in any case the row becomes its sorted permutation; any other order changes nothing; other row objects keep their cells |
| Engine.TableService.ResetTable | service/src/main/java/com/exist/service/impl/TableServiceImpl.java:167-182 | the same table object now holds max(rows, 0) new, distinct rows of max(columns, 0) placeholder cells |

## Left out

- File I/O is not part of this model: `loadFileContent`, `saveFile`, `getFileName` and `fileExists`. `loadTableFromFile` is modelled from the text it reads onward (`Engine.TableService.LoadTableFromContent`). `saveFile` only writes `tableToString`, which is modelled.
- Console output is left out: `printTable`, the messages printed for empty files and invalid edit modes, and the `printTable()` call at the end of each mutator. None of these changes the table.
- MenuManager, AdvancedJava and ScanUtils (the menu loop, prompts and console input) are not part of this model.
  - The bounds the menu checks before `editCell` and `sortRow` (app/src/main/java/com/exist/app/MenuManager.java:82-90 and 153-156) become preconditions.
  - The blank-term check before `searchValue` (app/src/main/java/com/exist/app/MenuManager.java:59-62) becomes a precondition too.
- Search.CountOccurrences: requires a non-empty term. For the empty term, `indexOf` keeps answering the text's length and the source loop never ends. The specification function `Search.Count` still gives length + 1 for that case (`Search.CountEmptyTerm`).
- Engine.TableService.SearchValue: requires a non-empty term and that every cell splits into key and value.
  - The empty term is excluded because the source never returns on it once it reaches a cell: the `countOccurrences` loop at service/src/main/java/com/exist/service/impl/TableServiceImpl.java:102-105 does not end. app/src/main/java/com/exist/app/MenuManager.java:59-62 never passes a blank term.
  - A cell that does not split makes `extractKey` or `extractValue` throw (service/src/main/java/com/exist/service/impl/TableServiceImpl.java:197, 205), and exceptions are not modelled.
- Engine.TableService.EditCell: requires the indices to be in range and the cell to hold a comma between its brackets. The source throws otherwise.
- Engine.TableService.SortRow: requires a row index in range only when the order is asc or desc. With any other order the source never reads the row.
- Engine.TableService.EditCell: states the whole table as a value only when no row object is stored twice (`Distinct`). Without that, it states the change per row object.
- Engine.TableService.ResetTable: does not state what the table held before, because `clear` discards it.
- Generator.GenerateRandomAscii: `Math.random()` is a nondeterministic choice in the model. All that is known of a drawn character is its range, 33..126. Floating point is not modelled.
- Lexicographic.Sort: Collections.sort is modelled by its result. Its algorithm and its stability are not modelled. `Lexicographic.SortedUnique` shows that any correct sort gives the same row.
- `String.compareTo` compares UTF-16 code units, while the model compares characters. The two orders differ only for characters outside the Basic Multilingual Plane.
- Text.LowerAscii: `toLowerCase` is modelled on ASCII letters only. Locale rules and non-ASCII case mappings are not modelled.
- Java `int` overflow of counts, indices and sizes is not modelled. The model's integers are unbounded.
- The `FileService` field and the `FileService` argument of the constructors of `TableServiceImpl` are not modelled, because no file access is. `Engine.TableService.constructor` models the `table = new Table()` initializer (service/src/main/java/com/exist/service/impl/TableServiceImpl.java:15), which both Java constructors run.
- Some helper methods split out one loop body of a single Java method so that it can be proved on its own:
  - `Engine.SwitchEditMode` from `editCell`;
  - `Engine.CellReport` and `Engine.SearchRow` from `searchValue`;
  - `Engine.PlaceholderCells` and `Engine.AppendPlaceholderRow` from `addRow` and `resetTable`;
  - `FileCodec.AddLineRow` from `parseFileToTable`;
  - `FileCodec.AppendRow` from `tableToString`.
