# Record store of the genealogy data server

The server keeps one table in memory. The table has three parts:

- `headers`: the column names;
- `rows`: one map from column name to cell text per record;
- `delimiter`: `;` or tab.

It loads the table from a CSV file, serves and edits records by ID over a small REST API, and writes the table back as CSV. This project models that core in Dafny and proves what each part promises.

- `js_text.dfy` (module `JsText`) models the JavaScript string built-ins the store relies on:
  - `trim`, `trimStart` and `trimEnd`;
  - `split` on one character, and `join`;
  - splitting text into lines on `/\r?\n/`;
  - `String(n)` and `Number(s)` on decimal integers.

  Proved properties: `split` and `join` invert each other, both `\n` and `\r\n` end a line, and reading the decimal text of `n` gives back `n`.
- `csv.dfy` (module `Csv`) models reading and writing the CSV text.
  - `Parse` is `detectDelimiter` together with the parsing in `loadCsv`, applied to the file text. `RowOf` builds one row, with `Col{i+1}` keys for empty headers and for surplus cells.
  - `CsvText` is `rowsToCsv`.
  - The lemmas state the shape of a parsed table, and the round trip: writing a table and parsing the text gives the table back, cut down to its header columns.
- `records.dfy` (module `Records`) models the ID column and the operations built on it:
  - `findIdKey`;
  - the first row holding an ID;
  - the next ID of a new row;
  - the IDs after renumbering.
- `store.dfy` (module `Store`) is the module state as the class `RecordStore`. Its methods are:
  - `Load`, which is `loadCsv` and `POST /api/reload`;
  - `ToCsv`, which is `rowsToCsv`;
  - the routes `GET`, `POST`, `PATCH` and `DELETE /api/row` and `POST /api/renumber`.

  An HTTP reply is a `Reply`: `Ok` with the payload, or `Err` with the status code and the error text the route sends.

The file text is a parameter of `Load`, and `ToCsv` returns the text that `POST /api/save` would write.

## Model

| member | source | states |
|---|---|---|
| JsText.LeadingWs | server.js:30 | the count of leading whitespace: everything before it is whitespace and the character at it is not |
| JsText.KeptLength | server.js:30 | the length without trailing whitespace: everything after it is whitespace and the character before it is not |
| JsText.TrimStart | server.js:30 | drops exactly the leading whitespace: the result is a suffix, everything dropped is whitespace, and the result does not start with whitespace |
| JsText.TrimEnd | server.js:30 | drops exactly the trailing whitespace: the result is a prefix, everything dropped is whitespace, and the result does not end with whitespace |
| JsText.Trim | server.js:22 | the result of `trim` has no whitespace at either end; it is empty exactly when the text is all whitespace (the blank-line test of the loader); a trimmed text is left as it is |
| JsText.Split | server.js:30-32 | `split` on one character gives at least one piece, and no piece holds the separator |
| JsText.Join | server.js:45-50 | `join` starts with the first piece |
| JsText.Lines | server.js:22 | `split(/\r?\n/)`: `'\n'` splits, and a `'\r'` just before it is dropped; its meaning is stated by LinesJoin, LinesCrLf and LinesChars |
| JsText.JoinSplit | server.js:30-32 | joining the pieces of a split with the same separator gives back the text |
| JsText.SplitJoin | server.js:45-50 | pieces without the separator, once joined, split back into the same pieces |
| JsText.JoinAvoids | server.js:45-50 | a character that is in no piece and is not the separator is not in the joined text |
| JsText.JoinLast | server.js:45-50 | a joined text ends with its last piece, and with two or more pieces the separator comes just before it |
| JsText.JoinNotEndsInCr | server.js:45-50 | trimmed pieces joined with a separator other than `'\r'` do not end in `'\r'` |
| JsText.JoinHasSeparator | server.js:45 | joining two or more pieces puts the separator in the text, so `detectDelimiter` sees a `;` header line |
| JsText.SplitChars | server.js:22 | every character of every piece comes from the text |
| JsText.LinesJoin | server.js:22 | lines with no `'\n'` that do not end in `'\r'`, joined with `'\n'`, are split back into the same lines; a `'\r'` inside a line stays |
| JsText.CrPieces | server.js:22 | the pieces of lines joined with `"\r\n"`: one per line |
| JsText.SplitCrLf | server.js:22 | splitting lines joined with `"\r\n"` on `'\n'` leaves every line but the last with the `'\r'` of its separator |
| JsText.LinesOfCrPieces | server.js:22 | text that splits into those pieces has exactly those lines |
| JsText.LinesCrLf | server.js:22 | `\r\n` ends a line as `\n` does: lines with no `'\n'`, joined with `"\r\n"`, are split back into the same lines |
| JsText.LinesChars | server.js:22 | every character of every line comes from the text |
| JsText.DecimalString | server.js:78 | `String(n)` is a non-empty run of decimal digits |
| JsText.NumberValue | server.js:75 | `Number(s)` on a run of decimal digits; its meaning is stated by DecimalRoundTrip |
| JsText.DecimalRoundTrip | server.js:75-78 | `Number(String(n)) == n` for every natural `n` |
| JsText.DecimalInjective | server.js:111 | different numbers have different decimal texts |
| Csv.DetectDelimiter | server.js:16-18 | `;` when the line holds one, tab otherwise; ParsedHeaderLine and HeaderLineRoundTrip state what loading and writing make of it |
| Csv.Cells | server.js:30-32 | `split(delimiter).map(trim)`; CellsTrimmed and CellsOfClean state its meaning |
| Csv.CellsTrimmed | server.js:30-32 | a line has at least one cell, and every cell is trimmed |
| Csv.ColName | server.js:34-36 | the key `Col{i+1}` of 0-based column `i` |
| Csv.ColumnKey | server.js:34-36 | the header when it is not empty, `Col{i+1}` otherwise; RowKeys and RowValue state the keys and values it gives |
| Csv.CellAt | server.js:34 | `cells[i] ?? ''`; RowValue states the value it gives |
| Csv.Fill | server.js:34-37 | the row after the first `n` assignments; FillKeys, FillValue and FillTrimmed state its keys and values |
| Csv.RowOf | server.js:33-38 | the row built from one line's cells; RowKeys and RowValue state its keys and values |
| Csv.NonBlank | server.js:22 | the `filter` of `loadCsv`; NonBlankAppend and NonBlankOne pin it as the order-keeping filter of non-blank lines |
| Csv.NonBlankKept | server.js:22 | the kept lines are non-blank; there are none exactly when every line is blank; nothing is dropped when no line is blank |
| Csv.NonBlankAppend | server.js:22 | the kept lines of two runs are the kept lines of the first followed by those of the second |
| Csv.NonBlankOne | server.js:22 | a single line is kept exactly when it is not blank |
| Csv.Parse | server.js:22-39 | what `loadCsv` makes of the file text; its meaning is stated by ParsedHeaderLine, ParsedEmpty, ParsedRowCount, ParsedTrimmed, ParsedKeys and CsvRoundTrip |
| Csv.RowsOf | server.js:31-39 | one row per data line |
| Csv.BuildRow | server.js:33-38 | the `forEach` over the headers and the loop over the surplus cells build the row `RowOf` specifies |
| Csv.BuildRows | server.js:31-39 | the `map` over the data lines builds the rows `RowsOf` specifies, in order |
| Csv.FillKeys | server.js:34-37 | the keys of a partly built row are the keys of the columns assigned so far |
| Csv.FillValue | server.js:34-37 | a column whose key no later column reuses keeps its own cell |
| Csv.FillTrimmed | server.js:32-37 | every value stored from trimmed cells is trimmed |
| Csv.RowKeys | server.js:34-37 | a row has a key for every header (the header, or `Col{i+1}` when it is empty) and for every surplus cell, and no other key |
| Csv.RowValue | server.js:34-37 | a column whose key is not reused holds its cell, or `''` when the line is too short |
| Csv.RowsTrimmed | server.js:31-39 | every value of every row built from lines is trimmed |
| Csv.RowsKeys | server.js:31-39 | every row built from lines has every header key (`Col{i+1}` for an empty header) |
| Csv.ParsedTrimmed | server.js:29-38 | after loading, the delimiter is `;` or tab, and every header and every value is trimmed |
| Csv.ParsedKeys | server.js:30-38 | after loading, every row has a key for every header, and a non-empty header is its own key |
| Csv.NonBlankHead | server.js:22 | the first kept line is the first non-blank line |
| Csv.ParsedHeaderLine | server.js:16-30 | the first non-blank line decides the delimiter (`;` when it holds one, tab otherwise) and its cells are the headers |
| Csv.ParsedEmpty | server.js:22-28 | a file has no headers exactly when all its lines are blank, and then it loads as empty headers, empty rows and `;` |
| Csv.ParsedRowCount | server.js:29-39 | a file with headers has one row per kept line after the header line, in order; with NonBlankAppend and NonBlankOne, the kept lines are the non-blank lines in file order |
| Csv.ParsedWhitespace | server.js:22-28 | text made of whitespace only loads as the empty table |
| Csv.RowCells | server.js:47 | one cell is written per header |
| Csv.CsvLines | server.js:44-49 | the header line, then one line per row |
| Csv.CsvText | server.js:43-51 | `rowsToCsv`; its meaning is stated by CsvRoundTrip and CsvRoundTripExact |
| Csv.CleanCells | server.js:47 | the cells written for a row with clean values are clean |
| Csv.CellsOfClean | server.js:30-32 | clean cells joined with the delimiter are cut back into the same cells |
| Csv.RowOfDistinct | server.js:34 | with distinct non-empty headers and one cell each, the row maps each header to its cell and has no other key |
| Csv.RowOfRowCells | server.js:34-47 | reading back the cells written for a row gives the row cut down to the headers, with `''` for a missing field |
| Csv.RowRoundTrip | server.js:43-51 | reading back the line written for a row gives the row cut down to the headers |
| Csv.LineCells | server.js:47-48 | the line of a row with clean values is cut back into its cells |
| Csv.CsvLinesClean | server.js:43-51 | no written line holds `'\n'`, ends in `'\r'`, or is blank |
| Csv.HeaderLineRoundTrip | server.js:45 | the written header line makes `detectDelimiter` choose the same delimiter and is cut back into the same headers |
| Csv.CsvTextLines | server.js:43-51 | the lines `loadCsv` keeps from the written text are the written lines |
| Csv.DataLinesRoundTrip | server.js:46-49 | the written data lines are read back as the rows cut down to the headers |
| Csv.CsvRoundTrip | server.js:43-51 | writing a table and loading the text gives the same headers and delimiter, and every row cut down to the header columns: surplus `Col{n}` cells and fields outside the headers are not written back |
| Csv.CsvRoundTripExact | server.js:43-51 | when every row holds exactly the header columns, writing and loading gives back the same table |
| Records.IsIdName | server.js:54 | `h.toLowerCase() === 'id'`; FindIdKey states the column it selects |
| Records.FindIdKey | server.js:53-55 | there is no ID column exactly when no header is `id` in any case; otherwise it is the first such header |
| Records.Matches | server.js:66 | `r[idKey] === id`: the row has the ID column and it holds the ID; FirstMatch states the row it selects |
| Records.FirstMatch | server.js:101 | the index found holds the ID and no earlier row does; none is found exactly when no row holds it |
| Records.IdValue | server.js:75 | `Number(r[idKey])` when it is a decimal number; MaxNumericId and NextIdIsFresh state what it is used for |
| Records.MaxNumericId | server.js:74-77 | the result bounds every numeric ID, and it is 0 or the ID of some row |
| Records.NextIdIsFresh | server.js:74-81 | no row holds the decimal text of one above an upper bound of the numeric IDs |
| Records.Renumbered | server.js:110-112 | renumbering keeps the number of rows; row `i` holds ID `String(i+1)`; the keys are the old keys plus the ID column; every other field is unchanged |
| Records.FirstMatchAt | server.js:101 | a row that holds the ID, with no earlier row holding it, is the one found |
| Records.RenumberedLookup | server.js:107-113 | after renumbering, looking up ID `n` finds row `n-1` for every `n` from 1 to the number of rows |
| Records.RenumberedNoOtherIds | server.js:107-113 | after renumbering, no row holds an ID that is not a decimal number |
| Records.PatchKeepsLookups | server.js:91-94 | setting a field other than the ID column leaves every lookup by ID as it was |
| Store.RecordStore.constructor | server.js:12-14 | the state starts as empty headers, empty rows and `;` |
| Store.RecordStore.Load | server.js:20-39 | the new state is the table `Parse` makes of the file text, and every row has every non-empty header |
| Store.RecordStore.ToCsv | server.js:43-51 | the text produced is `CsvText` of the state, the function the round-trip lemmas are about |
| Store.RecordStore.GetRow | server.js:63-69 | 400 `Colonne ID absente` without an ID column; the reply is a row exactly when some row holds the ID, and then it is the first such row; 404 `Entrée non trouvée` otherwise |
| Store.RecordStore.AddRow | server.js:71-84 | 400 with no change without an ID column; otherwise the new row goes in front and the old rows follow unchanged. Its keys are exactly the headers, `''` everywhere but the ID column, and its ID is the decimal text of one above the largest numeric ID (1 when there is none). No old row holds that ID |
| Store.RecordStore.Patch | server.js:86-96 | errors come in order, each leaving the rows unchanged: no field 400, no ID column 400, no such row 404, ID column 400. Otherwise exactly the named field of the first matching row is set, to the value or `''`, and the reply is the updated row |
| Store.RecordStore.Delete | server.js:98-105 | 400 or 404 with no change; otherwise the first matching row is removed and returned, and the others keep their order: one fewer row, and the same multiset with the removed one |
| Store.RecordStore.Renumber | server.js:107-114 | 400 with no change without an ID column; otherwise the rows become `Renumbered` of the old rows and the reply is their number |
| Store.Pad2 | server.js:119 | below 100 the text has two characters and reads back as the number |

## Left out

- File I/O and the clock: reading and writing `Data/Qui.csv`, the backup copy and its time-stamped path, and `new Date()`. The file text is a parameter of `Load`, and `ToCsv` returns the text to write. Only `pad2` is modelled, as `Pad2`.
- Express plumbing: routing, JSON request and response bodies, static files, `app.listen` and `console` logging. A `Reply` replaces the status and the JSON body.
- `GET /api/data` only returns the state, so it has no member of its own. `POST /api/save` is `ToCsv` plus file I/O. `POST /api/reload` is `Load` plus file I/O.
- `/api/export/js` is text templating around `JSON.stringify` followed by a file write. It is not part of this model.
- The generated data files `QuiMaquette.js` and `web/QuiMaquette.js` are data literals and a browser callback, with no logic. They are not part of this model.
- The genealogy lineage tree builder and renderer are not part of this model: their code is not in these sources.
- Records.MaxNumericId: `Number(s)` is modelled on non-empty runs of decimal digits only. JavaScript also accepts other text that the model skips, for example:
  - a leading `+` (`+7`);
  - exponents (`1e3`) and fractions (`1.5`);
  - the prefixes `0x`, `0b` and `0o` (`0x10`, `0b11`);
  - the floating-point precision of IDs above 2^53.
- `Number("")` is 0 in JavaScript but skipped here. This is harmless because the maximum starts at 0.
- Store.RecordStore.Patch: `field` and `value` are strings or absent. JSON numbers, booleans and objects in the request body are not modelled. An empty `field` counts as missing, as `!field` does.
- Rows are maps, so the insertion order of an object's keys is not modelled. That order matters only for JSON output.
- A key such as `__proto__`, which a JavaScript object does not store as an own property, is treated as an ordinary key.
- `toLowerCase` is modelled on `A` to `Z` only. No other UTF-16 code unit lowers to `i` or `d`, so `IsIdName` decides `h.toLowerCase() === 'id'` exactly.
- A Dafny `char` is a Unicode scalar value, while a JavaScript string is a sequence of UTF-16 code units. Characters outside the Basic Multilingual Plane (two code units in JavaScript, one `char` here) and lone surrogates are not modelled. None of the operations here treats them specially.
- Csv.CsvRoundTrip: the round trip is proved only when all of the following hold:
  - the headers are non-empty, distinct and clean;
  - the values under the headers are trimmed and hold neither the delimiter nor `\n`;
  - no row is written as a blank line;
  - with a tab delimiter, no header holds a `;`;
  - with a `;` delimiter, there are at least two headers. A single header is written without any `;`, so reading it back chooses tab.

  A `\r` inside a value is allowed: trimmed values never end a written line with `\r`, and `/\r?\n/` keeps a `\r` inside a line. Duplicate and empty headers are excluded because later columns overwrite earlier keys and empty headers are read back as `Col{i+1}` keys.
