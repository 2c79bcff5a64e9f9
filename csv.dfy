/** The CSV side of the record store in server.js: reading the text of the
    data file into headers, rows and a delimiter (`detectDelimiter` and the
    parsing in `loadCsv`), and writing a table back as text (`rowsToCsv`). */
module Csv {
  import opened JsText

  /** A row maps a column name to the text of its cell. */
  type Row = map<string, string>

  /** What `loadCsv` leaves in the module state. */
  datatype Table = Table(headers: seq<string>, rows: seq<Row>, delimiter: char)

  /** `detectDelimiter`: a semicolon when the line holds one, a tab otherwise. */
  function DetectDelimiter(line: string): char {
    if ';' in line then ';' else '\t'
  }

  /** The cells of a line: the pieces between delimiters, each trimmed. */
  function Cells(line: string, d: char): seq<string> {
    var parts := Split(line, d);
    seq(|parts|, i requires 0 <= i < |parts| => Trim(parts[i]))
  }

  /** A line has at least one cell, and every cell is trimmed. */
  lemma CellsTrimmed(line: string, d: char)
    ensures |Cells(line, d)| >= 1
    ensures forall i :: 0 <= i < |Cells(line, d)| ==> Trimmed(Cells(line, d)[i])
  {
  }

  /** The name `Col{i+1}` given to the 0-based column `i`. */
  function ColName(i: nat): string {
    "Col" + DecimalString(i + 1)
  }

  /** The key column `i` is stored under: its header when that is not empty,
      `Col{i+1}` for an empty header and for a cell beyond the headers. */
  function ColumnKey(headers: seq<string>, i: nat): string {
    if i < |headers| && headers[i] != "" then headers[i] else ColName(i)
  }

  /** The cell of column `i`, or `''` when the line is too short. */
  function CellAt(cells: seq<string>, i: nat): string {
    if i < |cells| then cells[i] else ""
  }

  /** The row after the first `n` column assignments of `loadCsv`, made in
      column order, so that a later column with the same key overwrites an
      earlier one. */
  function Fill(headers: seq<string>, cells: seq<string>, n: nat): Row {
    if n == 0 then map[]
    else Fill(headers, cells, n - 1)[ColumnKey(headers, n - 1) := CellAt(cells, n - 1)]
  }

  /** The number of columns a line fills: every header, and every surplus cell. */
  function Width(headers: seq<string>, cells: seq<string>): nat {
    if |cells| > |headers| then |cells| else |headers|
  }

  /** The row `loadCsv` builds from the headers and the cells of one line. */
  function RowOf(headers: seq<string>, cells: seq<string>): Row {
    Fill(headers, cells, Width(headers, cells))
  }

  /** The lines that are not blank, in their order (the `filter` in `loadCsv`). */
  function NonBlank(ls: seq<string>): seq<string> {
    if ls == [] then []
    else (if IsBlank(ls[0]) then [] else [ls[0]]) + NonBlank(ls[1..])
  }

  /** The kept lines are not blank, there are none exactly when every line
      is blank, and nothing is dropped when no line is blank. */
  lemma {:induction false} NonBlankKept(ls: seq<string>)
    ensures |NonBlank(ls)| <= |ls|
    ensures forall i :: 0 <= i < |NonBlank(ls)| ==> !IsBlank(NonBlank(ls)[i])
    ensures NonBlank(ls) == [] <==> forall i :: 0 <= i < |ls| ==> IsBlank(ls[i])
    ensures (forall i :: 0 <= i < |ls| ==> !IsBlank(ls[i])) ==> NonBlank(ls) == ls
  {
    if ls != [] {
      NonBlankKept(ls[1..]);
      assert forall i :: 1 <= i < |ls| ==> ls[i] == ls[1..][i - 1];
      if !IsBlank(ls[0]) {
        assert NonBlank(ls) == [ls[0]] + NonBlank(ls[1..]);
      }
    }
  }

  /** `NonBlank` filters: the kept lines of two runs of lines are the kept
      lines of the first run followed by those of the second. */
  lemma {:induction false} NonBlankAppend(a: seq<string>, b: seq<string>)
    ensures NonBlank(a + b) == NonBlank(a) + NonBlank(b)
  {
    if a == [] {
      assert a + b == b;
    } else {
      assert (a + b)[0] == a[0] && (a + b)[1..] == a[1..] + b;
      NonBlankAppend(a[1..], b);
      if IsBlank(a[0]) {
        assert NonBlank(a + b) == NonBlank(a[1..] + b);
        assert NonBlank(a) == NonBlank(a[1..]);
      } else {
        assert NonBlank(a + b) == [a[0]] + NonBlank(a[1..] + b);
        assert NonBlank(a) == [a[0]] + NonBlank(a[1..]);
      }
    }
  }

  /** A single line is kept exactly when it is not blank. */
  lemma NonBlankOne(l: string)
    ensures NonBlank([l]) == if IsBlank(l) then [] else [l]
  {
  }

  /** What `loadCsv` makes of the text `raw` of the data file. */
  function Parse(raw: string): Table {
    var lines := NonBlank(Lines(raw));
    if lines == [] then Table([], [], ';')
    else
      var d := DetectDelimiter(lines[0]);
      var headers := Cells(lines[0], d);
      Table(headers, RowsOf(headers, lines[1..], d), d)
  }

  /** The rows `loadCsv` builds from the data lines, one per line, in order. */
  function RowsOf(headers: seq<string>, lines: seq<string>, d: char): (r: seq<Row>)
    ensures |r| == |lines|
  {
    seq(|lines|, i requires 0 <= i < |lines| => RowOf(headers, Cells(lines[i], d)))
  }

  /** The callback `loadCsv` maps over the data lines, once the line is cut
      into cells: a key for every header, then one for every surplus cell. */
  method BuildRow(headers: seq<string>, cells: seq<string>) returns (row: Row)
    ensures row == RowOf(headers, cells)
  {
    row := map[];
    var i := 0;
    while i < |headers|
      invariant 0 <= i <= |headers|
      invariant row == Fill(headers, cells, i)
    {
      row := row[ColumnKey(headers, i) := CellAt(cells, i)];
      i := i + 1;
    }
    var j := |headers|;
    while j < |cells|
      invariant |headers| <= j <= Width(headers, cells)
      invariant row == Fill(headers, cells, j)
    {
      // past the headers, ColumnKey is `Col{j+1}`
      row := row[ColumnKey(headers, j) := cells[j]];
      j := j + 1;
    }
  }

  /** The `map` of `loadCsv` over the data lines (all lines after the
      header line): one row per line, in order. */
  method BuildRows(headers: seq<string>, lines: seq<string>, d: char) returns (rows: seq<Row>)
    ensures rows == RowsOf(headers, lines, d)
  {
    rows := [];
    var k := 0;
    while k < |lines|
      invariant 0 <= k <= |lines|
      invariant rows == RowsOf(headers, lines[..k], d)
    {
      var row := BuildRow(headers, Cells(lines[k], d));
      assert lines[..k + 1] == lines[..k] + [lines[k]];
      rows := rows + [row];
      k := k + 1;
    }
    assert lines[..k] == lines;
  }

  /** The keys of a partly built row are the keys of the columns assigned so far. */
  lemma {:induction false} FillKeys(headers: seq<string>, cells: seq<string>, n: nat)
    ensures Fill(headers, cells, n).Keys == set i | 0 <= i < n :: ColumnKey(headers, i)
  {
    if n > 0 {
      FillKeys(headers, cells, n - 1);
      assert (set i | 0 <= i < n :: ColumnKey(headers, i))
          == (set i | 0 <= i < n - 1 :: ColumnKey(headers, i)) + {ColumnKey(headers, n - 1)};
    }
  }

  /** A column whose key no later column reuses keeps its own cell. */
  lemma {:induction false} FillValue(headers: seq<string>, cells: seq<string>, n: nat, i: nat)
    requires i < n
    requires forall k :: i < k < n ==> ColumnKey(headers, k) != ColumnKey(headers, i)
    ensures ColumnKey(headers, i) in Fill(headers, cells, n)
    ensures Fill(headers, cells, n)[ColumnKey(headers, i)] == CellAt(cells, i)
  {
    if i < n - 1 {
      FillValue(headers, cells, n - 1, i);
    }
  }

  /** When every cell is trimmed, so is every value of the row. */
  lemma {:induction false} FillTrimmed(headers: seq<string>, cells: seq<string>, n: nat)
    requires forall i :: 0 <= i < |cells| ==> Trimmed(cells[i])
    ensures forall k :: k in Fill(headers, cells, n) ==> Trimmed(Fill(headers, cells, n)[k])
  {
    if n > 0 {
      FillTrimmed(headers, cells, n - 1);
    }
  }

  /** A parsed row has a key for every header (its name, or `Col{i+1}` when
      it is empty) and for every surplus cell, and no other key. */
  lemma RowKeys(headers: seq<string>, cells: seq<string>)
    ensures forall i :: 0 <= i < Width(headers, cells) ==> ColumnKey(headers, i) in RowOf(headers, cells)
    ensures forall k :: k in RowOf(headers, cells) ==>
      exists i :: 0 <= i < Width(headers, cells) && ColumnKey(headers, i) == k
  {
    FillKeys(headers, cells, Width(headers, cells));
  }

  /** A column whose key no later column reuses holds its own cell, or `''`
      when the line has no cell there; in particular every column does when
      the keys are distinct. */
  lemma RowValue(headers: seq<string>, cells: seq<string>, i: nat)
    requires i < Width(headers, cells)
    requires forall k :: i < k < Width(headers, cells) ==> ColumnKey(headers, k) != ColumnKey(headers, i)
    ensures ColumnKey(headers, i) in RowOf(headers, cells)
    ensures RowOf(headers, cells)[ColumnKey(headers, i)] == CellAt(cells, i)
  {
    FillValue(headers, cells, Width(headers, cells), i);
  }

  /** Every value of every row built from lines is trimmed. */
  lemma RowsTrimmed(headers: seq<string>, lines: seq<string>, d: char)
    ensures forall n, k :: 0 <= n < |lines| && k in RowsOf(headers, lines, d)[n] ==> Trimmed(RowsOf(headers, lines, d)[n][k])
  {
    forall n | 0 <= n < |lines| ensures forall k :: k in RowsOf(headers, lines, d)[n] ==> Trimmed(RowsOf(headers, lines, d)[n][k]) {
      var cells := Cells(lines[n], d);
      FillTrimmed(headers, cells, Width(headers, cells));
    }
  }

  /** Every row built from lines has a key for every header. */
  lemma RowsKeys(headers: seq<string>, lines: seq<string>, d: char)
    ensures forall n, i :: 0 <= n < |lines| && 0 <= i < |headers| ==> ColumnKey(headers, i) in RowsOf(headers, lines, d)[n]
    ensures forall n, i :: 0 <= n < |lines| && 0 <= i < |headers| && headers[i] != "" ==> headers[i] in RowsOf(headers, lines, d)[n]
  {
    forall n | 0 <= n < |lines| ensures forall i :: 0 <= i < |headers| ==> ColumnKey(headers, i) in RowsOf(headers, lines, d)[n] {
      RowKeys(headers, Cells(lines[n], d));
    }
    assert forall i :: 0 <= i < |headers| && headers[i] != "" ==> ColumnKey(headers, i) == headers[i];
  }

  /** A parsed table has a tab or a semicolon as delimiter, and its headers
      and all its values are trimmed. */
  lemma ParsedTrimmed(raw: string)
    ensures Parse(raw).delimiter == ';' || Parse(raw).delimiter == '\t'
    ensures forall i :: 0 <= i < |Parse(raw).headers| ==> Trimmed(Parse(raw).headers[i])
    ensures forall n, k :: 0 <= n < |Parse(raw).rows| && k in Parse(raw).rows[n] ==> Trimmed(Parse(raw).rows[n][k])
  {
    var lines := NonBlank(Lines(raw));
    if lines != [] {
      var t := Parse(raw);
      RowsTrimmed(t.headers, lines[1..], t.delimiter);
    }
  }

  /** Every parsed row has a key for every header: the header itself, or
      `Col{i+1}` when it is empty. */
  lemma ParsedKeys(raw: string)
    ensures forall n, i :: 0 <= n < |Parse(raw).rows| && 0 <= i < |Parse(raw).headers| ==>
      ColumnKey(Parse(raw).headers, i) in Parse(raw).rows[n]
    ensures forall n, i :: 0 <= n < |Parse(raw).rows| && 0 <= i < |Parse(raw).headers| && Parse(raw).headers[i] != "" ==>
      Parse(raw).headers[i] in Parse(raw).rows[n]
  {
    var lines := NonBlank(Lines(raw));
    if lines != [] {
      var t := Parse(raw);
      RowsKeys(t.headers, lines[1..], t.delimiter);
    }
  }

  lemma {:induction false} NonBlankHead(ls: seq<string>, k: nat)
    requires k < |ls| && !IsBlank(ls[k])
    requires forall j :: 0 <= j < k ==> IsBlank(ls[j])
    ensures NonBlank(ls) != [] && NonBlank(ls)[0] == ls[k]
  {
    if k > 0 {
      NonBlankHead(ls[1..], k - 1);
    }
  }

  /** The first line that is not blank decides: its cells are the headers,
      and the delimiter is a semicolon when it holds one, a tab otherwise. */
  lemma ParsedHeaderLine(raw: string, k: nat)
    requires k < |Lines(raw)| && !IsBlank(Lines(raw)[k])
    requires forall j :: 0 <= j < k ==> IsBlank(Lines(raw)[j])
    ensures Parse(raw).delimiter == (if ';' in Lines(raw)[k] then ';' else '\t')
    ensures Parse(raw).headers == Cells(Lines(raw)[k], Parse(raw).delimiter)
  {
    NonBlankHead(Lines(raw), k);
  }

  /** A file with no line that is not blank loads as the empty table with a
      semicolon delimiter, and only such a file loads without headers. */
  lemma ParsedEmpty(raw: string)
    ensures Parse(raw).headers == [] <==> forall i :: 0 <= i < |Lines(raw)| ==> IsBlank(Lines(raw)[i])
    ensures Parse(raw).headers == [] ==> Parse(raw) == Table([], [], ';')
  {
    NonBlankKept(Lines(raw));
  }

  /** A file with headers has one row per non-blank line after the header
      line, in file order. */
  lemma ParsedRowCount(raw: string)
    requires Parse(raw).headers != []
    ensures |Parse(raw).rows| == |NonBlank(Lines(raw))| - 1
    ensures forall n :: 0 <= n < |Parse(raw).rows| ==>
      Parse(raw).rows[n] == RowOf(Parse(raw).headers, Cells(NonBlank(Lines(raw))[n + 1], Parse(raw).delimiter))
  {
  }

  /** Text made of whitespace only loads as the empty table. */
  lemma ParsedWhitespace(raw: string)
    requires forall i :: 0 <= i < |raw| ==> IsWs(raw[i])
    ensures Parse(raw) == Table([], [], ';')
  {
    NonBlankKept(Lines(raw));
    LinesChars(raw);
    forall i | 0 <= i < |Lines(raw)| ensures IsBlank(Lines(raw)[i]) {
      var l := Lines(raw)[i];
      forall j | 0 <= j < |l| ensures IsWs(l[j]) {
        assert l[j] in raw;
      }
    }
  }

  // Writing a table back as text

  /** `(row[h] ?? '')`: the text written for header `h`. */
  function CellText(row: Row, h: string): string {
    if h in row then row[h] else ""
  }

  /** The cells written for a row: one per header, in header order. */
  function RowCells(headers: seq<string>, row: Row): (r: seq<string>)
    ensures |r| == |headers|
  {
    seq(|headers|, i requires 0 <= i < |headers| => CellText(row, headers[i]))
  }

  function RowLine(headers: seq<string>, row: Row, d: char): string {
    Join(RowCells(headers, row), d)
  }

  /** The header line, then one line per row. */
  function CsvLines(headers: seq<string>, rows: seq<Row>, d: char): (r: seq<string>)
    ensures |r| == |rows| + 1
  {
    [Join(headers, d)] + seq(|rows|, i requires 0 <= i < |rows| => RowLine(headers, rows[i], d))
  }

  /** `rowsToCsv`: the lines joined with `'\n'`. */
  function CsvText(headers: seq<string>, rows: seq<Row>, d: char): string {
    Join(CsvLines(headers, rows, d), '\n')
  }

  /** A row cut down to the header columns, with `''` for a missing one:
      what survives a write and a read. */
  function Project(row: Row, headers: seq<string>): Row {
    map h | h in headers :: CellText(row, h)
  }

  /** Text that is read back as it was written: trimmed, with no delimiter
      and no `'\n'` in it. */
  predicate CleanText(s: string, d: char) {
    Trimmed(s) && d !in s && '\n' !in s
  }

  /** The headers of a table that can be written and read back: at least one,
      none empty, all distinct and clean, and the header line must make
      `detectDelimiter` choose the same delimiter again. */
  predicate WritableHeaders(headers: seq<string>, d: char) {
    && (d == ';' || d == '\t')
    && |headers| >= 1
    && (forall i :: 0 <= i < |headers| ==> headers[i] != "" && CleanText(headers[i], d))
    && (forall i, j :: 0 <= i < j < |headers| ==> headers[i] != headers[j])
    && (d == ';' ==> |headers| >= 2)
    && (d == '\t' ==> forall i :: 0 <= i < |headers| ==> ';' !in headers[i])
  }

  /** The values a row holds under the headers are clean. */
  predicate CleanRow(headers: seq<string>, row: Row, d: char) {
    forall h :: h in headers && h in row ==> CleanText(row[h], d)
  }

  /** A row that can be written and read back: its header values are clean
      and its line is not blank. */
  predicate WritableRow(headers: seq<string>, row: Row, d: char) {
    CleanRow(headers, row, d) && !IsBlank(RowLine(headers, row, d))
  }

  lemma CleanCells(headers: seq<string>, row: Row, d: char)
    requires CleanRow(headers, row, d)
    ensures forall i :: 0 <= i < |headers| ==> CleanText(RowCells(headers, row)[i], d)
  {
    forall i | 0 <= i < |headers| ensures CleanText(RowCells(headers, row)[i], d) {
      var h := headers[i];
      if h in row { assert CleanText(row[h], d); }
    }
  }

  lemma CellsOfClean(xs: seq<string>, d: char)
    requires |xs| >= 1
    requires forall i :: 0 <= i < |xs| ==> CleanText(xs[i], d)
    ensures Cells(Join(xs, d), d) == xs
  {
    SplitJoin(xs, d);
  }

  /** With distinct non-empty headers and one cell per header, the row maps
      each header to its own cell and has no other key. */
  lemma RowOfDistinct(headers: seq<string>, cells: seq<string>)
    requires |cells| == |headers|
    requires forall i :: 0 <= i < |headers| ==> headers[i] != ""
    requires forall i, j :: 0 <= i < j < |headers| ==> headers[i] != headers[j]
    ensures forall i :: 0 <= i < |headers| ==> headers[i] in RowOf(headers, cells) && RowOf(headers, cells)[headers[i]] == cells[i]
    ensures forall k :: k in RowOf(headers, cells) ==> k in headers
  {
    assert forall i :: 0 <= i < |headers| ==> ColumnKey(headers, i) == headers[i];
    RowKeys(headers, cells);
    forall i | 0 <= i < |headers|
      ensures headers[i] in RowOf(headers, cells) && RowOf(headers, cells)[headers[i]] == cells[i]
    {
      RowValue(headers, cells, i);
    }
  }

  /** The row built from the cells written for a row is that row cut down
      to the headers. */
  lemma RowOfRowCells(headers: seq<string>, row: Row)
    requires forall i :: 0 <= i < |headers| ==> headers[i] != ""
    requires forall i, j :: 0 <= i < j < |headers| ==> headers[i] != headers[j]
    ensures RowOf(headers, RowCells(headers, row)) == Project(row, headers)
  {
    var cs := RowCells(headers, row);
    RowOfDistinct(headers, cs);
    var r := RowOf(headers, cs);
    var p := Project(row, headers);
    forall h | h in p ensures h in r && r[h] == p[h] {
      var i :| 0 <= i < |headers| && headers[i] == h;
    }
    assert r.Keys == p.Keys;
  }

  /** Reading back the line of a row gives the row cut down to the headers. */
  lemma RowRoundTrip(headers: seq<string>, row: Row, d: char)
    requires WritableHeaders(headers, d) && CleanRow(headers, row, d)
    ensures RowOf(headers, Cells(RowLine(headers, row, d), d)) == Project(row, headers)
  {
    calc {
      RowOf(headers, Cells(RowLine(headers, row, d), d));
    == { LineCells(headers, row, d); }
      RowOf(headers, RowCells(headers, row));
    == { RowOfRowCells(headers, row); }
      Project(row, headers);
    }
  }

  /** The line of a row with clean values is cut back into its cells. */
  lemma LineCells(headers: seq<string>, row: Row, d: char)
    requires |headers| >= 1 && CleanRow(headers, row, d)
    ensures Cells(RowLine(headers, row, d), d) == RowCells(headers, row)
  {
    CleanCells(headers, row, d);
    CellsOfClean(RowCells(headers, row), d);
  }

  /** The lines of a writable table hold no `'\n'`, none ends in `'\r'`,
      and none is blank. */
  lemma CsvLinesClean(headers: seq<string>, rows: seq<Row>, d: char)
    requires WritableHeaders(headers, d)
    requires forall i :: 0 <= i < |rows| ==> WritableRow(headers, rows[i], d)
    ensures forall i :: 0 <= i < |rows| + 1 ==>
      '\n' !in CsvLines(headers, rows, d)[i] && !EndsInCr(CsvLines(headers, rows, d)[i]) && !IsBlank(CsvLines(headers, rows, d)[i])
  {
    var lines := CsvLines(headers, rows, d);
    forall i | 0 <= i < |lines| ensures '\n' !in lines[i] && !EndsInCr(lines[i]) && !IsBlank(lines[i]) {
      if i == 0 {
        JoinAvoids(headers, d, '\n');
        JoinNotEndsInCr(headers, d);
        assert lines[0][0] == headers[0][0];
      } else {
        var cs := RowCells(headers, rows[i - 1]);
        CleanCells(headers, rows[i - 1], d);
        JoinAvoids(cs, d, '\n');
        JoinNotEndsInCr(cs, d);
      }
    }
  }

  /** The header line of a writable table is read back as the same headers
      with the same delimiter. */
  lemma HeaderLineRoundTrip(headers: seq<string>, d: char)
    requires WritableHeaders(headers, d)
    ensures DetectDelimiter(Join(headers, d)) == d
    ensures Cells(Join(headers, d), d) == headers
  {
    if d == ';' {
      JoinHasSeparator(headers, d);
    } else {
      JoinAvoids(headers, d, ';');
    }
    CellsOfClean(headers, d);
  }

  /** Writing a table and reading the text back gives the same headers and
      delimiter, and each row cut down to the header columns: `rowsToCsv`
      drops surplus `Col{n}` cells and fields outside the headers. */
  lemma CsvRoundTrip(headers: seq<string>, rows: seq<Row>, d: char)
    requires WritableHeaders(headers, d)
    requires forall i :: 0 <= i < |rows| ==> WritableRow(headers, rows[i], d)
    ensures Parse(CsvText(headers, rows, d))
         == Table(headers, seq(|rows|, i requires 0 <= i < |rows| => Project(rows[i], headers)), d)
  {
    CsvTextLines(headers, rows, d);
    HeaderLineRoundTrip(headers, d);
    DataLinesRoundTrip(headers, rows, d);
  }

  /** The non-blank lines of the text of a writable table are its lines. */
  lemma CsvTextLines(headers: seq<string>, rows: seq<Row>, d: char)
    requires WritableHeaders(headers, d)
    requires forall i :: 0 <= i < |rows| ==> WritableRow(headers, rows[i], d)
    ensures NonBlank(Lines(CsvText(headers, rows, d))) == CsvLines(headers, rows, d)
  {
    CsvLinesClean(headers, rows, d);
    LinesJoin(CsvLines(headers, rows, d));
    NonBlankKept(CsvLines(headers, rows, d));
  }

  /** The data lines of a writable table are read back as its rows cut down
      to the headers. */
  lemma DataLinesRoundTrip(headers: seq<string>, rows: seq<Row>, d: char)
    requires WritableHeaders(headers, d)
    requires forall i :: 0 <= i < |rows| ==> CleanRow(headers, rows[i], d)
    ensures RowsOf(headers, CsvLines(headers, rows, d)[1..], d)
         == seq(|rows|, i requires 0 <= i < |rows| => Project(rows[i], headers))
  {
    var data := CsvLines(headers, rows, d)[1..];
    var lhs := RowsOf(headers, data, d);
    var rhs := seq(|rows|, i requires 0 <= i < |rows| => Project(rows[i], headers));
    assert |lhs| == |rhs|;
    forall i | 0 <= i < |rows| ensures lhs[i] == rhs[i] {
      assert data[i] == RowLine(headers, rows[i], d);
      RowRoundTrip(headers, rows[i], d);
    }
  }

  /** When every row holds exactly the header columns, writing and reading
      back gives the same table. */
  lemma CsvRoundTripExact(headers: seq<string>, rows: seq<Row>, d: char)
    requires WritableHeaders(headers, d)
    requires forall i :: 0 <= i < |rows| ==> WritableRow(headers, rows[i], d)
    requires forall i, h :: 0 <= i < |rows| ==> (h in rows[i] <==> h in headers)
    ensures Parse(CsvText(headers, rows, d)) == Table(headers, rows, d)
  {
    CsvRoundTrip(headers, rows, d);
    forall i | 0 <= i < |rows| ensures Project(rows[i], headers) == rows[i] {
    }
  }
}
