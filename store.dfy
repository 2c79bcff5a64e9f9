/** The record store of server.js: the module state `headers`, `rows` and
    `delimiter`, and the routes that read and change it. An HTTP reply is a
    `Reply`: the payload of a success, or the status code and error text of
    a failure. */
module Store {
  import opened JsText
  import opened Csv
  import opened Records

  datatype Reply<T> = Ok(value: T) | Err(status: nat, message: string)

  const NoIdColumn := "Colonne ID absente"
  const NotFound := "Entrée non trouvée"
  const NoField := "Champ manquant"
  const IdLocked := "ID non modifiable"

  class RecordStore {
    var headers: seq<string>
    var rows: seq<Row>
    var delimiter: char

    /** The delimiter is one `detectDelimiter` can choose, and every row has
        a key for every non-empty header. */
    ghost predicate Valid()
      reads this
    {
      && (delimiter == ';' || delimiter == '\t')
      && forall i, j :: 0 <= i < |rows| && 0 <= j < |headers| && headers[j] != "" ==> headers[j] in rows[i]
    }

    /** The module state before the first `loadCsv`. */
    constructor ()
      ensures Valid()
      ensures headers == [] && rows == [] && delimiter == ';'
    {
      headers := [];
      rows := [];
      delimiter := ';';
    }

    /** `loadCsv` (also `POST /api/reload`), given the text of the data file. */
    method Load(raw: string)
      modifies this
      ensures Valid()
      ensures Table(headers, rows, delimiter) == Parse(raw)
    {
      var lines := NonBlank(Lines(raw));
      if lines == [] {
        headers := [];
        rows := [];
        delimiter := ';';
        return;
      }
      var d := DetectDelimiter(lines[0]);
      var hs := Cells(lines[0], d);
      var parsed := BuildRows(hs, lines[1..], d);
      assert Table(hs, parsed, d) == Parse(raw);
      ParsedKeys(raw);
      headers, rows, delimiter := hs, parsed, d;
    }

    /** `rowsToCsv`: the text `POST /api/save` writes to the data file. */
    method ToCsv() returns (csv: string)
      ensures csv == CsvText(headers, rows, delimiter)
    {
      var hs, rs, d := headers, rows, delimiter;
      var lines := [Join(hs, d)];
      var k := 0;
      while k < |rs|
        invariant 0 <= k <= |rs|
        invariant lines == [Join(hs, d)] + seq(k, i requires 0 <= i < k => RowLine(hs, rs[i], d))
      {
        var row := rs[k];
        var cells := seq(|hs|, i requires 0 <= i < |hs| => if hs[i] in row then row[hs[i]] else "");
        assert cells == RowCells(hs, row);
        lines := lines + [Join(cells, d)];
        k := k + 1;
      }
      assert lines == CsvLines(hs, rs, d);
      csv := Join(lines, '\n');
    }

    /** `GET /api/row/:id`: the first row holding `id` in the ID column. */
    function GetRow(id: string): (r: Reply<Row>)
      reads this
      ensures FindIdKey(headers).None? ==> r == Err(400, NoIdColumn)
      ensures FindIdKey(headers).Some? ==>
        (r.Ok? <==> exists i :: 0 <= i < |rows| && Matches(rows[i], FindIdKey(headers).value, id))
      ensures FindIdKey(headers).Some? && r.Ok? ==>
        exists i :: 0 <= i < |rows| && r.value == rows[i] && Matches(rows[i], FindIdKey(headers).value, id)
                    && forall j :: 0 <= j < i ==> !Matches(rows[j], FindIdKey(headers).value, id)
      ensures FindIdKey(headers).Some? && r.Err? ==> r == Err(404, NotFound)
    {
      match FindIdKey(headers)
      case None => Err(400, NoIdColumn)
      case Some(key) =>
        match FirstMatch(rows, key, id)
        case None => Err(404, NotFound)
        case Some(i) => Ok(rows[i])
    }

    /** `POST /api/row`: a new row with `''` in every header column and the
        next ID (one above the largest numeric ID) goes in front. */
    method AddRow() returns (r: Reply<Row>)
      requires Valid()
      modifies this
      ensures Valid() && headers == old(headers) && delimiter == old(delimiter)
      ensures FindIdKey(headers).None? ==> r == Err(400, NoIdColumn) && rows == old(rows)
      ensures FindIdKey(headers).Some? ==> r.Ok? && rows == [r.value] + old(rows)
      ensures FindIdKey(headers).Some? ==>
        var key := FindIdKey(headers).value;
        && (forall h :: h in r.value <==> h in headers)
        && (forall h :: h in headers && h != key ==> r.value[h] == "")
        && IdValue(r.value, key).Some?
        && r.value[key] == DecimalString(IdValue(r.value, key).value)
        && (forall i :: 0 <= i < |old(rows)| && IdValue(old(rows)[i], key).Some? ==>
              IdValue(old(rows)[i], key).value < IdValue(r.value, key).value)
        && (IdValue(r.value, key).value == 1 ||
              exists i :: 0 <= i < |old(rows)| && IdValue(old(rows)[i], key) == Some(IdValue(r.value, key).value - 1))
        && (forall i :: 0 <= i < |old(rows)| ==> !Matches(old(rows)[i], key, r.value[key]))
    {
      var found := FindIdKey(headers);
      if found.None? {
        r := Err(400, NoIdColumn);
        return;
      }
      var key := found.value;
      var maxId := MaxNumericId(rows, key);
      var newId := DecimalString(maxId + 1);
      var newRow: Row := map[];
      var i := 0;
      while i < |headers|
        invariant 0 <= i <= |headers|
        invariant forall h :: h in newRow <==> h in headers[..i]
        invariant forall h :: h in newRow ==> newRow[h] == ""
      {
        newRow := newRow[headers[i] := ""];
        i := i + 1;
      }
      assert headers[..i] == headers;
      newRow := newRow[key := newId];
      DecimalRoundTrip(maxId + 1);
      NextIdIsFresh(rows, key, maxId);
      rows := [newRow] + rows;
      r := Ok(newRow);
    }

    /** `PATCH /api/row/:id`: sets one field of the first row holding `id`,
        to `value` or to `''` when there is none. The checks come in this
        order: a field name, an ID column, a row with that ID, a field other
        than the ID column. */
    method Patch(id: string, field: Option<string>, value: Option<string>) returns (r: Reply<Row>)
      requires Valid()
      modifies this
      ensures Valid() && headers == old(headers) && delimiter == old(delimiter)
      ensures (field.None? || field.value == "") ==> r == Err(400, NoField) && rows == old(rows)
      ensures field.Some? && field.value != "" && FindIdKey(headers).None? ==>
        r == Err(400, NoIdColumn) && rows == old(rows)
      ensures field.Some? && field.value != "" && FindIdKey(headers).Some? ==>
        var key := FindIdKey(headers).value;
        match FirstMatch(old(rows), key, id)
        case None => r == Err(404, NotFound) && rows == old(rows)
        case Some(i) =>
          if field.value == key then r == Err(400, IdLocked) && rows == old(rows)
          else
            && rows == old(rows)[i := old(rows)[i][field.value := if value.Some? then value.value else ""]]
            && r == Ok(rows[i])
    {
      if field.None? || field.value == "" {
        r := Err(400, NoField);
        return;
      }
      var found := FindIdKey(headers);
      if found.None? {
        r := Err(400, NoIdColumn);
        return;
      }
      var key := found.value;
      var at := FirstMatch(rows, key, id);
      if at.None? {
        r := Err(404, NotFound);
        return;
      }
      if field.value == key {
        r := Err(400, IdLocked);
        return;
      }
      var i := at.value;
      rows := rows[i := rows[i][field.value := if value.Some? then value.value else ""]];
      r := Ok(rows[i]);
    }

    /** `DELETE /api/row/:id`: removes the first row holding `id` and
        returns it; the other rows keep their order. */
    method Delete(id: string) returns (r: Reply<Row>)
      requires Valid()
      modifies this
      ensures Valid() && headers == old(headers) && delimiter == old(delimiter)
      ensures FindIdKey(headers).None? ==> r == Err(400, NoIdColumn) && rows == old(rows)
      ensures FindIdKey(headers).Some? ==>
        match FirstMatch(old(rows), FindIdKey(headers).value, id)
        case None => r == Err(404, NotFound) && rows == old(rows)
        case Some(i) => r == Ok(old(rows)[i]) && rows == old(rows)[..i] + old(rows)[i + 1..]
      ensures |rows| == |old(rows)| - (if r.Ok? then 1 else 0)
      ensures r.Ok? ==> multiset(old(rows)) == multiset(rows) + multiset{r.value}
    {
      var found := FindIdKey(headers);
      if found.None? {
        r := Err(400, NoIdColumn);
        return;
      }
      var at := FirstMatch(rows, found.value, id);
      if at.None? {
        r := Err(404, NotFound);
        return;
      }
      var i := at.value;
      var removed := rows[i];
      assert rows == rows[..i] + [removed] + rows[i + 1..];
      rows := rows[..i] + rows[i + 1..];
      r := Ok(removed);
    }

    /** `POST /api/renumber`: row `i` (from 0) gets the ID `String(i + 1)`;
        replies with the number of rows. */
    method Renumber() returns (r: Reply<nat>)
      requires Valid()
      modifies this
      ensures Valid() && headers == old(headers) && delimiter == old(delimiter)
      ensures FindIdKey(headers).None? ==> r == Err(400, NoIdColumn) && rows == old(rows)
      ensures FindIdKey(headers).Some? ==>
        r == Ok(|rows|) && rows == Renumbered(old(rows), FindIdKey(headers).value)
    {
      var found := FindIdKey(headers);
      if found.None? {
        r := Err(400, NoIdColumn);
        return;
      }
      var key := found.value;
      var index := 0;
      while index < |rows|
        invariant 0 <= index <= |rows| && |rows| == |old(rows)|
        invariant headers == old(headers) && delimiter == old(delimiter)
        invariant forall j :: 0 <= j < index ==> rows[j] == old(rows)[j][key := DecimalString(j + 1)]
        invariant forall j :: index <= j < |rows| ==> rows[j] == old(rows)[j]
      {
        rows := rows[index := rows[index][key := DecimalString(index + 1)]];
        index := index + 1;
      }
      r := Ok(|rows|);
    }
  }

  /** `pad2`: the decimal text of `n`, with a leading zero below 10. */
  function Pad2(n: nat): (r: string)
    ensures n < 100 ==> |r| == 2 && NumberValue(r) == Some(n)
  {
    var s := DecimalString(n);
    DecimalRoundTrip(n);
    if |s| < 2 then
      var r := "0" + s;
      assert r[..1] == "0" && r[..1][..0] == [];
      assert DigitsValue(r[..1]) == 0;
      assert r[..|r| - 1] == r[..1];
      r
    else
      assert n < 100 ==> |DecimalString(n / 10)| == 1;
      s
  }
}
