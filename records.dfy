/** The ID column of the record store in server.js and the searches and
    numbering built on it: `findIdKey`, the `find`/`findIndex` by ID in the
    `/api/row/:id` routes, the next ID of `POST /api/row` and the IDs that
    `POST /api/renumber` hands out. */
module Records {
  import opened JsText
  import opened Csv

  /** `c.toLowerCase()` on the letters A to Z. No other code unit lowers to
      `'i'` or `'d'`, so this decides `h.toLowerCase() === 'id'` exactly. */
  function LowerAscii(c: char): char {
    if 'A' <= c <= 'Z' then (c as int + 32) as char else c
  }

  /** `h.toLowerCase() === 'id'`. */
  predicate IsIdName(h: string) {
    |h| == 2 && LowerAscii(h[0]) == 'i' && LowerAscii(h[1]) == 'd'
  }

  /** `findIdKey`: the first header that is "id" in any case, if there is one. */
  function FindIdKey(headers: seq<string>): (r: Option<string>)
    ensures r.None? <==> forall i :: 0 <= i < |headers| ==> !IsIdName(headers[i])
    ensures r.Some? ==> exists i :: 0 <= i < |headers| && headers[i] == r.value && IsIdName(r.value)
                                    && forall j :: 0 <= j < i ==> !IsIdName(headers[j])
  {
    if headers == [] then None
    else if IsIdName(headers[0]) then Some(headers[0])
    else
      var r := FindIdKey(headers[1..]);
      assert r.Some? ==> exists i :: 1 <= i < |headers| && headers[i] == r.value && IsIdName(r.value)
                                     && forall j :: 0 <= j < i ==> !IsIdName(headers[j]) by {
        if r.Some? {
          var k :| 0 <= k < |headers[1..]| && headers[1..][k] == r.value && IsIdName(r.value)
                   && forall j :: 0 <= j < k ==> !IsIdName(headers[1..][j]);
          assert headers[k + 1] == r.value;
          assert forall j :: 1 <= j < k + 1 ==> headers[j] == headers[1..][j - 1];
        }
      }
      r
  }

  /** `r[idKey] === id`: a row that has the ID column, holding `id`. */
  predicate Matches(row: Row, key: string, id: string) {
    key in row && row[key] == id
  }

  /** `rows.findIndex(r => r[idKey] === id)`, with none for -1: the first
      row holding `id` in the ID column. */
  function FirstMatch(rows: seq<Row>, key: string, id: string): (r: Option<nat>)
    ensures r.Some? ==> r.value < |rows| && Matches(rows[r.value], key, id)
    ensures r.Some? ==> forall j :: 0 <= j < r.value ==> !Matches(rows[j], key, id)
    ensures r.None? <==> forall j :: 0 <= j < |rows| ==> !Matches(rows[j], key, id)
  {
    if rows == [] then None
    else if Matches(rows[0], key, id) then Some(0)
    else
      match FirstMatch(rows[1..], key, id)
      case None => None
      case Some(k) => Some(k + 1)
  }

  /** `Number(r[idKey])` when it is a decimal number: the numeric ID of a row. */
  function IdValue(row: Row, key: string): Option<nat> {
    if key in row then NumberValue(row[key]) else None
  }

  /** The `reduce` of `POST /api/row`: the largest numeric ID, or 0 when no
      row has one. Rows whose ID is not a number are skipped. */
  method MaxNumericId(rows: seq<Row>, key: string) returns (m: nat)
    ensures forall i :: 0 <= i < |rows| && IdValue(rows[i], key).Some? ==> IdValue(rows[i], key).value <= m
    ensures m == 0 || exists i :: 0 <= i < |rows| && IdValue(rows[i], key) == Some(m)
  {
    m := 0;
    var i := 0;
    while i < |rows|
      invariant 0 <= i <= |rows|
      invariant forall j :: 0 <= j < i && IdValue(rows[j], key).Some? ==> IdValue(rows[j], key).value <= m
      invariant m == 0 || exists j :: 0 <= j < i && IdValue(rows[j], key) == Some(m)
    {
      var n := IdValue(rows[i], key);
      if n.Some? && n.value > m {
        m := n.value;
      }
      i := i + 1;
    }
  }

  /** The ID one above an upper bound of the numeric IDs is held by no row:
      the row `POST /api/row` adds gets an ID of its own. */
  lemma {:induction false} NextIdIsFresh(rows: seq<Row>, key: string, m: nat)
    requires forall i :: 0 <= i < |rows| && IdValue(rows[i], key).Some? ==> IdValue(rows[i], key).value <= m
    ensures forall i :: 0 <= i < |rows| ==> !Matches(rows[i], key, DecimalString(m + 1))
  {
    forall i | 0 <= i < |rows| ensures !Matches(rows[i], key, DecimalString(m + 1)) {
      DecimalRoundTrip(m + 1);
    }
  }

  /** The rows after `POST /api/renumber`: row `i` (from 0) gets the ID
      `String(i + 1)` and keeps every other field. */
  function Renumbered(rows: seq<Row>, key: string): (r: seq<Row>)
    ensures |r| == |rows|
    ensures forall i :: 0 <= i < |r| ==> Matches(r[i], key, DecimalString(i + 1))
    ensures forall i, k :: 0 <= i < |r| ==> (k in r[i] <==> k in rows[i] || k == key)
    ensures forall i, k :: 0 <= i < |r| && k != key && k in rows[i] ==> r[i][k] == rows[i][k]
  {
    seq(|rows|, i requires 0 <= i < |rows| => rows[i][key := DecimalString(i + 1)])
  }

  /** The first row holding `id` is the one `FirstMatch` finds. */
  lemma FirstMatchAt(rows: seq<Row>, key: string, id: string, k: nat)
    requires k < |rows| && Matches(rows[k], key, id)
    requires forall j :: 0 <= j < k ==> !Matches(rows[j], key, id)
    ensures FirstMatch(rows, key, id) == Some(k)
  {
  }

  /** After renumbering the IDs are distinct: looking up ID `n` finds row
      `n - 1`, for every `n` from 1 to the number of rows. */
  lemma RenumberedLookup(rows: seq<Row>, key: string, n: nat)
    requires 1 <= n <= |rows|
    ensures FirstMatch(Renumbered(rows, key), key, DecimalString(n)) == Some(n - 1)
  {
    var r := Renumbered(rows, key);
    forall j | 0 <= j < n - 1 ensures !Matches(r[j], key, DecimalString(n)) {
      DecimalInjective(j + 1, n);
    }
    FirstMatchAt(r, key, DecimalString(n), n - 1);
  }

  /** After renumbering no row holds an ID that is not a decimal number. */
  lemma RenumberedNoOtherIds(rows: seq<Row>, key: string, id: string)
    requires !IsDigits(id)
    ensures FirstMatch(Renumbered(rows, key), key, id) == None
  {
  }

  /** Setting a field other than the ID column leaves every lookup by ID as
      it was: `PATCH /api/row/:id` cannot move or hide a row. */
  lemma PatchKeepsLookups(rows: seq<Row>, i: nat, key: string, field: string, value: string, id: string)
    requires i < |rows| && field != key
    ensures FirstMatch(rows[i := rows[i][field := value]], key, id) == FirstMatch(rows, key, id)
  {
    var rows' := rows[i := rows[i][field := value]];
    assert forall j :: 0 <= j < |rows| ==> (Matches(rows'[j], key, id) <==> Matches(rows[j], key, id));
  }
}
