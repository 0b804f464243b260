/** The truth table (clean_cfi.py: `load_truth`): one dict of fields per date
    range, read from rows whose first row holds the column headers. Each
    field dict is a heap object, because `update_truth_with_new_data` updates
    it in place and the caller's table sees the change. Decoding the file and
    splitting it into rows is not part of this model; the rows are the input. */
module Truth {
  import opened Wrappers
  import opened PyDict
  import opened TableLocator

  /** The fields of one date range of the truth table. */
  class FieldMap {
    var fields: Dict<string>

    constructor (fields: Dict<string>)
      ensures this.fields == fields
    {
      this.fields := fields;
    }

    /** `fields.update(e)` */
    method Update(e: Dict<string>)
      modifies this
      ensures fields == PyDict.Update(old(fields), e)
    {
      fields := PyDict.Update(fields, e);
    }
  }

  /** A dict from date range to field object. */
  type Store = seq<(string, FieldMap)>

  function Objects(store: Store): set<FieldMap> {
    set i | 0 <= i < |store| :: store[i].1
  }

  /** No field object serves two date ranges. */
  predicate DistinctObjects(store: Store) {
    forall i, j | 0 <= i < j < |store| :: store[i].1 != store[j].1
  }

  /** The values the field objects hold now. */
  function Snapshot(store: Store): (r: Dict<Dict<string>>)
    reads Objects(store)
    ensures |r| == |store| && Keys(r) == Keys(store)
    ensures forall i | 0 <= i < |store| :: r[i] == (store[i].0, store[i].1.fields)
  {
    seq(|store|, i requires 0 <= i < |store| reads Objects(store) => (store[i].0, store[i].1.fields))
  }

  /** `headers[1:]` */
  function Tail(s: Row): Row {
    if s == [] then [] else s[1..]
  }

  /** The fields `load_truth` builds for a data row: `dict(zip(headers[1:], row))`
      once `row.pop(0)` has taken the date range off the front. */
  function RowFields(headers: Row, row: Row): Dict<string>
    requires row != []
  {
    FromPairs(Zip(Tail(headers), row[1..]))
  }

  /** `row_dict` after the data rows `data`, in order: a later row with the
      same date range replaces the fields of an earlier one. `row.pop(0)` on
      an empty row raises `IndexError`. */
  function LoadRows(headers: Row, data: seq<Row>): (r: Result<Dict<Dict<string>>>)
    ensures r.Ok? ==> DistinctKeys(r.value)
  {
    if data == [] then Ok([])
    else
      var done :- LoadRows(headers, data[..|data| - 1]);
      var row := data[|data| - 1];
      if row == [] then Raised(IndexError)
      else
        AssignDistinct(done, row[0], RowFields(headers, row));
        Ok(Assign(done, row[0], RowFields(headers, row)))
  }

  /** `load_truth` on the rows of the truth file: the first row is the
      headers, every later row a date range and its fields. */
  function LoadTruthRows(rows: seq<Row>): Result<Dict<Dict<string>>> {
    if rows == [] then Ok([]) else LoadRows(rows[0], rows[1..])
  }

  /** `store[key] = fm`: the new store holds `fm.fields` under `key`, in
      place of what it held, or at the end when `key` is new. */
  method Put(store: Store, key: string, fm: FieldMap) returns (r: Store)
    requires DistinctObjects(store) && fm !in Objects(store)
    ensures Snapshot(r) == Assign(Snapshot(store), key, fm.fields)
    ensures key !in Keys(store) ==> r == store + [(key, fm)]
    ensures Objects(r) <= Objects(store) + {fm} && fm in Objects(r)
    ensures DistinctObjects(r)
  {
    ghost var before := Snapshot(store);
    var at := IndexOf(store, key);
    if at.Some? {
      AssignAt(before, at.value, fm.fields);
      r := store[at.value := (key, fm)];
      assert r[at.value].1 == fm;
    } else {
      AssignNew(before, key, fm.fields);
      r := store + [(key, fm)];
      assert r[|store|].1 == fm;
    }
  }

  /** `store[key] = fields` with a new field object. */
  method PutNew(store: Store, key: string, fields: Dict<string>) returns (r: Store)
    requires DistinctObjects(store)
    ensures Snapshot(r) == Assign(old(Snapshot(store)), key, fields)
    ensures DistinctObjects(r)
    ensures forall o | o in Objects(r) :: o in Objects(store) || fresh(o)
  {
    var fm := new FieldMap(fields);
    r := Put(store, key, fm);
  }

  /** One more data row is one more assignment into `row_dict`. */
  lemma {:induction false} LoadRowsStep(headers: Row, data: seq<Row>, i: nat)
    requires i < |data| && data[i] != [] && LoadRows(headers, data[..i]).Ok?
    ensures LoadRows(headers, data[..i + 1]) ==
      Ok(Assign(LoadRows(headers, data[..i]).value, data[i][0], RowFields(headers, data[i])))
  {
    assert data[..i + 1][..i] == data[..i];
  }

  /** `load_truth`, as the loop the source runs, creating one field object per row. */
  method LoadTruth(rows: seq<Row>) returns (r: Result<Store>)
    ensures r.Ok? <==> LoadTruthRows(rows).Ok?
    ensures r.Raised? ==> r.error == IndexError
    ensures r.Ok? ==> Snapshot(r.value) == LoadTruthRows(rows).value
    ensures r.Ok? ==> DistinctObjects(r.value) && forall o | o in Objects(r.value) :: fresh(o)
  {
    if rows == [] {
      return Ok([]);
    }
    var headers := rows[0];
    var data := rows[1..];
    var rowDict: Store := [];
    var i := 0;
    while i < |data|
      invariant 0 <= i <= |data|
      invariant LoadRows(headers, data[..i]) == Ok(Snapshot(rowDict))
      invariant DistinctObjects(rowDict)
      invariant forall o | o in Objects(rowDict) :: fresh(o)
    {
      var row := data[i];
      if row == [] {
        LoadRowsRaises(headers, data);
        return Raised(IndexError);
      }
      LoadRowsStep(headers, data, i);
      rowDict := PutNew(rowDict, row[0], FromPairs(Zip(Tail(headers), row[1..])));
      i := i + 1;
    }
    assert data[..i] == data;
    return Ok(rowDict);
  }

  /** `load_truth` raises exactly when some data row is empty. */
  lemma {:induction false} LoadRowsRaises(headers: Row, data: seq<Row>)
    ensures LoadRows(headers, data).Raised? <==> exists i | 0 <= i < |data| :: data[i] == []
  {
    if data != [] {
      var n := |data| - 1;
      LoadRowsRaises(headers, data[..n]);
      assert forall j | 0 <= j < n :: data[..n][j] == data[j];
      if (exists i | 0 <= i < |data| :: data[i] == []) && data[n] != [] {
        var i :| 0 <= i < |data| && data[i] == [];
        assert data[..n][i] == data[i];
      }
    }
  }

  /** Without an empty row, `load_truth` does not raise. */
  lemma {:induction false} LoadRowsOk(headers: Row, data: seq<Row>)
    requires NoEmptyRow(data)
    ensures LoadRows(headers, data).Ok?
  {
    if data != [] {
      var n := |data| - 1;
      assert NoEmptyRow(data[..n]) by {
        assert forall j | 0 <= j < n :: data[..n][j] == data[j];
      }
      LoadRowsOk(headers, data[..n]);
    }
  }

  /** A date range holds the fields of the LAST data row that names it. */
  lemma {:induction false} LoadRowsLast(headers: Row, data: seq<Row>, i: nat)
    requires NoEmptyRow(data) && i < |data|
    requires forall j | i < j < |data| :: data[j][0] != data[i][0]
    ensures LoadRows(headers, data).Ok?
    ensures Get(LoadRows(headers, data).value, data[i][0]) == Some(RowFields(headers, data[i]))
  {
    var n := |data| - 1;
    var before := data[..n];
    assert forall j | 0 <= j < n :: before[j] == data[j];
    LoadRowsOk(headers, before);
    var done := LoadRows(headers, before).value;
    var row := data[n];
    assert LoadRows(headers, data) == Ok(Assign(done, row[0], RowFields(headers, row)));
    AssignGet(done, row[0], RowFields(headers, row), data[i][0]);
    if i < n {
      assert NoEmptyRow(before);
      assert before[i] == data[i];
      LoadRowsLast(headers, before, i);
      assert row[0] != data[i][0];
    }
  }

  /** A date range that no data row names is absent. */
  lemma {:induction false} LoadRowsAbsent(headers: Row, data: seq<Row>, key: string)
    requires NoEmptyRow(data)
    requires forall i | 0 <= i < |data| :: data[i][0] != key
    ensures LoadRows(headers, data).Ok?
    ensures Get(LoadRows(headers, data).value, key) == None
  {
    if data != [] {
      var n := |data| - 1;
      var before := data[..n];
      assert forall j | 0 <= j < n :: before[j] == data[j];
      LoadRowsAbsent(headers, before, key);
      var done := LoadRows(headers, before).value;
      var row := data[n];
      assert LoadRows(headers, data) == Ok(Assign(done, row[0], RowFields(headers, row)));
      AssignGet(done, row[0], RowFields(headers, row), key);
    }
  }

  /** The data rows of a truth table written out: each date range followed
      by its field values. */
  function RenderRows(table: Dict<Dict<string>>): (rows: seq<Row>)
    ensures |rows| == |table| && NoEmptyRow(rows)
  {
    if table == [] then []
    else
      var n := |table| - 1;
      RenderRows(table[..n]) + [[table[n].0] + Values(table[n].1)]
  }

  /** The rows of a truth table written out: the header row, then the data rows. */
  function Render(headers: Row, table: Dict<Dict<string>>): seq<Row> {
    [headers] + RenderRows(table)
  }

  /** Reading back the rows of a truth table recovers the table, when the
      date ranges are distinct and every field dict has the header columns as
      its keys, in order. */
  lemma {:induction false} RenderLoadRoundTrip(headers: Row, table: Dict<Dict<string>>)
    requires DistinctKeys(table) && headers != [] && Distinct(headers[1..])
    requires forall i | 0 <= i < |table| :: Keys(table[i].1) == headers[1..]
    ensures LoadTruthRows(Render(headers, table)) == Ok(table)
  {
    assert Render(headers, table)[1..] == RenderRows(table);
    LoadRowsRender(headers, table);
  }

  lemma {:induction false} LoadRowsRender(headers: Row, table: Dict<Dict<string>>)
    requires DistinctKeys(table) && headers != [] && Distinct(headers[1..])
    requires forall i | 0 <= i < |table| :: Keys(table[i].1) == headers[1..]
    ensures LoadRows(headers, RenderRows(table)) == Ok(table)
  {
    if table != [] {
      var n := |table| - 1;
      var before := table[..n];
      var (key, fields) := table[n];
      var data := RenderRows(table);
      DistinctKeysLast(table);
      assert forall i | 0 <= i < n :: before[i] == table[i];
      LoadRowsRender(headers, before);
      assert data[..n] == RenderRows(before);
      assert data[n] == [key] + Values(fields);
      RowFieldsOfRendered(headers, key, fields);
      AssignNew(before, key, fields);
    }
  }

  /** The fields read back from a written-out row are the fields written. */
  lemma {:induction false} RowFieldsOfRendered(headers: Row, key: string, fields: Dict<string>)
    requires headers != [] && Distinct(headers[1..]) && Keys(fields) == headers[1..]
    ensures RowFields(headers, [key] + Values(fields)) == fields
  {
    var row := [key] + Values(fields);
    assert row[1..] == Values(fields);
    ZipKeysValues(fields);
    assert DistinctKeys(fields) by {
      assert forall i | 0 <= i < |fields| :: fields[i].0 == Keys(fields)[i];
    }
    FromDistinctPairs(fields);
  }
}
