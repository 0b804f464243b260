/** Folding a newly extracted report into the truth table (app.py:
    `update_truth_with_new_data`, and the merge-then-sort step of `main`).
    The copy at the start is shallow: the result shares the caller's field
    objects, so updating the fields of a date range both tables have changes
    the caller's table too, while new date ranges go only into the copy. */
module TruthMerge {
  import opened Wrappers
  import opened PyDict
  import opened Dates
  import opened DateRangeSort
  import opened Truth
  import opened TableLocator
  import opened Pipeline

  type Table = Dict<Dict<string>>

  /** One step of the merge on values: a date range already present has its
      fields updated by `fields`; a new one is added with `fields`. */
  function MergeEntry(table: Table, key: string, fields: Dict<string>): Table {
    match Get(table, key)
    case Some(current) => Assign(table, key, Update(current, fields))
    case None => Assign(table, key, fields)
  }

  /** The table `update_truth_with_new_data(truth, newData)` returns, as values. */
  function Merge(truth: Table, newData: Table): (r: Table)
    ensures DistinctKeys(truth) ==> DistinctKeys(r)
  {
    if newData == [] then truth
    else
      var before := Merge(truth, newData[..|newData| - 1]);
      var (key, fields) := newData[|newData| - 1];
      AssignDistinct(before, key, if Get(before, key).Some? then Update(Get(before, key).value, fields) else fields);
      MergeEntry(before, key, fields)
  }

  /** What a date range holds after the merge: the new fields laid over the
      truth's fields when both have it, the new fields when only the new data
      has it, and the truth's fields, untouched, otherwise. */
  lemma {:induction false} MergeGet(truth: Table, newData: Table, key: string)
    requires DistinctKeys(newData)
    ensures Get(Merge(truth, newData), key) ==
      match (Get(truth, key), Get(newData, key))
      case (Some(current), Some(fields)) => Some(Update(current, fields))
      case (None, Some(fields)) => Some(fields)
      case (_, None) => Get(truth, key)
  {
    if newData != [] {
      var n := |newData| - 1;
      var prefix := newData[..n];
      var (k, v) := newData[n];
      assert newData == prefix + [(k, v)];
      assert k !in Keys(prefix) by {
        forall i | 0 <= i < n ensures Keys(prefix)[i] != k {
          assert Keys(prefix)[i] == newData[i].0;
        }
      }
      MergeGet(truth, prefix, key);
      MergeGet(truth, prefix, k);
      GetSnoc(prefix, k, v, key);
      GetSnoc(prefix, k, v, k);
      var before := Merge(truth, prefix);
      if Get(before, k).Some? {
        AssignGet(before, k, Update(Get(before, k).value, v), key);
      } else {
        AssignGet(before, k, v, key);
      }
    }
  }

  /** The merged keys are the truth's, in their order, followed by the keys
      only the new data has, in the new data's order; with no new data the
      truth comes back unchanged. */
  lemma {:induction false} MergeKeys(truth: Table, newData: Table)
    requires DistinctKeys(newData)
    ensures Keys(Merge(truth, newData)) == Keys(truth) + NewKeys(Keys(truth), Keys(newData))
    ensures newData == [] ==> Merge(truth, newData) == truth
  {
    if newData != [] {
      var n := |newData| - 1;
      var prefix := newData[..n];
      var (k, v) := newData[n];
      var before := Merge(truth, prefix);
      DistinctKeysLast(newData);
      MergeKeys(truth, prefix);
      MergeEntryKeys(before, k, v);
      NewKeysSub(Keys(truth), Keys(prefix), k);
      NewKeysSnoc(Keys(truth), Keys(prefix), k);
      assert Merge(truth, newData) == MergeEntry(before, k, v);
      assert k in Keys(before) <==> k in Keys(truth);
    }
  }

  lemma {:induction false} MergeEntryKeys(table: Table, key: string, fields: Dict<string>)
    ensures Keys(MergeEntry(table, key, fields)) ==
      if key in Keys(table) then Keys(table) else Keys(table) + [key]
  {
    if Get(table, key).Some? {
      AssignKeys(table, key, Update(Get(table, key).value, fields));
    } else {
      AssignKeys(table, key, fields);
    }
  }

  /** Laying the same fields over twice is laying them over once. */
  lemma {:induction false} UpdateTwice(current: Dict<string>, fields: Dict<string>)
    requires DistinctKeys(current) && DistinctKeys(fields)
    ensures Update(Update(current, fields), fields) == Update(current, fields)
  {
    var once := Update(current, fields);
    UpdateKeys(current, fields);
    UpdateKeys(once, fields);
    forall k | k in Keys(fields) ensures k in Keys(once) {
      NewKeysSub(Keys(current), Keys(fields), k);
    }
    NoNewKeys(Keys(once), Keys(fields));
    forall k | k in Keys(once) ensures Get(Update(once, fields), k) == Get(once, k) {
      UpdateGet(once, fields, k);
      UpdateGet(current, fields, k);
    }
    DictEquality(Update(once, fields), once);
  }

  lemma {:induction false} NoNewKeys(ks: seq<string>, extra: seq<string>)
    requires forall k | k in extra :: k in ks
    ensures NewKeys(ks, extra) == []
  {
    if NewKeys(ks, extra) != [] {
      NewKeysSub(ks, extra, NewKeys(ks, extra)[0]);
    }
  }

  /** Every field dict of the table has distinct keys. */
  predicate FieldsDistinct(table: Table) {
    forall i | 0 <= i < |table| :: DistinctKeys(table[i].1)
  }

  lemma {:induction false} GetFieldsDistinct(table: Table, key: string)
    requires FieldsDistinct(table) && Get(table, key).Some?
    ensures DistinctKeys(Get(table, key).value)
  {
    if table[0].0 != key {
      GetFieldsDistinct(table[1..], key);
    }
  }

  /** Merging two reports one after the other is merging, once, the second
      report merged into the first. */
  lemma {:induction false} MergeAssociative(truth: Table, first: Table, second: Table)
    requires DistinctKeys(truth) && DistinctKeys(first) && DistinctKeys(second)
    requires FieldsDistinct(truth) && FieldsDistinct(first) && FieldsDistinct(second)
    ensures Merge(Merge(truth, first), second) == Merge(truth, Merge(first, second))
  {
    MergeAssociativeKeys(truth, first, second);
    forall k | k in Keys(Merge(Merge(truth, first), second))
      ensures Get(Merge(Merge(truth, first), second), k) == Get(Merge(truth, Merge(first, second)), k)
    {
      MergeAssociativeGet(truth, first, second, k);
    }
    DictEquality(Merge(Merge(truth, first), second), Merge(truth, Merge(first, second)));
  }

  lemma {:induction false} MergeAssociativeKeys(truth: Table, first: Table, second: Table)
    requires DistinctKeys(first) && DistinctKeys(second)
    ensures Keys(Merge(Merge(truth, first), second)) == Keys(Merge(truth, Merge(first, second)))
  {
    var tf := Merge(truth, first);
    var fs := Merge(first, second);
    MergeKeys(truth, first);
    MergeKeys(first, second);
    MergeKeys(tf, second);
    MergeKeys(truth, fs);
    UpdateKeysChain(Keys(truth), Keys(first), Keys(second), Keys(tf), Keys(fs));
  }

  lemma {:induction false} MergeAssociativeGet(truth: Table, first: Table, second: Table, key: string)
    requires DistinctKeys(truth) && DistinctKeys(first) && DistinctKeys(second)
    requires FieldsDistinct(truth) && FieldsDistinct(first) && FieldsDistinct(second)
    ensures Get(Merge(Merge(truth, first), second), key) == Get(Merge(truth, Merge(first, second)), key)
  {
    MergeGet(truth, first, key);
    MergeGet(first, second, key);
    MergeGet(Merge(truth, first), second, key);
    MergeGet(truth, Merge(first, second), key);
    if Get(truth, key).Some? && Get(first, key).Some? && Get(second, key).Some? {
      GetFieldsDistinct(truth, key);
      GetFieldsDistinct(first, key);
      GetFieldsDistinct(second, key);
      UpdateAssociative(Get(truth, key).value, Get(first, key).value, Get(second, key).value);
    }
  }

  /** Merging the same report a second time changes nothing more. */
  lemma {:induction false} MergeIdempotent(truth: Table, newData: Table)
    requires DistinctKeys(truth) && DistinctKeys(newData)
    requires FieldsDistinct(truth) && FieldsDistinct(newData)
    ensures Merge(Merge(truth, newData), newData) == Merge(truth, newData)
  {
    var once := Merge(truth, newData);
    var twice := Merge(once, newData);
    MergeKeys(truth, newData);
    MergeKeys(once, newData);
    forall k | k in Keys(newData) ensures k in Keys(once) {
      NewKeysSub(Keys(truth), Keys(newData), k);
    }
    NoNewKeys(Keys(once), Keys(newData));
    forall k | k in Keys(once) ensures Get(twice, k) == Get(once, k) {
      MergeGet(truth, newData, k);
      MergeGet(once, newData, k);
      if Get(newData, k).Some? {
        GetFieldsDistinct(newData, k);
        var fields := Get(newData, k).value;
        if Get(truth, k).Some? {
          GetFieldsDistinct(truth, k);
          UpdateTwice(Get(truth, k).value, fields);
        } else {
          UpdateTwice([], fields);
          FromDistinctPairs(fields);
        }
      }
    }
    DictEquality(twice, once);
  }

  /** `store[key] = fields` for a date range the table lacks: a new object
      holding `fields` is appended. */
  method AddNew(store: Store, key: string, fields: Dict<string>) returns (r: Store)
    requires DistinctObjects(store) && key !in Keys(store)
    ensures Snapshot(r) == MergeEntry(old(Snapshot(store)), key, fields)
    ensures |r| == |store| + 1 && r == store + [(key, r[|store|].1)]
    ensures fresh(r[|store|].1) && DistinctObjects(r)
  {
    var fm := new FieldMap(fields);
    r := Put(store, key, fm);
  }

  /** `store[key].update(fields)` for the date range at position `at`, the
      first that holds `key`: only that date range's object changes, and the
      table's values are those of the merge step for `key`. */
  method UpdateAt(store: Store, at: nat, fields: Dict<string>)
    requires at < |store| && DistinctObjects(store)
    requires forall j | 0 <= j < at :: store[j].0 != store[at].0
    modifies store[at].1
    ensures Snapshot(store) == MergeEntry(old(Snapshot(store)), store[at].0, fields)
  {
    ghost var before := Snapshot(store);
    var (key, fm) := store[at];
    GetAt(before, at);
    AssignAt(before, at, Update(fm.fields, fields));
    fm.Update(fields);
    assert forall j | 0 <= j < |store| && j != at :: store[j].1 != fm;
    assert Snapshot(store) == before[at := (key, fm.fields)];
  }

  /** One more entry of the new data is one more merge step. */
  lemma {:induction false} MergeStep(truth: Table, newData: Table, i: nat)
    requires i < |newData|
    ensures Merge(truth, newData[..i + 1]) == MergeEntry(Merge(truth, newData[..i]), newData[i].0, newData[i].1)
  {
    assert newData[..i + 1][..i] == newData[..i];
  }

  /** `update_truth_with_new_data(truth_data, new_data)`. The result starts as
      the caller's entries, sharing their field objects; each new entry either
      updates the shared object of its date range or is appended as a new one. */
  method UpdateTruthWithNewData(truth: Store, newData: Table) returns (updated: Store)
    requires DistinctObjects(truth)
    modifies Objects(truth)
    ensures Snapshot(updated) == Merge(old(Snapshot(truth)), newData)
    ensures |truth| <= |updated| && updated[..|truth|] == truth
    ensures DistinctObjects(updated)
    ensures forall i | |truth| <= i < |updated| :: fresh(updated[i].1)
  {
    ghost var start := Snapshot(truth);
    updated := truth;
    var i := 0;
    while i < |newData|
      invariant 0 <= i <= |newData|
      invariant |truth| <= |updated| && forall j | 0 <= j < |truth| :: updated[j] == truth[j]
      invariant DistinctObjects(updated)
      invariant forall j | |truth| <= j < |updated| :: fresh(updated[j].1)
      invariant Snapshot(updated) == Merge(start, newData[..i])
    {
      var (key, fields) := newData[i];
      MergeStep(start, newData, i);
      ghost var before := Snapshot(updated);
      var at := IndexOf(updated, key);
      if at.Some? {
        assert at.value < |truth| ==> updated[at.value].1 == truth[at.value].1;
        UpdateAt(updated, at.value, fields);
        assert Snapshot(updated) == MergeEntry(before, key, fields);
      } else {
        var next := AddNew(updated, key, fields);
        assert Snapshot(next) == MergeEntry(before, key, fields);
        updated := next;
      }
      assert Snapshot(updated) == Merge(start, newData[..i + 1]);
      i := i + 1;
    }
    assert newData[..i] == newData;
    assert updated[..|truth|] == truth;
  }

  /** The keys of the merged table start with dates when those of both
      inputs do, so the sort that follows the merge does not raise. */
  lemma {:induction false} MergeKeysParse(truth: Table, newData: Table)
    requires DistinctKeys(newData) && AllKeysParse(truth) && AllKeysParse(newData)
    ensures AllKeysParse(Merge(truth, newData))
  {
    var merged := Merge(truth, newData);
    MergeKeys(truth, newData);
    forall i | 0 <= i < |merged| ensures StartDate(merged[i].0).Some? {
      var k := Keys(merged)[i];
      if i >= |truth| {
        NewKeysSub(Keys(truth), Keys(newData), k);
        var j :| 0 <= j < |newData| && Keys(newData)[j] == k;
      }
    }
  }

  /** The records extracted from a report, merged into a truth table whose
      keys all start with a date, can always be sorted: the sort in `main`
      does not raise. */
  lemma {:induction false} MergedReportSorts(truth: Table, rows: seq<Row>, score: (string, string) -> int)
    requires AllKeysParse(truth) && CredibleFearData(rows, score).Ok?
    ensures SortDateRangeDict(Merge(truth, CredibleFearData(rows, score).value)).Ok?
  {
    var data := CredibleFearData(rows, score).value;
    ExtractedKeysAreRanges(rows, score);
    assert AllKeysParse(data);
    MergeKeysParse(truth, data);
  }

  /** app.py's merge-then-sort: the truth table updated with the new data,
      then ordered by start date. */
  method UpdateAndSort(truth: Store, newData: Table) returns (updated: Store, sorted: Result<Store>)
    requires DistinctObjects(truth) && DistinctKeys(truth)
    modifies Objects(truth)
    ensures Snapshot(updated) == Merge(old(Snapshot(truth)), newData)
    ensures sorted.Ok? <==> AllKeysParse(updated)
    ensures sorted.Ok? ==>
      && multiset(sorted.value) == multiset(updated)
      && SortedBy(sorted.value, Start)
      && forall day :: KeyedOn(sorted.value, Start, day) == KeyedOn(updated, Start, day)
  {
    ghost var before := Snapshot(truth);
    updated := UpdateTruthWithNewData(truth, newData);
    assert DistinctKeys(updated) by {
      assert DistinctKeys(Snapshot(updated));
      assert forall i | 0 <= i < |updated| :: updated[i].0 == Snapshot(updated)[i].0;
    }
    sorted := SortDateRangeDict(updated);
    forall day ensures sorted.Ok? ==> KeyedOn(sorted.value, Start, day) == KeyedOn(updated, Start, day) {
      SortDateRangeDictSpec(updated, day);
    }
    SortDateRangeDictSpec(updated, Date(0, 0, 0));
  }
}
