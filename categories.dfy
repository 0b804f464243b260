/** Reading the located table (clean_cfi.py: `extract_date_ranges`,
    `extract_category_data`, `combine_data`). The `FROM` and `TO` rows give
    one `start-end` label per column; each category row gives one count per
    column; `combine_data` pairs them up, column by column. */
module Categories {
  import opened Wrappers
  import opened PyStr
  import opened PyDict
  import opened Numbers
  import opened TableLocator

  /** The six rows the pipeline reads, by their labels. */
  const CategoryNames: seq<string> := [
    "Case Receipts", "All Decisions", "Fear Established_Persecution (Y)",
    "Fear Established_Torture (Y)", "Fear Not Established (N)", "Administratively Closed"]

  /** A row's label: its first cell, stripped. */
  function Label(row: Row): string
    requires row != []
  {
    Strip(row[0])
  }

  /** `row[0].strip().upper() == word` */
  predicate LabelledAs(row: Row, word: string)
    requires row != []
  {
    Upper(Label(row)) == word
  }

  /** The first row at or after `from` labelled `word`. */
  function FirstLabelled(table: seq<Row>, word: string, from: nat): (r: Option<nat>)
    requires NoEmptyRow(table)
    decreases |table| - from
    ensures r.None? <==> forall i | from <= i < |table| :: !LabelledAs(table[i], word)
    ensures r.Some? ==>
      && from <= r.value < |table|
      && LabelledAs(table[r.value], word)
      && forall i | from <= i < r.value :: !LabelledAs(table[i], word)
  {
    if from >= |table| then None
    else if LabelledAs(table[from], word) then Some(from)
    else FirstLabelled(table, word, from + 1)
  }

  /** One `start-end` label per column that both rows have. */
  function RangeLabels(fromRow: Row, toRow: Row): seq<string> {
    seq(if |fromRow| < |toRow| then |fromRow| else |toRow|,
      i requires 0 <= i < |fromRow| && i < |toRow| => Strip(fromRow[i]) + "-" + Strip(toRow[i]))
  }

  /** `extract_date_ranges(cfi_table)`. Both list comprehensions read `row[0]`
      of every row, and `[0]` of an empty match list raises `IndexError`. */
  function ExtractDateRanges(table: seq<Row>): Result<seq<string>> {
    if !NoEmptyRow(table) then Raised(IndexError)
    else
      match (FirstLabelled(table, "FROM", 0), FirstLabelled(table, "TO", 0))
      case (Some(f), Some(t)) => Ok(RangeLabels(table[f], table[t]))
      case _ => Raised(IndexError)
  }

  /** `extract_date_ranges` succeeds exactly when every row has a first cell and
      some row is labelled `FROM` and some `TO`; otherwise it raises
      `IndexError`. It then has one entry per
      column of the first of each: the two stripped cells of that column
      joined by `-`. Splitting an entry at `-` gives back the two cells when
      neither holds a `-`; the first entry joins the two labels. */
  lemma {:induction false} DateRangesSpec(table: seq<Row>)
    ensures ExtractDateRanges(table).Raised? ==> ExtractDateRanges(table).error == IndexError
    ensures ExtractDateRanges(table).Ok? <==>
      NoEmptyRow(table)
      && (exists i | 0 <= i < |table| :: LabelledAs(table[i], "FROM"))
      && (exists i | 0 <= i < |table| :: LabelledAs(table[i], "TO"))
    ensures ExtractDateRanges(table).Ok? ==>
      var f := FirstLabelled(table, "FROM", 0).value;
      var t := FirstLabelled(table, "TO", 0).value;
      var r := ExtractDateRanges(table).value;
      && |r| == (if |table[f]| < |table[t]| then |table[f]| else |table[t]|)
      && (forall i | 0 <= i < |r| :: r[i] == Strip(table[f][i]) + "-" + Strip(table[t][i]))
      && (forall i | 0 <= i < |r| && '-' !in Strip(table[f][i]) && '-' !in Strip(table[t][i]) ::
            Split(r[i], '-') == [Strip(table[f][i]), Strip(table[t][i])])
      && (r != [] ==> r[0] == Label(table[f]) + "-" + Label(table[t]))
  {
    if ExtractDateRanges(table).Ok? {
      var f := FirstLabelled(table, "FROM", 0).value;
      var t := FirstLabelled(table, "TO", 0).value;
      var r := ExtractDateRanges(table).value;
      forall i | 0 <= i < |r| && '-' !in Strip(table[f][i]) && '-' !in Strip(table[t][i])
        ensures Split(r[i], '-') == [Strip(table[f][i]), Strip(table[t][i])]
      {
        SplitAround(Strip(table[f][i]), Strip(table[t][i]), '-');
        SplitWithoutSep(Strip(table[f][i]), '-');
        SplitWithoutSep(Strip(table[t][i]), '-');
      }
    }
  }

  /** A category row as `extract_category_data` keeps it before
      `combine_data`, or as a dict from date range to count after. */
  datatype Column = Cells(cells: seq<Option<int>>) | ByRange(byRange: Dict<Option<int>>)

  /** `[convert_to_int(value) for value in row]` */
  function ConvertRow(row: Row): (r: seq<Option<int>>)
    ensures |r| == |row|
  {
    seq(|row|, i requires 0 <= i < |row| => ConvertToInt(row[i]))
  }

  /** The `data` defaultdict of `extract_category_data`, updated in place by
      `combine_data`. Its key order plays no part in the pipeline. */
  class CategoryData {
    var columns: map<string, Column>

    constructor ()
      ensures columns == map[]
    {
      columns := map[];
    }
  }

  /** The categories after reading `table` row by row: a row labelled with a
      category replaces what an earlier row with that label gave. */
  function CategoryColumns(table: seq<Row>, categories: seq<string>): (r: map<string, Column>)
    requires NoEmptyRow(table)
    ensures forall k | k in r :: k in categories && r[k].Cells?
  {
    if table == [] then map[]
    else
      var row := table[|table| - 1];
      var before := CategoryColumns(table[..|table| - 1], categories);
      if Label(row) in categories then before[Label(row) := Cells(ConvertRow(row))] else before
  }

  /** `extract_category_data(cfi_table, categories)`. */
  method ExtractCategoryData(table: seq<Row>, categories: seq<string>) returns (r: Result<CategoryData>)
    ensures r.Ok? <==> NoEmptyRow(table)
    ensures r.Raised? ==> r.error == IndexError
    ensures r.Ok? ==> fresh(r.value) && r.value.columns == CategoryColumns(table, categories)
  {
    var data := new CategoryData();
    var i := 0;
    while i < |table|
      invariant 0 <= i <= |table|
      invariant NoEmptyRow(table[..i])
      invariant data.columns == CategoryColumns(table[..i], categories)
    {
      var row := table[i];
      if row == [] {
        return Raised(IndexError);
      }
      assert table[..i + 1][..i] == table[..i];
      var name := Strip(row[0]);
      if name in categories {
        data.columns := data.columns[name := Cells(ConvertRow(row))];
      }
      i := i + 1;
    }
    assert table[..i] == table;
    return Ok(data);
  }

  /** What `extract_category_data` keeps: a category is present exactly when
      some row carries its label, and then holds the converted cells of the
      LAST such row. */
  lemma {:induction false} CategoryColumnsSpec(table: seq<Row>, categories: seq<string>, c: string)
    requires NoEmptyRow(table)
    ensures c in CategoryColumns(table, categories) <==>
      c in categories && exists i | 0 <= i < |table| :: Label(table[i]) == c
    ensures c in CategoryColumns(table, categories) ==>
      exists i | 0 <= i < |table| ::
        && Label(table[i]) == c
        && CategoryColumns(table, categories)[c] == Cells(ConvertRow(table[i]))
        && forall j | i < j < |table| :: Label(table[j]) != c
  {
    if table != [] {
      var n := |table| - 1;
      var before := table[..n];
      var m := CategoryColumns(table, categories);
      CategoryColumnsSpec(before, categories, c);
      assert forall i | 0 <= i < n :: before[i] == table[i];
      if Label(table[n]) == c && c in categories {
        assert m[c] == Cells(ConvertRow(table[n]));
        assert Label(table[n]) == c && m[c] == Cells(ConvertRow(table[n]));
      } else if Label(table[n]) != c && c in m {
        var i :| 0 <= i < n && Label(before[i]) == c
          && CategoryColumns(before, categories)[c] == Cells(ConvertRow(before[i]))
          && forall j | i < j < n :: Label(before[j]) != c;
        assert Label(table[i]) == c && m[c] == Cells(ConvertRow(table[i]))
          && forall j | i < j < |table| :: Label(table[j]) != c;
      }
    }
  }

  /** The first cell of a category row is its label, which `convert_to_int`
      reads as `None`. */
  lemma {:induction false} LabelCellIsNone(row: Row)
    requires row != [] && Label(row) in CategoryNames
    ensures ConvertRow(row)[0] == None
  {
    var name := Label(row);
    var k :| 0 <= k < |CategoryNames| && CategoryNames[k] == name;
    LabelShaped(k);
    LabelIsNotNumber(row[0]);
  }

  /** Every category label starts with a letter and holds no comma. */
  lemma LabelShaped(k: nat)
    requires k < |CategoryNames|
    ensures var name := CategoryNames[k]; name != [] && IsLetter(name[0]) && ',' !in name
  {
    var name := CategoryNames[k];
    forall j | 0 <= j < |name| ensures name[j] != ',' {
      if k == 0 { assert name == "Case Receipts"; }
      else if k == 1 { assert name == "All Decisions"; }
      else if k == 2 { assert name == "Fear Established_Persecution (Y)"; }
      else if k == 3 { assert name == "Fear Established_Torture (Y)"; }
      else if k == 4 { assert name == "Fear Not Established (N)"; }
      else { assert name == "Administratively Closed"; }
    }
  }

  /** A category column after `combine_data`. */
  function Aligned(column: Column, dateRanges: seq<string>): Column
    requires column.Cells?
  {
    ByRange(FromPairs(Zip(dateRanges, column.cells)))
  }

  /** Every category after `combine_data`. */
  function Combined(columns: map<string, Column>, dateRanges: seq<string>): (r: map<string, Column>)
    requires forall k | k in columns :: columns[k].Cells?
    ensures r.Keys == columns.Keys && forall k | k in r :: r[k].ByRange?
  {
    map k | k in columns :: Aligned(columns[k], dateRanges)
  }

  /** `combine_data(data, date_ranges)`: every category's list of counts is
      replaced, in the same `data` object, by the dict pairing each date range
      with the count in its column. */
  method CombineData(data: CategoryData, dateRanges: seq<string>)
    requires forall k | k in data.columns :: data.columns[k].Cells?
    modifies data
    ensures data.columns == Combined(old(data.columns), dateRanges)
  {
    ghost var original := data.columns;
    var keys := data.columns.Keys;
    while keys != {}
      invariant keys <= original.Keys
      invariant data.columns.Keys == original.Keys
      invariant forall k | k in keys :: data.columns[k] == original[k]
      invariant forall k | k in original && k !in keys :: data.columns[k] == Aligned(original[k], dateRanges)
      decreases keys
    {
      var k :| k in keys;
      data.columns := data.columns[k := ByRange(FromPairs(Zip(dateRanges, data.columns[k].cells)))];
      keys := keys - {k};
    }
  }

  /** After `combine_data`, a date range finds the count in the last column it
      labels; a date range that labels none of the paired columns (`zip` stops
      at the shorter list) finds nothing. */
  lemma {:induction false} AlignedLookup(cells: seq<Option<int>>, dateRanges: seq<string>, i: nat)
    requires i < |dateRanges| && i < |cells|
    requires forall j | i < j < |dateRanges| && j < |cells| :: dateRanges[j] != dateRanges[i]
    ensures Get(Aligned(Cells(cells), dateRanges).byRange, dateRanges[i]) == Some(cells[i])
  {
    ZipGet(dateRanges, cells, i);
  }

  lemma {:induction false} AlignedMissing(cells: seq<Option<int>>, dateRanges: seq<string>, key: string)
    requires forall j | 0 <= j < |dateRanges| && j < |cells| :: dateRanges[j] != key
    ensures Get(Aligned(Cells(cells), dateRanges).byRange, key) == None
  {
    ZipAbsent(dateRanges, cells, key);
  }
}
