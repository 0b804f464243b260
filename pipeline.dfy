/** `extract_credible_fear_data` (clean_cfi.py): the whole extraction, from
    the rows of the report to the reformatted records. Reading the CSV file
    into rows is not part of this model; the rows are the input. */
module Pipeline {
  import opened Wrappers
  import opened PyStr
  import opened PyDict
  import opened Dates
  import opened DateRangeSort
  import opened TableLocator
  import opened Categories
  import opened Reformat

  /** What `extract_credible_fear_data` returns for the rows of a report:
      `{}` without a table, otherwise the reformatted categories. */
  function CredibleFearData(rows: seq<Row>, score: (string, string) -> int): (r: Result<Dict<Dict<string>>>)
    ensures r.Ok? ==> DistinctKeys(r.value)
  {
    var table := CfiTable(rows, score);
    if table == [] then Ok([])
    else
      var dateRanges :- ExtractDateRanges(table);
      ReformatData(Combined(CategoryColumns(table, CategoryNames), dateRanges))
  }

  /** `extract_credible_fear_data`, step by step as the source calls them. */
  method ExtractCredibleFearData(rows: seq<Row>, score: (string, string) -> int) returns (r: Result<Dict<Dict<string>>>)
    ensures r == CredibleFearData(rows, score)
  {
    var table := ExtractCfiTable(rows, score);
    if table == [] {
      return Ok([]);
    }
    var dateRanges := ExtractDateRanges(table);
    if dateRanges.Raised? {
      return Raised(dateRanges.error);
    }
    var extracted := ExtractCategoryData(table, CategoryNames);
    var data := extracted.value;
    CombineData(data, dateRanges.value);
    r := ReformatDataLoop(data);
  }

  /** A report without the table gives `{}`. */
  lemma {:induction false} NoTableNoData(rows: seq<Row>, score: (string, string) -> int)
    requires forall i | 0 <= i < |rows| :: !IsTarget(rows[i], score)
    ensures CredibleFearData(rows, score) == Ok([])
  {
    CfiTableNone(rows, score);
  }

  /** Every key of the extracted data is a range of two dates written as
      `%Y-%m-%d`, so `sort_date_range_dict` reads it and sorts it by the first;
      every record has the five fields. */
  lemma {:induction false} ExtractedKeysAreRanges(rows: seq<Row>, score: (string, string) -> int)
    requires CredibleFearData(rows, score).Ok?
    ensures var data := CredibleFearData(rows, score).value;
      forall i | 0 <= i < |data| ::
        && (exists start, end | ValidDate(start) && ValidDate(end) ::
              data[i].0 == RangeKey(start, end) && StartDate(data[i].0) == Some(start))
        && Keys(data[i].1) == RecordFields
  {
    var data := CredibleFearData(rows, score).value;
    var table := CfiTable(rows, score);
    if table != [] {
      var columns := Combined(CategoryColumns(table, CategoryNames), ExtractDateRanges(table).value);
      assert data == ReformatData(columns).value;
      forall i | 0 <= i < |data|
        ensures exists start, end | ValidDate(start) && ValidDate(end) ::
          data[i].0 == RangeKey(start, end) && StartDate(data[i].0) == Some(start)
        ensures Keys(data[i].1) == RecordFields
      {
        ReformatDataEntry(columns, i);
        var start, end :| ValidDate(start) && ValidDate(end) && data[i].0 == RangeKey(start, end);
        StartOfRangeKey(start, end);
      }
    }
  }
}
