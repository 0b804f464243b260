# cfi-cleaner in Dafny

This project models the data path of cfi-cleaner, a tool that takes the
"All Credible Fear Cases" table out of a government report and merges it into
a truth table of trusted history. The model covers these steps:

1. **Find the table.** A row is a table header when its first cell holds a
   label and every other cell is blank. The table starts after the first
   header whose title scores above 80 against the target title, and runs
   until the next header (`table_locator.dfy`).
2. **Read it.** The `FROM` and `TO` rows give one `start-end` date range per
   column (`categories.dfy`). The six category rows give one count per column,
   read by `convert_to_int` (`numbers.dfy`). `combine_data` pairs each count
   with its date range.
3. **Reformat it.** `reformat_data` builds one record per date range
   (`reformat.dfy`):
   - The sentinel keys `From-To` and `-` are skipped.
   - Persecution and torture are summed into `Fear Established (Y)`.
   - `Administratively Closed` becomes `Closings`.
   - Every count is written with thousands separators.
   - The key is rewritten from `m/d/Y` to `Y-m-d` dates (`dates.dfy`).
4. **Chain the steps.** `extract_credible_fear_data` runs the steps in order
   (`pipeline.dfy`).
5. **Load the truth table.** `load_truth` builds the truth table from its rows
   (`truth.dfy`).
6. **Merge and sort.** `update_truth_with_new_data` merges the report into the
   truth table. `sort_date_range_dict` then orders the result by the date each
   key starts with (`app.dfy`, `date_range_sort.dfy`).

Modelling choices:

- **Dicts.** Python dicts are association lists (`PyDict`), so that insertion
  order is part of the value. `Assign` is `d[k] = v`, `Update` is
  `d.update(e)` and `FromPairs` is `dict(pairs)`. `Get` is a lookup.
- **The category `defaultdict`.** It is a `map` inside the `CategoryData`
  class, because its key order plays no part.
- **Strings.** Python strings are `seq<char>`. `strip`, `upper`, `lower`,
  `split` and `join` work on ASCII (`PyStr`).
- **Exceptions.** A Python exception that propagates out of a function is the
  `Raised` case of `Result`. This covers `IndexError` on an empty row or a
  missing `FROM`/`TO` row, `TypeError` on a `None` count, and `KeyError` on a
  missing date range. `Raised` is not a value the program returns. It states
  which exception ends the call, and where the source catches one (the
  `ValueError` handler of `reformat_data`), the model skips the entry as the
  source does.
- **Similarity score.** `fuzz.partial_ratio` is the parameter `score`.
- **Heap state.** `combine_data` updates the `data` object in place, so
  `CategoryData` is a class. The truth table's field dicts are `FieldMap`
  objects. `update_truth_with_new_data` copies the table shallowly and then
  updates the shared field dicts, so the caller's table sees the updates.
- **Loops.** Where the source loops and mutates (`id_all_cfi_table`,
  `extract_cfi_table`, `extract_category_data`, `combine_data`,
  `reformat_data`, `load_truth`, `update_truth_with_new_data`), the model is a
  method. Each method is proved equal to a function, and the lemmas state that
  function's properties.

The model keeps these behaviours of the code, which a reader might not
expect:

- **Length mismatch.** A category row and the date-range row of different
  lengths are silently truncated by `zip`; no error is raised (`AlignedMissing`).
- **Unparsable cells.** A count that does not parse is `None`. Using it in
  `+` or in the `:,` format raises `TypeError`, which ends `reformat_data`. It
  does not skip just that period, whichever of the six counts it is
  (`EntryRaises`, `EntryRaisesOnCount`, `EntrySkips`).
- **Missing rows.** A missing `FROM`/`TO` row or an empty row raises
  `IndexError`. The code has no typed failure outcome.
- **Aliasing.** The merge mutates the field dicts of the caller's truth table.
  The caller's table is not left untouched (`UpdateTruthWithNewData`).
- **Repeated labels.** When several rows carry a category's label, the last
  one wins (`CategoryColumnsSpec`).
- **Order.** The extracted records keep the order of the report's columns.

## Model

| member | source | states |
|---|---|---|
| PyStr.StripSpec | clean_cfi.py:19 | `strip()` gives `''` exactly for an all-whitespace cell; otherwise the text starts and ends with a non-whitespace character and is no longer than the cell |
| PyStr.StripKeeps | clean_cfi.py:19 | `strip()` removes only whitespace: every other character of the text is kept |
| PyStr.StripUnchanged | clean_cfi.py:87 | text with no whitespace at either end is its own `strip()` |
| PyStr.Split | clean_cfi.py:9 | `split(sep)` gives at least one piece, no piece holds `sep`, and joining the pieces with `sep` gives back the text |
| PyStr.SplitJoin | clean_cfi.py:9-10 | `split` undoes `join` when no piece holds the separator |
| PyStr.SplitAround | clean_cfi.py:96 | splitting `a-b` at `-` splits `a` and `b` separately |
| PyStr.SplitWithoutSep | clean_cfi.py:96 | text without the separator splits into itself alone |
| PyStr.RemoveChar | clean_cfi.py:34 | `replace(',', '')` leaves no comma and never lengthens the text |
| PyStr.RemoveCharAbsent | clean_cfi.py:34 | removing a character that does not occur changes nothing |
| PyDict.Get | app.py:8 | a lookup finds a value exactly when the key is among the dict's keys |
| PyDict.IndexOf | app.py:8 | the position of a key is found exactly when the dict holds it, and it is the first position holding it |
| PyDict.AssignKeys | clean_cfi.py:105 | `d[k] = v` keeps the key order and appends a new key at the end |
| PyDict.AssignGet | clean_cfi.py:138 | after `d[k] = v`, `k` holds `v` and every other key what it held before |
| PyDict.AssignDistinct | app.py:11 | assignment keeps the keys distinct |
| PyDict.Update | app.py:9 | `d.update(e)` keeps the keys distinct |
| PyDict.UpdateGet | app.py:9 | after `d.update(e)` a key finds `e`'s value when `e` has it and `d`'s otherwise |
| PyDict.UpdateKeys | app.py:9 | after `d.update(e)` the keys are `d`'s in order, then the keys new to `d` in `e`'s order |
| PyDict.FromPairs | clean_cfi.py:12 | `dict(pairs)` has distinct keys |
| PyDict.FromDistinctPairs | clean_cfi.py:12 | `dict` of pairs with distinct keys keeps every pair, in order |
| PyDict.Zip | clean_cfi.py:69 | `zip` pairs up to the shorter length |
| PyDict.ZipGet | clean_cfi.py:82 | in `dict(zip(ks, vs))` a key finds the value at the last position holding it |
| PyDict.ZipAbsent | clean_cfi.py:82 | a key not among the paired positions is absent from `dict(zip(ks, vs))` |
| Numbers.ParseInt | clean_cfi.py:34 | `int()` succeeds only on text that starts with a digit or a sign |
| Numbers.Decimal | clean_cfi.py:99 | the decimal digits of a number are non-empty, one digit exactly for numbers below ten, and have no leading zero |
| Numbers.DecimalUnique | clean_cfi.py:99 | a digit string without a leading zero is the decimal spelling of its value, so the digits the `:,` format writes are determined by the number |
| Numbers.DecimalValue | clean_cfi.py:99 | reading back the decimal digits of `n` gives `n` |
| Numbers.ParseDecimal | clean_cfi.py:34 | `int()` reads back the decimal digits of `m`, with or without a minus sign |
| Numbers.GroupUngroup | clean_cfi.py:99 | removing the commas the `:,` format inserts gives back the digits |
| Numbers.GroupEnds | clean_cfi.py:99 | a grouped number starts and ends with a digit |
| Numbers.GroupShape | clean_cfi.py:99 | split at its commas, a grouped number has a first group of one to three digits and later groups of exactly three |
| Numbers.ThousandsRoundTrip | clean_cfi.py:31-36 | `convert_to_int(f"{n:,}") == n` for every integer `n` of at most 4300 digits (the bound is under "## Left out") |
| Numbers.LabelIsNotNumber | clean_cfi.py:31-36 | a cell whose stripped text begins with a letter reads as `None` |
| Numbers.ConvertToInt | clean_cfi.py:31-36 | `convert_to_int`: commas removed, then stripped, then `int()`, with `None` where `int()` raises; its properties are stated by `ThousandsRoundTrip`, `LabelIsNotNumber` and `ConvertExamples` |
| Numbers.ConvertExamples | clean_cfi.py:31-36 | `convert_to_int("1,234") == 1234`, and an empty cell reads as `None` |
| Dates.DateLeTotal | clean_cfi.py:12 | any two dates are ordered one way or the other |
| Dates.DateLeTransitive | clean_cfi.py:12 | the date order is transitive |
| Dates.ParseFields | clean_cfi.py:87 | parsed fields always name a date that exists |
| Dates.ParseMdY | clean_cfi.py:87 | `strptime(s, '%m/%d/%Y')` yields only dates that exist |
| Dates.ParseYmd | clean_cfi.py:10 | `strptime(s, '%Y-%m-%d')` yields only dates that exist |
| Dates.FormatYmdLength | clean_cfi.py:87 | `strftime('%Y-%m-%d')` is ten characters long |
| Dates.FormatYmdPieces | clean_cfi.py:9 | splitting a `%Y-%m-%d` date at `-` gives its padded year, month and day |
| Dates.ParseFormatYmd | clean_cfi.py:10 | `strptime` reads back every date `strftime('%Y-%m-%d')` writes |
| Dates.FormatDate | clean_cfi.py:85-87 | `format_date`, with `None` where `strptime` raises `ValueError`; stated by `FormatDateMeaning`, `ParseMdYSpellings` and `FormatYmdPieces` |
| Dates.FormatDateMeaning | clean_cfi.py:85-87 | `format_date` keeps the date: its output read as `%Y-%m-%d` names the date its input names as `%m/%d/%Y` |
| Dates.ParseMdYSpellings | clean_cfi.py:87 | both the padded and the unpadded `m/d/Y` spelling of a date are read as that date |
| DateRangeSort.StartDate | clean_cfi.py:8-10 | the sort key: the first three `-` tokens read as `%Y-%m-%d`, `None` where `strptime` raises; stated by `StartOfRangeKey` |
| DateRangeSort.SortDateRangeDict | clean_cfi.py:7-13 | `sort_date_range_dict`; stated by `SortDateRangeDictSpec`, `InsertionSortSorted`, `InsertionSortPermutes`, `InsertionSortStable` and `PermutationDistinct` |
| DateRangeSort.StartOfRangeKey | clean_cfi.py:8-10 | the start date of a key `reformat_data` writes is its first date |
| DateRangeSort.InsertionSortSorted | clean_cfi.py:12 | the sort orders entries by non-decreasing start date |
| DateRangeSort.InsertionSortPermutes | clean_cfi.py:12 | the sort returns the same entries (a permutation) |
| DateRangeSort.InsertionSortStable | clean_cfi.py:12 | entries with equal start date keep their relative order |
| DateRangeSort.PermutationDistinct | clean_cfi.py:12 | a permutation of a dict keeps its keys distinct, so `dict(...)` drops no entry |
| DateRangeSort.SortDateRangeDictSpec | clean_cfi.py:7-13 | `sort_date_range_dict` raises exactly when some key does not start with a `%Y-%m-%d` date; otherwise it returns the same entries, sorted and stable |
| TableLocator.IsTableHeader | clean_cfi.py:15-19 | `is_table_header`; stated by `HeaderByStrip` |
| TableLocator.HeaderByStrip | clean_cfi.py:15-19 | a header row is a non-empty row whose first cell strips to non-empty text and whose other cells strip to `''` |
| TableLocator.FirstTargetFrom | clean_cfi.py:21-29 | finds the first header row whose lower-cased label scores above 80, or reports that none exists |
| TableLocator.IdAllCfiTable | clean_cfi.py:21-29 | `id_all_cfi_table` returns the index of the first such row, or `None` |
| TableLocator.UntilHeader | clean_cfi.py:58-62 | the longest header-free prefix of the rows |
| TableLocator.UntilHeaderUnique | clean_cfi.py:58-62 | a header-free prefix that stops at a header or at the end is that longest prefix |
| TableLocator.ExtractCfiTable | clean_cfi.py:49-63 | `extract_cfi_table` returns `[]` without a target row, and otherwise the rows after it up to the next header |
| TableLocator.CfiTable | clean_cfi.py:49-63 | the table `extract_cfi_table` returns; stated by `CfiTableNone`, `CfiTableBetween` and `ExtractCfiTable` |
| TableLocator.CfiTableNone | clean_cfi.py:49-53 | with no target row the table is empty |
| TableLocator.CfiTableBetween | clean_cfi.py:49-63 | with a target row, the table is exactly the rows strictly between the first target row and the next header row or the end |
| Categories.FirstLabelled | clean_cfi.py:67-68 | finds the first row whose stripped, upper-cased label is the word, or reports that none exists |
| Categories.ExtractDateRanges | clean_cfi.py:65-69 | `extract_date_ranges`; stated by `DateRangesSpec` |
| Categories.DateRangesSpec | clean_cfi.py:65-69 | `extract_date_ranges` succeeds exactly when no row is empty and `FROM` and `TO` rows exist; then it has one entry per paired column, each the two stripped cells of that column joined by `-`; an entry splits back into the two cells when neither holds a `-`, and the first joins the two labels |
| Categories.ConvertRow | clean_cfi.py:76 | one converted value per cell |
| Categories.CategoryData.constructor | clean_cfi.py:73 | the category dict starts empty |
| Categories.CategoryColumns | clean_cfi.py:74-76 | only the named categories are kept, each as a list of values |
| Categories.ExtractCategoryData | clean_cfi.py:71-77 | `extract_category_data` raises exactly when some row is empty, and the exception is `IndexError`; otherwise it returns a new dict holding the categories the rows give |
| Categories.CategoryColumnsSpec | clean_cfi.py:74-76 | a category is present exactly when some row carries its label, and then holds the converted cells of the last such row |
| Categories.LabelCellIsNone | clean_cfi.py:76 | the label cell of a category row converts to `None` |
| Categories.Combined | clean_cfi.py:81-82 | `combine_data` keeps the categories and turns every one into a dict |
| Categories.CombineData | clean_cfi.py:79-83 | `combine_data` replaces, in the same object, each category's list with `dict(zip(date_ranges, values))` |
| Categories.AlignedLookup | clean_cfi.py:82 | after `combine_data` a date range finds the count in the last column it labels |
| Categories.AlignedMissing | clean_cfi.py:82 | a date range outside the columns `zip` pairs finds nothing |
| Reformat.ReformatEntry | clean_cfi.py:93-107 | one pass of the loop of `reformat_data`; stated by `EntryKey`, `EntryRecord`, `EntrySkips`, `EntryRaises` and `EntryRaisesOnCount` |
| Reformat.ReformatData | clean_cfi.py:89-108 | `reformat_data`; stated by `ReformatDataLoop`, `ReformatDataSource`, `ReformatDataEntry`, `ReformatDataRaises` and `SkipKey` |
| Reformat.Assignments | clean_cfi.py:91-105 | the result of the loop has distinct keys |
| Reformat.ReformatDataLoop | clean_cfi.py:89-108 | the loop of `reformat_data` computes `ReformatData` |
| Reformat.AssignmentsRaisedPrefix | clean_cfi.py:94-107 | once a pass raises an exception the handler does not catch, the call ends with it |
| Reformat.AssignmentsSource | clean_cfi.py:105 | every result key was assigned by some pass and holds the record of the last pass assigning it |
| Reformat.AssignmentsRaises | clean_cfi.py:94-107 | the loop raises exactly when one of its passes raises |
| Reformat.AssignmentsSkip | clean_cfi.py:106-107 | a skipped pass can be left out wherever it stands |
| Reformat.EntryKey | clean_cfi.py:93-97 | a record is emitted only for a non-sentinel key splitting into two `m/d/Y` dates, under the key writing both as `%Y-%m-%d` |
| Reformat.EntryRecord | clean_cfi.py:95-104 | an emitted record holds the five counts, with `Fear Established (Y)` the sum of persecution and torture and `Closings` the administratively closed count |
| Reformat.EntrySkips | clean_cfi.py:93-107 | a period is skipped exactly when its key is a sentinel, or when both fear counts are numbers and the key is not two `m/d/Y` dates; every other period raises or gives a record |
| Reformat.EntryRaises | clean_cfi.py:95 | a fear count that is missing or not a number raises, and the handler does not catch it |
| Reformat.EntryRaisesOnCount | clean_cfi.py:95-104 | for a key that is two `m/d/Y` dates, the period raises exactly when one of the six counts it reads is missing or `None` |
| Reformat.ReformatDataSource | clean_cfi.py:89-108 | every returned key comes from a key of `Case Receipts` and holds the record of the last such key |
| Reformat.ReformatDataEntry | clean_cfi.py:97-105 | every returned entry is keyed by a range of two dates and holds the five fields |
| Reformat.ReformatDataRaises | clean_cfi.py:92-107 | `reformat_data` raises exactly when `Case Receipts` is not a dict of date ranges or the pass for one of its keys raises |
| Reformat.SkipKey | clean_cfi.py:106-107 | leaving out a key the loop skips changes nothing |
| Reformat.RecordReadsBack | clean_cfi.py:98-104 | a record has the five fields in order, and `convert_to_int` reads back each count |
| Reformat.RangeKeyNotSentinel | clean_cfi.py:93 | no key the loop writes is a sentinel |
| Pipeline.CredibleFearData | clean_cfi.py:110-126 | the returned dict has distinct date ranges |
| Pipeline.ExtractCredibleFearData | clean_cfi.py:110-126 | `extract_credible_fear_data` chains the steps: `{}` without a table, otherwise the reformatted categories, or the exception a step raises |
| Pipeline.NoTableNoData | clean_cfi.py:116-119 | a report without the target table gives `{}` and does not raise |
| Pipeline.ExtractedKeysAreRanges | clean_cfi.py:110-126 | every extracted key is a range of two dates that `sort_date_range_dict` reads by its first date, and every record has the five fields |
| Truth.FieldMap.constructor | clean_cfi.py:138 | a new field dict holds the given fields |
| Truth.FieldMap.Update | app.py:9 | `fields.update(values)` in place |
| Truth.LoadRows | clean_cfi.py:133-138 | the truth table has distinct date ranges |
| Truth.Put | clean_cfi.py:138 | `row_dict[key] = fields` replaces the entry of an existing key or appends a new one, and keeps the field objects distinct |
| Truth.PutNew | clean_cfi.py:138 | `row_dict[date_range] = dict(...)` with a new field object: the table's values are those of the assignment, and every object is an old one or new |
| Truth.LoadRowsOk | clean_cfi.py:137 | without an empty data row `load_truth` does not raise |
| Truth.LoadTruth | clean_cfi.py:131-139 | the loop of `load_truth` builds a table of new, distinct field objects holding `LoadTruthRows`, and raises exactly when it does, always with `IndexError` |
| Truth.LoadRowsRaises | clean_cfi.py:137 | `row.pop(0)` makes `load_truth` raise exactly when some data row is empty |
| Truth.LoadRowsLast | clean_cfi.py:137-138 | a date range holds `dict(zip(headers[1:], row[1:]))` for the last row naming it |
| Truth.LoadRowsAbsent | clean_cfi.py:133-138 | a date range no data row names is absent |
| Truth.RenderLoadRoundTrip | clean_cfi.py:128-139 | writing a truth table out as rows and loading them back gives the same table |
| TruthMerge.Merge | app.py:5-12 | the merge keeps the keys distinct |
| TruthMerge.MergeEntry | app.py:8-11 | one iteration of the merge loop; stated by `MergeEntryKeys`, and through `Merge` by `MergeGet` and `MergeKeys` |
| TruthMerge.MergeGet | app.py:7-11 | a date range in both tables holds the truth's fields updated by the new ones; one only in the new data holds the new fields; one only in the truth keeps its fields |
| TruthMerge.MergeKeys | app.py:6-11 | the merged keys are the truth's in order followed by the new-only keys in the new data's order; merging no new data returns the truth |
| TruthMerge.MergeEntryKeys | app.py:8-11 | one merge step keeps the keys, or appends a new one |
| TruthMerge.UpdateTwice | app.py:9 | updating a field dict twice with the same fields is updating it once |
| TruthMerge.MergeIdempotent | app.py:5-12 | merging the same new data a second time changes nothing |
| TruthMerge.MergeAssociative | app.py:5-12 | merging one report and then a second is merging, once, the second report merged into the first |
| PyDict.UpdateAssociative | app.py:9 | `d.update(e)` followed by `d.update(f)` leaves `d` as updating it once with `e` updated by `f` would |
| TruthMerge.UpdateAt | app.py:8-9 | `updated_data[date_range].update(values)` changes only the object of that date range, and the table's values become those of the merge step |
| TruthMerge.AddNew | app.py:10-11 | `updated_data[date_range] = values` for a new date range appends one new object, and the table's values become those of the merge step |
| TruthMerge.UpdateTruthWithNewData | app.py:5-12 | the result holds `Merge` of the old truth and the new data; it starts with the caller's own entries and field objects, and new date ranges get new objects |
| TruthMerge.MergeKeysParse | app.py:37-40 | when every key of both tables starts with a date, so does every merged key |
| TruthMerge.MergedReportSorts | app.py:33-40 | the extracted report merged into a truth table whose keys start with dates sorts without raising |
| TruthMerge.UpdateAndSort | app.py:37-40 | the displayed table is the merge sorted by start date: it raises exactly when some key does not parse, and otherwise holds the same entries, sorted and stable |

## Left out

- Reading the CSV files (`read_csv_file`, clean_cfi.py:38-47, and the decoding at clean_cfi.py:129-130) is input handling. The model starts from the rows as lists of cells.
- The `print` diagnostics at clean_cfi.py:53 and 107 are output only. They change no result.
- `main` in app.py (Streamlit widgets, the pandas DataFrame, the CSV download) is user interface. Only its merge-then-sort step (app.py:37-40) is modelled.
- TableLocator.IsTarget: `fuzz.partial_ratio` is a foreign library. It is the parameter `score`, about which nothing is assumed.
- PyStr.IsSpace: whitespace, digits and letter case are ASCII only. Unicode whitespace, Unicode digits and non-ASCII case mapping are not modelled.
- Numbers.ParseInt: `int()` is restricted to an optional sign and ASCII digits. Underscores between digits are not accepted.
- Numbers.ParseInt: CPython's limit of 4300 digits on converting between `int` and decimal text (Python 3.11 and later) is not modelled. Past it, `int()` raises `ValueError`, so `convert_to_int` returns `None` where the model returns the number.
- Numbers.Thousands: past the same limit, `f"{n:,}"` raises `ValueError`. In `reformat_data` the handler at clean_cfi.py:106 then skips that period, where `Reformat.ReformatEntry` emits a record.
- Dates.FormatYmd: `%Y` is written with four digits for every year. Some C libraries do not pad years below 1000.
- Reformat.Cell: reading a missing category of the defaultdict inserts `[]` into it. The model raises the resulting `TypeError` without recording the insertion, which is invisible because the call then ends.
- Categories.CombineData: it requires every category to still be a list, as `extract_category_data` leaves them. Calling it a second time on the same object is not modelled.
- TruthMerge.UpdateTruthWithNewData: a date range only the new data has gets a new field object holding the new fields. The model does not share the new data's own dict object with the result.
- Categories.CategoryData: the key order of the category dict is not modelled. No result depends on it.
