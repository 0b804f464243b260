/** Finding the "All Credible Fear Cases" table in the rows of the report
    (clean_cfi.py: `is_table_header`, `id_all_cfi_table`, `extract_cfi_table`).
    A table starts at a header row (a label alone in the first cell) and runs
    until the next header row. */
module TableLocator {
  import opened Wrappers
  import opened PyStr

  type Row = seq<string>

  /** Every row has a first cell (otherwise `row[0]` raises `IndexError`). */
  predicate NoEmptyRow(table: seq<Row>) {
    forall i | 0 <= i < |table| :: table[i] != []
  }

  /** The title of the table the pipeline reads. */
  const Target: string := "All Credible Fear Cases"

  /** `is_table_header(row)`: a first cell with some non-whitespace character
      and nothing but whitespace in the other cells. */
  predicate IsTableHeader(row: Row) {
    row != [] && !AllSpace(row[0]) && forall j | 1 <= j < |row| :: AllSpace(row[j])
  }

  /** The header test as the source writes it: `row[0].strip()` is not empty and
      every later cell strips to `''`. */
  lemma {:induction false} HeaderByStrip(row: Row)
    ensures IsTableHeader(row) <==>
      && row != []
      && Strip(row[0]) != []
      && (forall j | 1 <= j < |row| :: Strip(row[j]) == [])
  {
    forall j | 0 <= j < |row| ensures Strip(row[j]) == [] <==> AllSpace(row[j]) {
      StripSpec(row[j]);
    }
  }

  /** The row `id_all_cfi_table` looks for: a header whose lower-cased label
      scores above 80 against the lower-cased title. `score` stands for
      `fuzz.partial_ratio`. */
  predicate IsTarget(row: Row, score: (string, string) -> int) {
    IsTableHeader(row) && score(Lower(row[0]), Lower(Target)) > 80
  }

  /** The first target row at or after position `from`. */
  function FirstTargetFrom(rows: seq<Row>, score: (string, string) -> int, from: nat): (r: Option<nat>)
    decreases |rows| - from
    ensures r.None? <==> forall i | from <= i < |rows| :: !IsTarget(rows[i], score)
    ensures r.Some? ==>
      && from <= r.value < |rows|
      && IsTarget(rows[r.value], score)
      && forall i | from <= i < r.value :: !IsTarget(rows[i], score)
  {
    if from >= |rows| then None
    else if IsTarget(rows[from], score) then Some(from)
    else FirstTargetFrom(rows, score, from + 1)
  }

  /** `id_all_cfi_table(rows)`: the index of the first target row, if any. */
  method IdAllCfiTable(rows: seq<Row>, score: (string, string) -> int) returns (r: Option<nat>)
    ensures r == FirstTargetFrom(rows, score, 0)
  {
    var i := 0;
    while i < |rows|
      invariant 0 <= i <= |rows|
      invariant FirstTargetFrom(rows, score, i) == FirstTargetFrom(rows, score, 0)
    {
      if IsTableHeader(rows[i]) {
        var similarity := score(Lower(rows[i][0]), Lower(Target));
        if similarity > 80 {
          return Some(i);
        }
      }
      i := i + 1;
    }
    return None;
  }

  /** The rows before the first header row. */
  function UntilHeader(rows: seq<Row>): (r: seq<Row>)
    ensures |r| <= |rows| && r == rows[..|r|]
    ensures forall i | 0 <= i < |r| :: !IsTableHeader(r[i])
    ensures |r| == |rows| || IsTableHeader(rows[|r|])
  {
    if rows == [] || IsTableHeader(rows[0]) then []
    else [rows[0]] + UntilHeader(rows[1..])
  }

  /** The header-free prefix that stops at a header (or at the end) is `UntilHeader`. */
  lemma {:induction false} UntilHeaderUnique(rows: seq<Row>, n: nat)
    requires n <= |rows|
    requires forall i | 0 <= i < n :: !IsTableHeader(rows[i])
    requires n == |rows| || IsTableHeader(rows[n])
    ensures UntilHeader(rows) == rows[..n]
  {
    if n > 0 {
      UntilHeaderUnique(rows[1..], n - 1);
      assert rows[..n] == [rows[0]] + rows[1..][..n - 1];
    }
  }

  /** The rows of the table: after its title row, up to the next header. */
  function CfiTable(rows: seq<Row>, score: (string, string) -> int): (r: seq<Row>) {
    match FirstTargetFrom(rows, score, 0)
    case None => []
    case Some(i) => UntilHeader(rows[i + 1..])
  }

  /** `extract_cfi_table(rows)`: `[]` when there is no target row; otherwise the
      longest run of non-header rows that follows it. */
  method ExtractCfiTable(rows: seq<Row>, score: (string, string) -> int) returns (table: seq<Row>)
    ensures table == CfiTable(rows, score)
  {
    var begin := IdAllCfiTable(rows, score);
    if begin.None? {
      return [];
    }
    var rest := rows[begin.value + 1..];
    table := [];
    var j := 0;
    while j < |rest|
      invariant 0 <= j <= |rest|
      invariant table == rest[..j]
      invariant forall i | 0 <= i < j :: !IsTableHeader(rest[i])
    {
      if !IsTableHeader(rest[j]) {
        table := table + [rest[j]];
      } else {
        break;
      }
      j := j + 1;
    }
    UntilHeaderUnique(rest, j);
  }

  /** Without a target row `extract_cfi_table` returns nothing. */
  lemma {:induction false} CfiTableNone(rows: seq<Row>, score: (string, string) -> int)
    requires forall i | 0 <= i < |rows| :: !IsTarget(rows[i], score)
    ensures CfiTable(rows, score) == []
  {
    assert FirstTargetFrom(rows, score, 0) == None;
  }

  /** With a target row, `extract_cfi_table` returns exactly the rows strictly
      between the first target row `t` and the next header row `e` (or the end). */
  lemma {:induction false} CfiTableBetween(rows: seq<Row>, score: (string, string) -> int, t: nat, e: nat)
    requires t < e <= |rows| && IsTarget(rows[t], score)
    requires forall i | 0 <= i < t :: !IsTarget(rows[i], score)
    requires forall i | t < i < e :: !IsTableHeader(rows[i])
    requires e == |rows| || IsTableHeader(rows[e])
    ensures CfiTable(rows, score) == rows[t + 1..e]
  {
    var first := FirstTargetFrom(rows, score, 0);
    assert first == Some(t) by {
      assert first.Some?;
      assert !(first.value < t) && !(first.value > t);
    }
    var rest := rows[t + 1..];
    var n := e - t - 1;
    forall i | 0 <= i < n ensures !IsTableHeader(rest[i]) {
      assert rest[i] == rows[t + 1 + i];
    }
    assert n < |rest| ==> rest[n] == rows[e];
    UntilHeaderUnique(rest, n);
    assert rest[..n] == rows[t + 1..e];
  }
}
