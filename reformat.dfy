/** `reformat_data` (clean_cfi.py): one record per date range of the
    `Case Receipts` column, keyed by the range rewritten as `%Y-%m-%d` dates,
    holding five counts written with thousands separators. Inside the `try`
    only `ValueError` is caught (a key that is not two dates); `KeyError`,
    `TypeError` and `AttributeError` end the whole call. */
module Reformat {
  import opened Wrappers
  import opened PyStr
  import opened PyDict
  import opened Numbers
  import opened Dates
  import opened Categories

  /** The keys `reformat_data` passes over without looking at them. */
  const Sentinels: seq<string> := ["From-To", "-"]

  const Persecution := "Fear Established_Persecution (Y)"
  const Torture := "Fear Established_Torture (Y)"

  /** The fields of a reformatted record, in order. */
  const RecordFields: seq<string> := [
    "Case Receipts", "All Decisions", "Fear Established (Y)", "Fear Not Established (N)", "Closings"]

  /** The record `reformat_data` builds from five counts. */
  function Record(receipts: int, decisions: int, established: int, notEstablished: int, closed: int): (r: Dict<string>) {
    [ ("Case Receipts", Thousands(receipts)),
      ("All Decisions", Thousands(decisions)),
      ("Fear Established (Y)", Thousands(established)),
      ("Fear Not Established (N)", Thousands(notEstablished)),
      ("Closings", Thousands(closed)) ]
  }

  /** `data[name][key]` on the defaultdict: a category that is missing reads as
      `[]`, and a list indexed by a string raises `TypeError`; a date range the
      category lacks raises `KeyError`. */
  function Cell(columns: map<string, Column>, name: string, key: string): Result<Option<int>> {
    if name !in columns then Raised(TypeError)
    else
      match columns[name]
      case Cells(_) => Raised(TypeError)
      case ByRange(d) =>
        match Get(d, key)
        case None => Raised(KeyError)
        case Some(v) => Ok(v)
  }

  /** A count used in `+` or in the `:,` format: `None` raises `TypeError`. */
  function Count(cell: Option<int>): Result<int> {
    match cell
    case None => Raised(TypeError)
    case Some(n) => Ok(n)
  }

  /** `p + t` on two cells: `TypeError` when either is `None`. */
  function Sum(p: Option<int>, t: Option<int>): Result<int> {
    if p.None? || t.None? then Raised(TypeError) else Ok(p.value + t.value)
  }

  /** One pass of the loop of `reformat_data`: `Ok(None)` where the key is a
      sentinel or the `ValueError` handler skips it, `Ok(Some((key, record)))`
      where it assigns `result[key] = record`. The steps come in the order
      the source evaluates them. */
  function ReformatEntry(columns: map<string, Column>, dateRange: string): (r: Result<Option<(string, Dict<string>)>>) {
    if dateRange in Sentinels then Ok(None)
    else
      var p :- Cell(columns, Persecution, dateRange);
      var t :- Cell(columns, Torture, dateRange);
      var established :- Sum(p, t);
      var parts := Split(dateRange, '-');
      if |parts| != 2 then Ok(None)
      else if FormatDate(parts[0]).None? || FormatDate(parts[1]).None? then Ok(None)
      else
        var record :- EntryFields(columns, dateRange, established);
        var key := FormatDate(parts[0]).value + "-" + FormatDate(parts[1]).value;
        Ok(Some((key, record)))
  }

  /** The record of one pass, read in the order the source reads the cells:
      `Case Receipts`, `All Decisions`, `Fear Not Established (N)`,
      `Administratively Closed`; the first that is missing or `None` raises. */
  function EntryFields(columns: map<string, Column>, dateRange: string, established: int): Result<Dict<string>> {
    var receipts :- Cell(columns, "Case Receipts", dateRange);
    var receiptCount :- Count(receipts);
    var decisions :- Cell(columns, "All Decisions", dateRange);
    var decisionCount :- Count(decisions);
    var notEstablished :- Cell(columns, "Fear Not Established (N)", dateRange);
    var notEstablishedCount :- Count(notEstablished);
    var closed :- Cell(columns, "Administratively Closed", dateRange);
    var closedCount :- Count(closed);
    Ok(Record(receiptCount, decisionCount, established, notEstablishedCount, closedCount))
  }

  /** What one pass of the loop does: raise, skip, or assign a record under a key. */
  type Pass = Result<Option<(string, Dict<string>)>>

  /** The result dict after a run of passes; the first pass that raises ends it. */
  function Assignments(passes: seq<Pass>): (r: Result<Dict<Dict<string>>>)
    ensures r.Ok? ==> DistinctKeys(r.value)
  {
    if passes == [] then Ok([])
    else
      var done :- Assignments(passes[..|passes| - 1]);
      var entry :- passes[|passes| - 1];
      match entry
      case None => Ok(done)
      case Some(kv) =>
        AssignDistinct(done, kv.0, kv.1);
        Ok(Assign(done, kv.0, kv.1))
  }

  /** The passes for `keys`, in order. */
  function Passes(columns: map<string, Column>, keys: seq<string>): (r: seq<Pass>)
    ensures |r| == |keys| && forall i | 0 <= i < |keys| :: r[i] == ReformatEntry(columns, keys[i])
  {
    seq(|keys|, i requires 0 <= i < |keys| => ReformatEntry(columns, keys[i]))
  }

  /** `reformat_data(data)`: the loop over the keys of `data['Case Receipts']`;
      that category missing (the defaultdict's `[]`) or still a list has no
      `keys()` and raises `AttributeError`. */
  function ReformatData(columns: map<string, Column>): Result<Dict<Dict<string>>> {
    if "Case Receipts" in columns && columns["Case Receipts"].ByRange? then
      Assignments(Passes(columns, Keys(columns["Case Receipts"].byRange)))
    else Raised(AttributeError)
  }

  /** `reformat_data(data)`, as the loop the source runs. */
  method ReformatDataLoop(data: CategoryData) returns (r: Result<Dict<Dict<string>>>)
    ensures r == ReformatData(data.columns)
  {
    if !("Case Receipts" in data.columns && data.columns["Case Receipts"].ByRange?) {
      return Raised(AttributeError);
    }
    var keys := Keys(data.columns["Case Receipts"].byRange);
    ghost var passes := Passes(data.columns, keys);
    var result: Dict<Dict<string>> := [];
    var i := 0;
    while i < |keys|
      invariant 0 <= i <= |keys|
      invariant Assignments(passes[..i]) == Ok(result)
    {
      var entry := ReformatEntry(data.columns, keys[i]);
      AssignmentsStep(passes, i, result);
      if entry.Raised? {
        AssignmentsRaisedPrefix(passes, i + 1, entry.error);
        return Raised(entry.error);
      }
      if entry.value.Some? {
        result := Assign(result, entry.value.value.0, entry.value.value.1);
      }
      i := i + 1;
    }
    assert passes[..i] == passes;
    return Ok(result);
  }

  /** One more pass: it raises, leaves the result as it was, or assigns. */
  lemma {:induction false} AssignmentsStep(passes: seq<Pass>, i: nat, done: Dict<Dict<string>>)
    requires i < |passes| && Assignments(passes[..i]) == Ok(done)
    ensures Assignments(passes[..i + 1]) ==
      match passes[i]
      case Raised(e) => Raised(e)
      case Ok(None) => Ok(done)
      case Ok(Some(kv)) => Ok(Assign(done, kv.0, kv.1))
  {
    assert passes[..i + 1][..i] == passes[..i];
  }

  /** Once a pass raises, the loop ends with that exception. */
  lemma {:induction false} AssignmentsRaisedPrefix(passes: seq<Pass>, i: nat, e: Exception)
    requires i <= |passes| && Assignments(passes[..i]) == Raised(e)
    ensures Assignments(passes) == Raised(e)
    decreases |passes| - i
  {
    if i < |passes| {
      assert passes[..i + 1][..i] == passes[..i];
      AssignmentsRaisedPrefix(passes, i + 1, e);
    } else {
      assert passes[..i] == passes;
    }
  }

  /** The pass neither raises nor assigns under `key`. */
  predicate LeavesKey(entry: Pass, key: string) {
    entry.Ok? && (entry.value.None? || entry.value.value.0 != key)
  }

  /** Every key of the result was assigned by some pass, and holds the record
      of the LAST pass that assigned it. */
  lemma {:induction false} AssignmentsSource(passes: seq<Pass>, key: string)
    requires Assignments(passes).Ok? && key in Keys(Assignments(passes).value)
    ensures exists i | 0 <= i < |passes| ::
      && passes[i] == Ok(Some((key, Get(Assignments(passes).value, key).value)))
      && forall j | i < j < |passes| :: LeavesKey(passes[j], key)
  {
    var n := |passes| - 1;
    var before := passes[..n];
    var done := Assignments(before).value;
    var result := Assignments(passes).value;
    var entry := passes[n].value;
    if entry.Some? && entry.value.0 == key {
      AssignGet(done, key, entry.value.1, key);
      assert passes[n] == Ok(Some((key, Get(result, key).value)));
    } else {
      AssignmentsLeaves(passes, key);
      AssignmentsSource(before, key);
      var i :| 0 <= i < n && before[i] == Ok(Some((key, Get(done, key).value)))
        && forall j | i < j < n :: LeavesKey(before[j], key);
      assert passes == before + [passes[n]];
      LeavesKeyAfter(before, passes[n], i, key);
      assert passes[i] == Ok(Some((key, Get(result, key).value)));
    }
  }

  /** A last pass that leaves `key` alone leaves its lookup as it was. */
  lemma {:induction false} AssignmentsLeaves(passes: seq<Pass>, key: string)
    requires passes != [] && Assignments(passes).Ok? && LeavesKey(passes[|passes| - 1], key)
    ensures Assignments(passes[..|passes| - 1]).Ok?
    ensures var done := Assignments(passes[..|passes| - 1]).value;
      && Get(Assignments(passes).value, key) == Get(done, key)
      && (key in Keys(Assignments(passes).value) <==> key in Keys(done))
  {
    var done := Assignments(passes[..|passes| - 1]).value;
    var entry := passes[|passes| - 1].value;
    if entry.Some? {
      AssignGet(done, entry.value.0, entry.value.1, key);
      AssignKeys(done, entry.value.0, entry.value.1);
    }
  }

  lemma LeavesKeyAfter(before: seq<Pass>, last: Pass, i: nat, key: string)
    requires i < |before| && LeavesKey(last, key)
    requires forall j | i < j < |before| :: LeavesKey(before[j], key)
    ensures forall j | i < j < |before + [last]| :: LeavesKey((before + [last])[j], key)
  {
  }

  /** The loop raises exactly when one of its passes raises. */
  lemma {:induction false} AssignmentsRaises(passes: seq<Pass>)
    ensures Assignments(passes).Raised? <==> exists i | 0 <= i < |passes| :: passes[i].Raised?
  {
    if passes != [] {
      var n := |passes| - 1;
      AssignmentsRaises(passes[..n]);
      assert forall j | 0 <= j < n :: passes[..n][j] == passes[j];
      if (exists i | 0 <= i < |passes| :: passes[i].Raised?) && !passes[n].Raised? {
        var i :| 0 <= i < |passes| && passes[i].Raised?;
        assert passes[..n][i] == passes[i];
      }
    }
  }

  /** A skipped pass can be left out, wherever it stands. */
  lemma {:induction false} AssignmentsSkip(a: seq<Pass>, b: seq<Pass>)
    ensures Assignments(a + [Ok(None)] + b) == Assignments(a + b)
  {
    if b == [] {
      assert (a + [Ok(None)] + b)[..|a|] == a;
      assert a + b == a;
    } else {
      var b' := b[..|b| - 1];
      AssignmentsSkip(a, b');
      assert (a + [Ok(None)] + b)[..|a + [Ok(None)] + b| - 1] == a + [Ok(None)] + b';
      assert (a + b)[..|a + b| - 1] == a + b';
    }
  }

  /** The category `name` holds a number for `key`. */
  predicate HasCount(columns: map<string, Column>, name: string, key: string) {
    Cell(columns, name, key).Ok? && Cell(columns, name, key).value.Some?
  }

  function CountOf(columns: map<string, Column>, name: string, key: string): int
    requires HasCount(columns, name, key)
  {
    Cell(columns, name, key).value.value
  }

  /** A record is emitted only for a key that is not a sentinel and splits at
      `-` into two dates, under the key that writes both as `%Y-%m-%d`. */
  lemma {:induction false} EntryKey(columns: map<string, Column>, dateRange: string, key: string, record: Dict<string>)
    requires ReformatEntry(columns, dateRange) == Ok(Some((key, record)))
    ensures dateRange !in Sentinels
    ensures |Split(dateRange, '-')| == 2
    ensures var parts := Split(dateRange, '-');
      && ParseMdY(Strip(parts[0])).Some? && ParseMdY(Strip(parts[1])).Some?
      && key == RangeKey(ParseMdY(Strip(parts[0])).value, ParseMdY(Strip(parts[1])).value)
  {
    var parts := Split(dateRange, '-');
    assert |parts| == 2 && FormatDate(parts[0]).Some? && FormatDate(parts[1]).Some?;
    assert key == FormatDate(parts[0]).value + "-" + FormatDate(parts[1]).value;
  }

  /** An emitted record holds the five fields in order: `Fear Established (Y)`
      is persecution plus torture and `Closings` is `Administratively Closed`. */
  lemma {:induction false} EntryRecord(columns: map<string, Column>, dateRange: string, key: string, record: Dict<string>)
    requires ReformatEntry(columns, dateRange) == Ok(Some((key, record)))
    ensures HasCount(columns, "Case Receipts", dateRange) && HasCount(columns, "All Decisions", dateRange)
    ensures HasCount(columns, Persecution, dateRange) && HasCount(columns, Torture, dateRange)
    ensures HasCount(columns, "Fear Not Established (N)", dateRange) && HasCount(columns, "Administratively Closed", dateRange)
    ensures record == Record(
      CountOf(columns, "Case Receipts", dateRange),
      CountOf(columns, "All Decisions", dateRange),
      CountOf(columns, Persecution, dateRange) + CountOf(columns, Torture, dateRange),
      CountOf(columns, "Fear Not Established (N)", dateRange),
      CountOf(columns, "Administratively Closed", dateRange))
  {
  }

  /** The `ValueError` handler: a pass is skipped exactly when the key is a
      sentinel, which is skipped before anything is read, or when both fear
      counts are numbers and the key does not split into two parts that are
      both `%m/%d/%Y` dates. Every other pass raises or assigns a record. */
  lemma {:induction false} EntrySkips(columns: map<string, Column>, dateRange: string)
    ensures ReformatEntry(columns, dateRange) == Ok(None) <==>
      (|| dateRange in Sentinels
       || (HasCount(columns, Persecution, dateRange) && HasCount(columns, Torture, dateRange)
           && !NamesTwoDates(dateRange)))
  {
    if ReformatEntry(columns, dateRange) == Ok(None) && dateRange !in Sentinels {
      SkippedPass(columns, dateRange);
    } else if dateRange !in Sentinels && HasCount(columns, Persecution, dateRange) && HasCount(columns, Torture, dateRange) {
      CountedPass(columns, dateRange);
    }
  }

  /** A skipped pass has a sentinel key, or both fear counts and a key that
      is not two dates. */
  lemma {:induction false} SkippedPass(columns: map<string, Column>, dateRange: string)
    requires ReformatEntry(columns, dateRange) == Ok(None) && dateRange !in Sentinels
    ensures HasCount(columns, Persecution, dateRange) && HasCount(columns, Torture, dateRange)
    ensures !NamesTwoDates(dateRange)
  {
  }

  /** With both fear counts, a key that is not two dates is skipped. */
  lemma {:induction false} CountedPass(columns: map<string, Column>, dateRange: string)
    requires dateRange !in Sentinels && HasCount(columns, Persecution, dateRange) && HasCount(columns, Torture, dateRange)
    ensures !NamesTwoDates(dateRange) ==> ReformatEntry(columns, dateRange) == Ok(None)
  {
  }

  /** The key splits at `-` into two `%m/%d/%Y` dates. */
  predicate NamesTwoDates(dateRange: string) {
    var parts := Split(dateRange, '-');
    |parts| == 2 && FormatDate(parts[0]).Some? && FormatDate(parts[1]).Some?
  }

  /** The four counts the record reads besides the fear counts are numbers. */
  predicate RecordCounts(columns: map<string, Column>, dateRange: string) {
    && HasCount(columns, "Case Receipts", dateRange) && HasCount(columns, "All Decisions", dateRange)
    && HasCount(columns, "Fear Not Established (N)", dateRange)
    && HasCount(columns, "Administratively Closed", dateRange)
  }

  /** All six counts a pass reads are numbers. */
  predicate AllCounts(columns: map<string, Column>, dateRange: string) {
    HasCount(columns, Persecution, dateRange) && HasCount(columns, Torture, dateRange) && RecordCounts(columns, dateRange)
  }

  /** Nothing but `ValueError` is caught: a fear count that is not a number,
      a missing category or a missing date range ends the call. */
  lemma {:induction false} EntryRaises(columns: map<string, Column>, dateRange: string)
    requires dateRange !in Sentinels
    requires !HasCount(columns, Persecution, dateRange) || !HasCount(columns, Torture, dateRange)
    ensures ReformatEntry(columns, dateRange).Raised?
  {
  }

  /** For a key that names two dates, a pass raises exactly when one of the
      six counts it reads is missing or `None`: `KeyError` and the `TypeError`
      of `+` or of the `:,` format are not caught, whichever count it is. */
  lemma {:induction false} EntryRaisesOnCount(columns: map<string, Column>, dateRange: string)
    requires dateRange !in Sentinels && NamesTwoDates(dateRange)
    ensures ReformatEntry(columns, dateRange).Raised? <==> !AllCounts(columns, dateRange)
  {
    if HasCount(columns, Persecution, dateRange) && HasCount(columns, Torture, dateRange) {
      var established := CountOf(columns, Persecution, dateRange) + CountOf(columns, Torture, dateRange);
      assert Sum(Cell(columns, Persecution, dateRange).value, Cell(columns, Torture, dateRange).value) == Ok(established);
      EntryFieldsRaises(columns, dateRange, established);
    }
  }

  /** The record is built exactly when the four counts it reads are numbers. */
  lemma {:induction false} EntryFieldsRaises(columns: map<string, Column>, dateRange: string, established: int)
    ensures EntryFields(columns, dateRange, established).Raised? <==> !RecordCounts(columns, dateRange)
  {
  }

  /** Every key `reformat_data` returns comes from a key of `Case Receipts`
      that is no sentinel and names two dates, and holds the record built
      from the LAST such key: the counts of the categories with persecution
      and torture summed. */
  lemma {:induction false} ReformatDataSource(columns: map<string, Column>, key: string)
    requires ReformatData(columns).Ok? && key in Keys(ReformatData(columns).value)
    ensures "Case Receipts" in columns && columns["Case Receipts"].ByRange?
    ensures var keys := Keys(columns["Case Receipts"].byRange);
      exists i | 0 <= i < |keys| ::
        && ReformatEntry(columns, keys[i]) == Ok(Some((key, Get(ReformatData(columns).value, key).value)))
        && forall j | i < j < |keys| :: LeavesKey(ReformatEntry(columns, keys[j]), key)
  {
    var keys := Keys(columns["Case Receipts"].byRange);
    AssignmentsSource(Passes(columns, keys), key);
  }

  /** Each entry `reformat_data` returns is keyed by a range of two dates and
      holds the five fields. */
  lemma {:induction false} ReformatDataEntry(columns: map<string, Column>, i: nat)
    requires ReformatData(columns).Ok? && i < |ReformatData(columns).value|
    ensures var data := ReformatData(columns).value;
      && (exists start, end | ValidDate(start) && ValidDate(end) :: data[i].0 == RangeKey(start, end))
      && Keys(data[i].1) == RecordFields
  {
    var data := ReformatData(columns).value;
    var key := data[i].0;
    assert key == Keys(data)[i];
    GetAt(data, i);
    ReformatDataSource(columns, key);
    var keys := Keys(columns["Case Receipts"].byRange);
    var j :| 0 <= j < |keys| && ReformatEntry(columns, keys[j]) == Ok(Some((key, data[i].1)));
    EntryKey(columns, keys[j], key, data[i].1);
    EntryRecord(columns, keys[j], key, data[i].1);
    var dr := keys[j];
    RecordReadsBack(
      CountOf(columns, "Case Receipts", dr),
      CountOf(columns, "All Decisions", dr),
      CountOf(columns, Persecution, dr) + CountOf(columns, Torture, dr),
      CountOf(columns, "Fear Not Established (N)", dr),
      CountOf(columns, "Administratively Closed", dr));
  }

  /** `reformat_data` raises exactly when `Case Receipts` is not a dict of
      date ranges or the pass for one of its keys raises. */
  lemma {:induction false} ReformatDataRaises(columns: map<string, Column>)
    ensures ReformatData(columns).Raised? <==>
      || !("Case Receipts" in columns && columns["Case Receipts"].ByRange?)
      || exists i | 0 <= i < |Keys(columns["Case Receipts"].byRange)| ::
           ReformatEntry(columns, Keys(columns["Case Receipts"].byRange)[i]).Raised?
  {
    if "Case Receipts" in columns && columns["Case Receipts"].ByRange? {
      var keys := Keys(columns["Case Receipts"].byRange);
      AssignmentsRaises(Passes(columns, keys));
    }
  }

  /** Leaving out a key that the loop skips changes nothing. */
  lemma {:induction false} SkipKey(columns: map<string, Column>, a: seq<string>, skipped: string, b: seq<string>)
    requires ReformatEntry(columns, skipped) == Ok(None)
    ensures Assignments(Passes(columns, a + [skipped] + b)) == Assignments(Passes(columns, a + b))
  {
    AssignmentsSkip(Passes(columns, a), Passes(columns, b));
    PassesConcat(columns, a, [skipped]);
    PassesConcat(columns, a + [skipped], b);
    PassesConcat(columns, a, b);
    assert Passes(columns, [skipped]) == [Ok(None)];
  }

  lemma PassesConcat(columns: map<string, Column>, a: seq<string>, b: seq<string>)
    ensures Passes(columns, a + b) == Passes(columns, a) + Passes(columns, b)
  {
    var whole, left, right := Passes(columns, a + b), Passes(columns, a), Passes(columns, b);
    forall i | 0 <= i < |whole| ensures whole[i] == (left + right)[i] {
      if i >= |a| {
        assert (a + b)[i] == b[i - |a|];
      }
    }
  }

  /** `convert_to_int` reads back each count from the record. */
  lemma {:induction false} RecordReadsBack(receipts: int, decisions: int, established: int, notEstablished: int, closed: int)
    ensures var record := Record(receipts, decisions, established, notEstablished, closed);
      && Keys(record) == RecordFields
      && ConvertToInt(record[0].1) == Some(receipts)
      && ConvertToInt(record[1].1) == Some(decisions)
      && ConvertToInt(record[2].1) == Some(established)
      && ConvertToInt(record[3].1) == Some(notEstablished)
      && ConvertToInt(record[4].1) == Some(closed)
  {
    var record := Record(receipts, decisions, established, notEstablished, closed);
    RecordKeys(receipts, decisions, established, notEstablished, closed);
    assert record[0].1 == Thousands(receipts) && record[1].1 == Thousands(decisions)
      && record[2].1 == Thousands(established) && record[3].1 == Thousands(notEstablished)
      && record[4].1 == Thousands(closed);
    ThousandsRoundTrip(receipts);
    ThousandsRoundTrip(decisions);
    ThousandsRoundTrip(established);
    ThousandsRoundTrip(notEstablished);
    ThousandsRoundTrip(closed);
  }

  lemma {:induction false} RecordKeys(receipts: int, decisions: int, established: int, notEstablished: int, closed: int)
    ensures Keys(Record(receipts, decisions, established, notEstablished, closed)) == RecordFields
  {
  }

  /** No key the loop emits is a sentinel. */
  lemma {:induction false} RangeKeyNotSentinel(start: Date, end: Date)
    requires ValidDate(start) && ValidDate(end)
    ensures RangeKey(start, end) !in Sentinels
  {
    FormatYmdLength(start);
    FormatYmdLength(end);
    assert |RangeKey(start, end)| == 21;
  }
}
