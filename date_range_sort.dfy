/** `sort_date_range_dict` (clean_cfi.py): a dict keyed by date ranges,
    re-ordered by the calendar date that starts each key. Python's `sorted`
    is stable, so it is modelled by an insertion sort that puts each entry
    before the entries that do not start earlier. */
module DateRangeSort {
  import opened Wrappers
  import opened PyStr
  import opened PyDict
  import opened Dates

  /** `get_start_date(date_range)`: the first three `-`-separated tokens of
      the key, joined again and read as `%Y-%m-%d`; `None` where strptime
      raises `ValueError`. */
  function StartDate(key: string): Option<Date> {
    var tokens := Split(key, '-');
    ParseYmd(Join(tokens[..if |tokens| < 3 then |tokens| else 3], '-'))
  }

  /** The start date of a key that `reformat_data` writes is its first date. */
  lemma {:induction false} StartOfRangeKey(start: Date, end: Date)
    requires ValidDate(start) && ValidDate(end)
    ensures StartDate(RangeKey(start, end)) == Some(start)
  {
    FormatYmdPieces(start);
    FormatYmdPieces(end);
    SplitAround(FormatYmd(start), FormatYmd(end), '-');
    var tokens := Split(RangeKey(start, end), '-');
    assert tokens[..3] == [Pad4(start.year), Pad2(start.month), Pad2(start.day)];
    ParseFormatYmd(start);
  }

  /** The sort key of an entry whose key parses. */
  function Start<V>(e: (string, V)): Date {
    match StartDate(e.0)
    case Some(d) => d
    case None => Date(0, 0, 0)
  }

  predicate AllKeysParse<V>(d: Dict<V>) {
    forall i | 0 <= i < |d| :: StartDate(d[i].0).Some?
  }

  /** `s` is ordered by non-decreasing `key`. */
  predicate SortedBy<T>(s: seq<T>, key: T -> Date) {
    forall i, j | 0 <= i < j < |s| :: DateLe(key(s[i]), key(s[j]))
  }

  /** The elements of `s` whose key is `day`, in their order in `s`. */
  function KeyedOn<T>(s: seq<T>, key: T -> Date, day: Date): seq<T> {
    if s == [] then []
    else (if key(s[0]) == day then [s[0]] else []) + KeyedOn(s[1..], key, day)
  }

  /** Where `Insert` puts `x`: before the first element whose key is not smaller. */
  function InsertPos<T>(x: T, s: seq<T>, key: T -> Date): (k: nat)
    ensures k <= |s|
    ensures forall i | 0 <= i < k :: !DateLe(key(x), key(s[i]))
    ensures k < |s| ==> DateLe(key(x), key(s[k]))
  {
    if s == [] || DateLe(key(x), key(s[0])) then 0 else 1 + InsertPos(x, s[1..], key)
  }

  function Insert<T>(x: T, s: seq<T>, key: T -> Date): seq<T> {
    if s == [] || DateLe(key(x), key(s[0])) then [x] + s else [s[0]] + Insert(x, s[1..], key)
  }

  /** A stable sort by `key`, as Python's `sorted(..., key=key)`. */
  function InsertionSort<T>(s: seq<T>, key: T -> Date): seq<T> {
    if s == [] then [] else Insert(s[0], InsertionSort(s[1..], key), key)
  }

  /** `sort_date_range_dict(data)`: `dict(sorted(data.items(), key=...))`;
      `ValueError` when some key does not start with a `%Y-%m-%d` date. */
  function SortDateRangeDict<V>(data: Dict<V>): Result<Dict<V>> {
    if AllKeysParse(data) then Ok(FromPairs(InsertionSort(data, Start))) else Raised(ValueError)
  }

  lemma {:induction false} InsertShape<T>(x: T, s: seq<T>, key: T -> Date)
    ensures var k := InsertPos(x, s, key);
      Insert(x, s, key) == s[..k] + [x] + s[k..]
  {
    if s != [] && !DateLe(key(x), key(s[0])) {
      var k' := InsertPos(x, s[1..], key);
      InsertShape(x, s[1..], key);
      assert s[..k' + 1] == [s[0]] + s[1..][..k'];
      assert s[k' + 1..] == s[1..][k'..];
    }
  }

  lemma {:induction false} InsertSorted<T>(x: T, s: seq<T>, key: T -> Date)
    requires SortedBy(s, key)
    ensures SortedBy(Insert(x, s, key), key)
  {
    InsertShape(x, s, key);
    var k := InsertPos(x, s, key);
    var r := Insert(x, s, key);
    forall i, j | 0 <= i < j < |r| ensures DateLe(key(r[i]), key(r[j])) {
      if i < k && j == k {
        DateLeTotal(key(x), key(s[i]));
      } else if i == k && j > k {
        DateLeTransitive(key(x), key(s[k]), key(s[j - 1]));
      } else if i < k && j > k {
        assert DateLe(key(s[i]), key(s[j - 1]));
      }
    }
  }

  lemma {:induction false} InsertionSortSorted<T>(s: seq<T>, key: T -> Date)
    ensures SortedBy(InsertionSort(s, key), key)
  {
    if s != [] {
      InsertionSortSorted(s[1..], key);
      InsertSorted(s[0], InsertionSort(s[1..], key), key);
    }
  }

  lemma {:induction false} InsertPermutes<T>(x: T, s: seq<T>, key: T -> Date)
    ensures multiset(Insert(x, s, key)) == multiset(s) + multiset{x}
  {
    InsertShape(x, s, key);
    var k := InsertPos(x, s, key);
    assert s == s[..k] + s[k..];
  }

  lemma {:induction false} InsertionSortPermutes<T>(s: seq<T>, key: T -> Date)
    ensures multiset(InsertionSort(s, key)) == multiset(s)
  {
    if s != [] {
      InsertionSortPermutes(s[1..], key);
      InsertPermutes(s[0], InsertionSort(s[1..], key), key);
      assert s == [s[0]] + s[1..];
    }
  }

  lemma {:induction false} KeyedOnConcat<T>(a: seq<T>, b: seq<T>, key: T -> Date, day: Date)
    ensures KeyedOn(a + b, key, day) == KeyedOn(a, key, day) + KeyedOn(b, key, day)
  {
    if a == [] {
      assert a + b == b;
    } else {
      assert (a + b)[1..] == a[1..] + b;
      KeyedOnConcat(a[1..], b, key, day);
    }
  }

  lemma {:induction false} KeyedOnNone<T>(a: seq<T>, key: T -> Date, day: Date)
    requires forall i | 0 <= i < |a| :: key(a[i]) != day
    ensures KeyedOn(a, key, day) == []
  {
    if a != [] {
      KeyedOnNone(a[1..], key, day);
    }
  }

  /** Inserting `x` puts it in front of the elements with its key. */
  lemma {:induction false} InsertStable<T>(x: T, s: seq<T>, key: T -> Date, day: Date)
    ensures KeyedOn(Insert(x, s, key), key, day) == (if key(x) == day then [x] else []) + KeyedOn(s, key, day)
  {
    InsertShape(x, s, key);
    var k := InsertPos(x, s, key);
    KeyedOnConcat(s[..k] + [x], s[k..], key, day);
    KeyedOnConcat(s[..k], [x], key, day);
    KeyedOnConcat(s[..k], s[k..], key, day);
    assert s == s[..k] + s[k..];
    if key(x) == day {
      KeyedOnNone(s[..k], key, day);
    }
  }

  /** Stability: for every date, the elements with that key keep their
      relative order. */
  lemma {:induction false} InsertionSortStable<T>(s: seq<T>, key: T -> Date, day: Date)
    ensures KeyedOn(InsertionSort(s, key), key, day) == KeyedOn(s, key, day)
  {
    if s != [] {
      InsertionSortStable(s[1..], key, day);
      InsertStable(s[0], InsertionSort(s[1..], key), key, day);
    }
  }

  lemma {:induction false} CountAtMostOne<T>(s: seq<T>, x: T)
    requires Distinct(s)
    ensures multiset(s)[x] <= 1
  {
    if s != [] {
      assert s == [s[0]] + s[1..];
      CountAtMostOne(s[1..], x);
      assert s[0] !in s[1..];
    }
  }

  lemma {:induction false} CountPair<T>(t: seq<T>, i: nat, j: nat)
    requires i < j < |t|
    ensures multiset(t)[t[i]] >= 1 + (if t[j] == t[i] then 1 else 0)
  {
    assert t == t[..j] + [t[j]] + t[j + 1..];
    assert t[..j] == t[..i] + [t[i]] + t[i + 1..j];
  }

  /** A permutation of a dict still has distinct keys. */
  lemma {:induction false} PermutationDistinct<V>(s: seq<(string, V)>, t: seq<(string, V)>)
    requires multiset(s) == multiset(t) && DistinctKeys(s)
    ensures DistinctKeys(t)
  {
    forall i, j | 0 <= i < j < |t| ensures t[i].0 != t[j].0 {
      CountPair(t, i, j);
      CountAtMostOne(s, t[i]);
      assert t[i] in multiset(s) && t[j] in multiset(s);
      var a :| 0 <= a < |s| && s[a] == t[i];
      var b :| 0 <= b < |s| && s[b] == t[j];
      assert a != b;
    }
  }

  /** `sort_date_range_dict` raises exactly when some key does not parse; otherwise
      it returns the same entries, ordered by non-decreasing start date, with
      entries of equal start date in their original order. */
  lemma {:induction false} SortDateRangeDictSpec<V>(data: Dict<V>, day: Date)
    requires DistinctKeys(data)
    ensures SortDateRangeDict(data).Ok? <==> AllKeysParse(data)
    ensures SortDateRangeDict(data).Ok? ==>
      var r := SortDateRangeDict(data).value;
      && multiset(r) == multiset(data)
      && SortedBy(r, Start)
      && KeyedOn(r, Start, day) == KeyedOn(data, Start, day)
  {
    var s := InsertionSort(data, Start);
    InsertionSortPermutes(data, Start);
    InsertionSortSorted(data, Start);
    InsertionSortStable(data, Start, day);
    PermutationDistinct(data, s);
    FromDistinctPairs(s);
  }
}
