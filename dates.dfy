/** Calendar dates as `datetime.strptime` reads them and `strftime` writes
    them, for the two formats the pipeline uses: `%m/%d/%Y` (the report's
    dates) and `%Y-%m-%d` (the canonical form and the sort key). */
module Dates {
  import opened Wrappers
  import opened PyStr
  import opened Numbers

  datatype Date = Date(year: int, month: int, day: int)

  predicate IsLeapYear(y: int) {
    y % 4 == 0 && (y % 100 != 0 || y % 400 == 0)
  }

  function DaysInMonth(y: int, m: int): int {
    if m == 2 then (if IsLeapYear(y) then 29 else 28)
    else if m == 4 || m == 6 || m == 9 || m == 11 then 30
    else 31
  }

  /** The dates `datetime.date` accepts (years 1 to 9999, Gregorian calendar). */
  predicate ValidDate(d: Date) {
    1 <= d.year <= 9999 && 1 <= d.month <= 12 && 1 <= d.day <= DaysInMonth(d.year, d.month)
  }

  /** `datetime` comparison: by year, then month, then day. */
  predicate DateLe(a: Date, b: Date) {
    a.year < b.year || (a.year == b.year && (a.month < b.month || (a.month == b.month && a.day <= b.day)))
  }

  lemma {:induction false} DateLeTotal(a: Date, b: Date)
    ensures DateLe(a, b) || DateLe(b, a)
  {
  }

  lemma {:induction false} DateLeTransitive(a: Date, b: Date, c: Date)
    requires DateLe(a, b) && DateLe(b, c)
    ensures DateLe(a, c)
  {
  }

  /** `%Y` in strptime: exactly four digits. */
  predicate IsYearToken(s: string) {
    |s| == 4 && AllDigits(s)
  }

  /** `%m` in strptime: `1[0-2]|0[1-9]|[1-9]`. */
  predicate IsMonthToken(s: string) {
    || (|s| == 1 && '1' <= s[0] <= '9')
    || (|s| == 2 && s[0] == '0' && '1' <= s[1] <= '9')
    || (|s| == 2 && s[0] == '1' && '0' <= s[1] <= '2')
  }

  /** `%d` in strptime: `3[01]|[12]\d|0[1-9]|[1-9]| [1-9]` (a space may stand
      for a leading zero). */
  predicate IsDayToken(s: string) {
    || (|s| == 1 && '1' <= s[0] <= '9')
    || (|s| == 2 && (s[0] == '0' || s[0] == ' ') && '1' <= s[1] <= '9')
    || (|s| == 2 && (s[0] == '1' || s[0] == '2') && IsDigit(s[1]))
    || (|s| == 2 && s[0] == '3' && (s[1] == '0' || s[1] == '1'))
  }

  /** `int()` of a day token. */
  function DayValue(s: string): nat
    requires IsDayToken(s)
  {
    if |s| == 2 && s[0] == ' ' then DigitValue(s[1]) else DigitsValue(s)
  }

  /** The date named by a year, a month and a day token, if the tokens have
      the shape strptime accepts and the date exists. */
  function ParseFields(ys: string, ms: string, ds: string): (r: Option<Date>)
    ensures r.Some? ==> ValidDate(r.value)
  {
    if IsYearToken(ys) && IsMonthToken(ms) && IsDayToken(ds) then
      var d := Date(DigitsValue(ys), DigitsValue(ms), DayValue(ds));
      if ValidDate(d) then Some(d) else None
    else None
  }

  /** `datetime.strptime(s, '%m/%d/%Y')`; `None` where it raises `ValueError`. */
  function ParseMdY(s: string): (r: Option<Date>)
    ensures r.Some? ==> ValidDate(r.value)
  {
    var p := Split(s, '/');
    if |p| == 3 then ParseFields(p[2], p[0], p[1]) else None
  }

  /** `datetime.strptime(s, '%Y-%m-%d')`; `None` where it raises `ValueError`. */
  function ParseYmd(s: string): (r: Option<Date>)
    ensures r.Some? ==> ValidDate(r.value)
  {
    var p := Split(s, '-');
    if |p| == 3 then ParseFields(p[0], p[1], p[2]) else None
  }

  function Pad2(n: nat): string
    requires n < 100
  {
    [DigitChar(n / 10), DigitChar(n % 10)]
  }

  function Pad4(n: nat): string
    requires n < 10000
  {
    [DigitChar(n / 1000), DigitChar(n / 100 % 10), DigitChar(n / 10 % 10), DigitChar(n % 10)]
  }

  /** `d.strftime('%Y-%m-%d')`: zero-padded year, month and day. */
  function FormatYmd(d: Date): string
    requires ValidDate(d)
  {
    Join([Pad4(d.year), Pad2(d.month), Pad2(d.day)], '-')
  }

  /** `%Y-%m-%d` is ten characters long. */
  lemma {:induction false} FormatYmdLength(d: Date)
    requires ValidDate(d)
    ensures |FormatYmd(d)| == 10
  {
    var parts := [Pad4(d.year), Pad2(d.month), Pad2(d.day)];
    assert parts[1..][1..] == [Pad2(d.day)];
    assert Join(parts[1..], '-') == Pad2(d.month) + ['-'] + Pad2(d.day);
  }

  /** The key `reformat_data` writes for a date range. */
  function RangeKey(start: Date, end: Date): string
    requires ValidDate(start) && ValidDate(end)
  {
    FormatYmd(start) + "-" + FormatYmd(end)
  }

  /** `format_date(date_str)`: strip, read as `%m/%d/%Y`, write as `%Y-%m-%d`;
      `None` where strptime raises `ValueError`. */
  function FormatDate(dateStr: string): Option<string> {
    match ParseMdY(Strip(dateStr))
    case Some(d) => Some(FormatYmd(d))
    case None => None
  }

  lemma {:induction false} Pad4Token(n: nat)
    requires n < 10000
    ensures IsYearToken(Pad4(n)) && DigitsValue(Pad4(n)) == n
  {
    var s := Pad4(n);
    assert s[..3][..2] == s[..2] && s[..2][..1] == s[..1] && s[..1][..0] == [];
    assert DigitsValue(s[..1]) == n / 1000;
    assert DigitsValue(s[..2]) == n / 100;
    assert DigitsValue(s[..3]) == n / 10;
  }

  lemma {:induction false} Pad2Month(n: nat)
    requires 1 <= n <= 12
    ensures IsMonthToken(Pad2(n)) && DigitsValue(Pad2(n)) == n
  {
    var s := Pad2(n);
    assert s[..1][..0] == [];
    assert DigitsValue(s[..1]) == n / 10;
  }

  lemma {:induction false} Pad2Day(n: nat)
    requires 1 <= n <= 31
    ensures IsDayToken(Pad2(n)) && DayValue(Pad2(n)) == n
  {
    var s := Pad2(n);
    assert s[..1][..0] == [];
    assert DigitsValue(s[..1]) == n / 10;
    assert s[0] == DigitChar(n / 10) && s[1] == DigitChar(n % 10);
    if n < 10 {
      assert s[0] == '0';
    } else if n < 20 {
      assert s[0] == '1';
    } else if n < 30 {
      assert s[0] == '2';
    } else {
      assert s[0] == '3';
    }
  }

  lemma {:induction false} FormatYmdPieces(d: Date)
    requires ValidDate(d)
    ensures Split(FormatYmd(d), '-') == [Pad4(d.year), Pad2(d.month), Pad2(d.day)]
  {
    var parts := [Pad4(d.year), Pad2(d.month), Pad2(d.day)];
    forall i | 0 <= i < 3 ensures '-' !in parts[i] {
      assert forall j | 0 <= j < |parts[i]| :: IsDigit(parts[i][j]);
    }
    SplitJoin(parts, '-');
  }

  /** `strptime(d.strftime('%Y-%m-%d'), '%Y-%m-%d') == d` for every date. */
  lemma {:induction false} ParseFormatYmd(d: Date)
    requires ValidDate(d)
    ensures ParseYmd(FormatYmd(d)) == Some(d)
  {
    FormatYmdPieces(d);
    Pad4Token(d.year);
    Pad2Month(d.month);
    Pad2Day(d.day);
  }

  /** `format_date` only changes how a date is written: reading its output as
      `%Y-%m-%d` gives the date its input names as `%m/%d/%Y`. */
  lemma {:induction false} FormatDateMeaning(dateStr: string)
    requires FormatDate(dateStr).Some?
    ensures ParseMdY(Strip(dateStr)).Some?
    ensures ParseYmd(FormatDate(dateStr).value) == ParseMdY(Strip(dateStr))
  {
    ParseFormatYmd(ParseMdY(Strip(dateStr)).value);
  }

  /** The report may write month and day with or without a leading zero:
      both `m/d/Y` spellings of a date are read as that date. */
  lemma {:induction false} ParseMdYSpellings(d: Date)
    requires ValidDate(d)
    ensures ParseMdY(Join([Decimal(d.month), Decimal(d.day), Pad4(d.year)], '/')) == Some(d)
    ensures ParseMdY(Join([Pad2(d.month), Pad2(d.day), Pad4(d.year)], '/')) == Some(d)
  {
    Pad4Token(d.year);
    Pad2Month(d.month);
    Pad2Day(d.day);
    DecimalToken(d.month);
    DecimalToken(d.day);
    ParseMdYPieces(Decimal(d.month), Decimal(d.day), Pad4(d.year), d);
    ParseMdYPieces(Pad2(d.month), Pad2(d.day), Pad4(d.year), d);
  }

  /** Month, day and year tokens joined by `/` are read as the date they name. */
  lemma {:induction false} ParseMdYPieces(m: string, dd: string, y: string, d: Date)
    requires ValidDate(d)
    requires IsMonthToken(m) && DigitsValue(m) == d.month
    requires IsDayToken(dd) && DayValue(dd) == d.day
    requires IsYearToken(y) && DigitsValue(y) == d.year
    ensures ParseMdY(Join([m, dd, y], '/')) == Some(d)
  {
    TokenWithoutSlash(m);
    TokenWithoutSlash(dd);
    DigitsWithoutSep(y, '/');
    var p := [m, dd, y];
    assert forall i | 0 <= i < 3 :: '/' !in p[i];
    SplitJoin(p, '/');
  }

  /** A month or day token holds no `/`. */
  lemma {:induction false} TokenWithoutSlash(s: string)
    requires |s| <= 2 && (|s| < 2 || s[0] != '/') && (s == [] || s[|s| - 1] != '/')
    ensures '/' !in s
  {
  }

  /** A separator that is not a digit does not occur in a string of digits. */
  lemma {:induction false} DigitsWithoutSep(s: string, sep: char)
    requires AllDigits(s) && !IsDigit(sep)
    ensures sep !in s
  {
    forall j | 0 <= j < |s| ensures s[j] != sep {
      assert IsDigit(s[j]);
    }
  }

  lemma {:induction false} DecimalToken(n: nat)
    requires 1 <= n <= 31
    ensures IsDayToken(Decimal(n)) && DayValue(Decimal(n)) == n
    ensures n <= 12 ==> IsMonthToken(Decimal(n))
  {
    DecimalValue(n);
    if n >= 10 {
      assert Decimal(n) == [DigitChar(n / 10), DigitChar(n % 10)];
    }
  }
}
