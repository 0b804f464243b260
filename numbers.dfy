/** Numeric cells: `convert_to_int` (clean_cfi.py) reads a report cell as an
    integer, and the `:,` format spec of `reformat_data` writes one back with
    thousands separators. The two are inverse to each other. */
module Numbers {
  import opened Wrappers
  import opened PyStr

  predicate IsDigit(c: char) {
    '0' <= c <= '9'
  }

  predicate AllDigits(s: string) {
    forall i | 0 <= i < |s| :: IsDigit(s[i])
  }

  predicate IsLetter(c: char) {
    'a' <= c <= 'z' || 'A' <= c <= 'Z'
  }

  function DigitValue(c: char): nat
    requires IsDigit(c)
  {
    c as int - '0' as int
  }

  function DigitChar(n: nat): (c: char)
    requires n < 10
    ensures IsDigit(c) && DigitValue(c) == n
  {
    ('0' as int + n) as char
  }

  /** The value of a string of ASCII decimal digits (leading zeros allowed, as `int()` allows them). */
  function DigitsValue(s: string): nat
    requires AllDigits(s)
  {
    if s == [] then 0 else DigitsValue(s[..|s| - 1]) * 10 + DigitValue(s[|s| - 1])
  }

  /** `str(n)` for a natural number: its decimal digits without leading zeros. */
  function Decimal(n: nat): (s: string)
    ensures s != [] && AllDigits(s)
    ensures n < 10 <==> |s| == 1
    ensures |s| == 1 || s[0] != '0'
  {
    if n < 10 then [DigitChar(n)]
    else
      var high := Decimal(n / 10);
      assert |high| == 1 ==> high[0] == DigitChar(n / 10);
      high + [DigitChar(n % 10)]
  }

  /** Reading back the decimal digits of `n` gives `n`. */
  lemma {:induction false} DecimalValue(n: nat)
    ensures DigitsValue(Decimal(n)) == n
  {
    if n >= 10 {
      DecimalValue(n / 10);
      var s := Decimal(n);
      assert s[..|s| - 1] == Decimal(n / 10);
    }
  }

  /** `str(n)` is the only digit string without a leading zero that reads as
      `n`: the digits `f"{n:,}"` groups are determined by `n`. */
  lemma {:induction false} DecimalUnique(s: string)
    requires s != [] && AllDigits(s) && (|s| == 1 || s[0] != '0')
    ensures Decimal(DigitsValue(s)) == s
  {
    if |s| > 1 {
      var p := s[..|s| - 1];
      var c := s[|s| - 1];
      assert p[0] == s[0];
      assert AllDigits(p) by {
        forall j | 0 <= j < |p| ensures IsDigit(p[j]) {
          assert p[j] == s[j];
        }
      }
      LeadingDigitPositive(p);
      DecimalUnique(p);
      var v := DigitsValue(s);
      assert v == DigitsValue(p) * 10 + DigitValue(c);
      assert v / 10 == DigitsValue(p) && v % 10 == DigitValue(c);
      assert s == p + [c];
    }
  }

  /** Digits that do not start with `0` read as a positive number. */
  lemma {:induction false} LeadingDigitPositive(s: string)
    requires s != [] && AllDigits(s) && s[0] != '0'
    ensures DigitsValue(s) >= 1
  {
    if |s| > 1 {
      var p := s[..|s| - 1];
      assert p[0] == s[0];
      assert AllDigits(p) by {
        forall j | 0 <= j < |p| ensures IsDigit(p[j]) {
          assert p[j] == s[j];
        }
      }
      LeadingDigitPositive(p);
    }
  }

  /** `int(s)` for text already stripped of whitespace, restricted to an
      optional sign followed by one or more ASCII digits. */
  function ParseInt(s: string): (r: Option<int>)
    ensures r.Some? ==> s != [] && (IsDigit(s[0]) || s[0] == '+' || s[0] == '-')
  {
    if s != [] && (s[0] == '+' || s[0] == '-') then
      if |s| > 1 && AllDigits(s[1..]) then
        var v: int := DigitsValue(s[1..]);
        Some(if s[0] == '-' then -v else v)
      else None
    else if s != [] && AllDigits(s) then Some(DigitsValue(s))
    else None
  }

  /** `convert_to_int(value)`: drop every comma, strip, then `int()`;
      `None` where `int()` raises `ValueError`. */
  function ConvertToInt(value: string): Option<int> {
    ParseInt(Strip(RemoveChar(value, ',')))
  }

  /** A comma is put before every group of three digits, counted from the right. */
  function Group(ds: string): string {
    if |ds| <= 3 then ds else Group(ds[..|ds| - 3]) + "," + ds[|ds| - 3..]
  }

  /** `f"{n:,}"`: the sign, then the decimal digits of `|n|` grouped by three. */
  function Thousands(n: int): string {
    if n < 0 then "-" + Group(Decimal(-n)) else Group(Decimal(n))
  }

  /** Grouping only adds commas: removing them gives the digits back. */
  lemma {:induction false} GroupUngroup(ds: string)
    requires ',' !in ds
    ensures RemoveChar(Group(ds), ',') == ds
  {
    if |ds| <= 3 {
      RemoveCharAbsent(ds, ',');
    } else {
      var pre, last := ds[..|ds| - 3], ds[|ds| - 3..];
      assert ds == pre + last;
      NoCommaInParts(pre, last);
      GroupUngroup(pre);
      var g := Group(pre);
      assert Group(ds) == (g + [',']) + last;
      RemoveCharConcat(g + [','], last, ',');
      RemoveCharConcat(g, [','], ',');
      RemoveCharSingle(',', ',');
      RemoveCharAbsent(last, ',');
      var gc := RemoveChar(g + [','], ',');
      assert gc == pre;
      assert RemoveChar(Group(ds), ',') == gc + last;
    }
  }

  lemma {:induction false} NoCommaInParts(a: string, b: string)
    requires ',' !in a + b
    ensures ',' !in a && ',' !in b
  {
    forall i | 0 <= i < |a| ensures a[i] != ',' {
      assert a[i] == (a + b)[i];
    }
    forall i | 0 <= i < |b| ensures b[i] != ',' {
      assert b[i] == (a + b)[|a| + i];
    }
  }

  /** A grouped digit string starts and ends with a digit. */
  lemma {:induction false} GroupEnds(ds: string)
    requires ds != [] && AllDigits(ds)
    ensures Group(ds) != [] && IsDigit(Group(ds)[0]) && IsDigit(Group(ds)[|Group(ds)| - 1])
  {
    if |ds| > 3 {
      GroupEnds(ds[..|ds| - 3]);
    }
  }

  /** The shape of `f"{n:,}"` for the digits `ds`: split at the commas, the
      first group has one to three digits and every later group exactly three. */
  lemma {:induction false} GroupShape(ds: string)
    requires ds != [] && AllDigits(ds)
    ensures var gs := Split(Group(ds), ',');
      && 1 <= |gs[0]| <= 3
      && (forall i | 1 <= i < |gs| :: |gs[i]| == 3)
      && (|gs| - 1) * 3 + |gs[0]| == |ds|
  {
    if |ds| <= 3 {
      assert ',' !in ds;
      SplitWithoutSep(ds, ',');
    } else {
      var pre, last := ds[..|ds| - 3], ds[|ds| - 3..];
      GroupShape(pre);
      assert Group(ds) == Group(pre) + [','] + last;
      SplitAround(Group(pre), last, ',');
      assert ',' !in last;
      SplitWithoutSep(last, ',');
      var gs := Split(Group(ds), ',');
      assert gs == Split(Group(pre), ',') + [last];
    }
  }

  /** `int()` reads back the decimal digits of `m`, with or without a minus sign. */
  lemma {:induction false} ParseDecimal(m: nat)
    ensures ParseInt(Decimal(m)) == Some(m)
    ensures ParseInt("-" + Decimal(m)) == Some(-(m as int))
  {
    var ds := Decimal(m);
    DecimalValue(m);
    assert ("-" + ds)[1..] == ds;
  }

  /** `convert_to_int` reads back what the `:,` format writes, for every integer. */
  lemma {:induction false} ThousandsRoundTrip(n: int)
    ensures ConvertToInt(Thousands(n)) == Some(n)
  {
    var m: nat := if n < 0 then -n else n;
    var ds := Decimal(m);
    ParseDecimal(m);
    forall i | 0 <= i < |ds| ensures ds[i] != ',' {
      assert IsDigit(ds[i]);
    }
    GroupUngroup(ds);
    if n < 0 {
      assert Thousands(n) == ['-'] + Group(ds);
      RemoveCharConcat(['-'], Group(ds), ',');
      RemoveCharSingle('-', ',');
      assert RemoveChar(Thousands(n), ',') == ['-'] + ds;
      StripUnchanged(['-'] + ds);
      assert "-" + ds == ['-'] + ds;
    } else {
      assert Thousands(n) == Group(ds);
      StripUnchanged(ds);
    }
  }

  /** A cell whose text begins with a letter, such as a row label, is not a
      number: removing the commas leaves the letter in front. */
  lemma {:induction false} LabelIsNotNumber(cell: string)
    requires Strip(cell) != [] && IsLetter(Strip(cell)[0])
    ensures ConvertToInt(cell) == None
  {
    StripFirst(cell);
    var letter := StripLeft(cell)[0];
    StripLeftRemoveChar(cell, ',');
    var t := Strip(RemoveChar(cell, ','));
    StripRightFirst(StripLeft(RemoveChar(cell, ',')));
    assert t != [] && t[0] == letter;
    assert ConvertToInt(cell) == ParseInt(t);
    assert !IsDigit(t[0]) && t[0] != '+' && t[0] != '-';
  }

  /** `convert_to_int("1,234") == 1234`; an empty cell reads as `None`. */
  lemma {:induction false} ConvertExamples()
    ensures ConvertToInt("1,234") == Some(1234)
    ensures ConvertToInt("") == None
  {
    assert Decimal(1234) == "1234" by {
      assert Decimal(1) == "1";
      assert Decimal(12) == "12";
      assert Decimal(123) == "123";
    }
    assert Group("1234") == "1,234" by {
      assert "1234"[..1] == "1" && "1234"[1..] == "234";
    }
    ThousandsRoundTrip(1234);
  }
}
