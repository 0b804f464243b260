/** The few Python `str` operations the pipeline uses, on ASCII:
    `strip`, `upper`, `lower`, `split(sep)`, `sep.join`, `replace(c, '')`. */
module PyStr {

  /** Whitespace as `str.strip()` sees it, restricted to ASCII:
      tab, line feed, vertical tab, form feed, carriage return,
      the four separators 0x1C-0x1F and space. */
  predicate IsSpace(c: char) {
    c == ' ' || '\t' <= c <= '\r' || '\U{1C}' <= c <= '\U{1F}'
  }

  predicate AllSpace(s: string) {
    forall i | 0 <= i < |s| :: IsSpace(s[i])
  }

  /** `s.lstrip()` */
  function StripLeft(s: string): string {
    if s == [] || !IsSpace(s[0]) then s else StripLeft(s[1..])
  }

  /** `s.rstrip()` */
  function StripRight(s: string): string {
    if s == [] || !IsSpace(s[|s| - 1]) then s else StripRight(s[..|s| - 1])
  }

  /** `s.strip()`: the text between the leading and the trailing whitespace. */
  function Strip(s: string): (r: string) {
    StripRight(StripLeft(s))
  }

  /** `lstrip` drops the longest all-whitespace prefix. */
  lemma {:induction false} StripLeftSpec(s: string)
    ensures var r := StripLeft(s);
      && |r| <= |s| && r == s[|s| - |r|..]
      && (r == [] || !IsSpace(r[0]))
      && AllSpace(s[..|s| - |r|])
  {
    if s != [] && IsSpace(s[0]) {
      var t := s[1..];
      StripLeftSpec(t);
      var r := StripLeft(t);
      assert StripLeft(s) == r;
      assert s[|s| - |r|..] == t[|t| - |r|..];
      assert s[..|s| - |r|] == [s[0]] + t[..|t| - |r|];
    }
  }

  /** `rstrip` drops the longest all-whitespace suffix. */
  lemma {:induction false} StripRightSpec(s: string)
    ensures var r := StripRight(s);
      && |r| <= |s| && r == s[..|r|]
      && (r == [] || !IsSpace(r[|r| - 1]))
      && AllSpace(s[|r|..])
  {
    if s != [] && IsSpace(s[|s| - 1]) {
      StripRightSpec(s[..|s| - 1]);
      var r := StripRight(s);
      assert s[|r|..] == s[..|s| - 1][|r|..] + [s[|s| - 1]];
    }
  }

  /** `strip` leaves nothing exactly for an all-whitespace string, and
      otherwise text that neither starts nor ends with whitespace. */
  lemma {:induction false} StripSpec(s: string)
    ensures |Strip(s)| <= |s|
    ensures Strip(s) == [] <==> AllSpace(s)
    ensures Strip(s) != [] ==> !IsSpace(Strip(s)[0]) && !IsSpace(Strip(s)[|Strip(s)| - 1])
  {
    var l := StripLeft(s);
    var r := StripRight(l);
    StripLeftSpec(s);
    StripRightSpec(l);
    assert s == s[..|s| - |l|] + l;
    assert r == [] ==> l == l[|r|..];
    if r != [] {
      assert r[0] == l[0];
    }
  }

  /** `rstrip` keeps a first character that is not whitespace. */
  lemma {:induction false} StripRightFirst(s: string)
    requires s != [] && !IsSpace(s[0])
    ensures StripRight(s) != [] && StripRight(s)[0] == s[0]
  {
    StripRightSpec(s);
  }

  /** The first character `strip` keeps is the first character `lstrip` keeps. */
  lemma {:induction false} StripFirst(s: string)
    requires Strip(s) != []
    ensures StripLeft(s) != [] && Strip(s)[0] == StripLeft(s)[0]
  {
    StripLeftSpec(s);
    StripRightFirst(StripLeft(s));
  }

  /** Removing a character that is not whitespace keeps the first character
      `lstrip` keeps, unless it is the removed one. */
  lemma {:induction false} StripLeftRemoveChar(s: string, c: char)
    requires !IsSpace(c) && StripLeft(s) != [] && StripLeft(s)[0] != c
    ensures StripLeft(RemoveChar(s, c)) != [] && StripLeft(RemoveChar(s, c))[0] == StripLeft(s)[0]
  {
    assert RemoveChar(s, c) == [s[0]] + RemoveChar(s[1..], c);
    if IsSpace(s[0]) {
      StripLeftRemoveChar(s[1..], c);
      assert StripLeft(RemoveChar(s, c)) == StripLeft(RemoveChar(s[1..], c));
    }
  }

  /** A string with no whitespace at either end is its own strip. */
  lemma {:induction false} StripUnchanged(s: string)
    requires s == [] || (!IsSpace(s[0]) && !IsSpace(s[|s| - 1]))
    ensures Strip(s) == s
  {
  }

  /** Stripping removes whitespace only. */
  lemma {:induction false} StripKeeps(s: string, c: char)
    requires c in s && !IsSpace(c)
    ensures c in Strip(s)
  {
    var l := StripLeft(s);
    StripLeftSpec(s);
    StripRightSpec(l);
    var k :| 0 <= k < |s| && s[k] == c;
    assert forall x | 0 <= x < |s| - |l| :: IsSpace(s[x]) by {
      forall x | 0 <= x < |s| - |l| ensures IsSpace(s[x]) {
        assert s[..|s| - |l|][x] == s[x];
      }
    }
    assert l[k - (|s| - |l|)] == c;
    var r := StripRight(l);
    var m := k - (|s| - |l|);
    assert forall x | |r| <= x < |l| :: IsSpace(l[x]) by {
      forall x | |r| <= x < |l| ensures IsSpace(l[x]) {
        assert l[|r|..][x - |r|] == l[x];
      }
    }
    assert r[m] == c;
  }

  function UpperChar(c: char): char {
    if 'a' <= c <= 'z' then (c as int - 32) as char else c
  }

  function LowerChar(c: char): char {
    if 'A' <= c <= 'Z' then (c as int + 32) as char else c
  }

  /** `s.upper()` on ASCII letters */
  function Upper(s: string): (r: string)
    ensures |r| == |s|
  {
    seq(|s|, i requires 0 <= i < |s| => UpperChar(s[i]))
  }

  /** `s.lower()` on ASCII letters */
  function Lower(s: string): (r: string)
    ensures |r| == |s|
  {
    seq(|s|, i requires 0 <= i < |s| => LowerChar(s[i]))
  }

  /** `sep.join(parts)` for a one-character separator. */
  function Join(parts: seq<string>, sep: char): string {
    if |parts| == 0 then ""
    else if |parts| == 1 then parts[0]
    else parts[0] + [sep] + Join(parts[1..], sep)
  }

  /** `s.split(sep)` for a one-character separator: the pieces of `s` between
      the occurrences of `sep`, never fewer than one. */
  function Split(s: string, sep: char): (parts: seq<string>)
    ensures |parts| >= 1
    ensures forall i | 0 <= i < |parts| :: sep !in parts[i]
    ensures Join(parts, sep) == s
  {
    if s == [] then [""]
    else
      var rest := Split(s[1..], sep);
      if s[0] == sep then
        assert Join([""] + rest, sep) == [sep] + Join(rest, sep);
        [""] + rest
      else
        var parts := [[s[0]] + rest[0]] + rest[1..];
        assert Join(parts, sep) == [s[0]] + Join(rest, sep) by {
          if |rest| > 1 {
            assert parts[1..] == rest[1..];
          }
        }
        parts
  }

  /** Splitting at a separator placed between two strings splits each of them. */
  lemma {:induction false} SplitAround(a: string, b: string, sep: char)
    ensures Split(a + [sep] + b, sep) == Split(a, sep) + Split(b, sep)
  {
    if a == [] {
      assert a + [sep] + b == [sep] + b;
    } else {
      assert (a + [sep] + b)[1..] == a[1..] + [sep] + b;
      SplitAround(a[1..], b, sep);
    }
  }

  /** A string without the separator is one piece. */
  lemma {:induction false} SplitWithoutSep(s: string, sep: char)
    requires sep !in s
    ensures Split(s, sep) == [s]
  {
    if s != [] {
      SplitWithoutSep(s[1..], sep);
    }
  }

  /** `split` undoes `join` when no piece holds the separator. */
  lemma {:induction false} SplitJoin(parts: seq<string>, sep: char)
    requires |parts| >= 1
    requires forall i | 0 <= i < |parts| :: sep !in parts[i]
    ensures Split(Join(parts, sep), sep) == parts
  {
    if |parts| == 1 {
      SplitWithoutSep(parts[0], sep);
    } else {
      SplitJoin(parts[1..], sep);
      SplitWithoutSep(parts[0], sep);
      SplitAround(parts[0], Join(parts[1..], sep), sep);
    }
  }

  /** `s.replace(c, '')` */
  function RemoveChar(s: string, c: char): (r: string)
    ensures c !in r && |r| <= |s|
  {
    if s == [] then ""
    else
      (if s[0] == c then "" else [s[0]]) + RemoveChar(s[1..], c)
  }

  /** Removing a character distributes over concatenation. */
  lemma {:induction false} RemoveCharConcat(a: string, b: string, c: char)
    ensures RemoveChar(a + b, c) == RemoveChar(a, c) + RemoveChar(b, c)
  {
    if a == [] {
      assert a + b == b;
    } else {
      var head := if a[0] == c then "" else [a[0]];
      assert (a + b)[0] == a[0] && (a + b)[1..] == a[1..] + b;
      RemoveCharConcat(a[1..], b, c);
      calc {
        RemoveChar(a + b, c);
        head + RemoveChar(a[1..] + b, c);
        head + (RemoveChar(a[1..], c) + RemoveChar(b, c));
        (head + RemoveChar(a[1..], c)) + RemoveChar(b, c);
      }
    }
  }

  /** Removing a character from a one-character string. */
  lemma {:induction false} RemoveCharSingle(x: char, c: char)
    ensures RemoveChar([x], c) == if x == c then "" else [x]
  {
    assert [x][1..] == "";
  }

  /** Removing a character that does not occur changes nothing. */
  lemma {:induction false} RemoveCharAbsent(s: string, c: char)
    requires c !in s
    ensures RemoveChar(s, c) == s
  {
    if s != [] {
      RemoveCharAbsent(s[1..], c);
    }
  }
}
